/** The ra_svn item grammar (rasvn/marshal.go; section 1, "Syntactic structure", of the
    libsvn_ra_svn protocol document): what the encoder writes and the decoder reads. */
module Wire {
  import opened Common
  import opened Decimal
  import opened Bytes

  const MAX_STRING_LENGTH := 67108864
  const MAX_NESTING_DEPTH := 64
  const MAX_WORD_LENGTH := 31
  const MAX_DIGITS := 20

  const OPEN: byte := 40
  const CLOSE: byte := 41

  datatype Item = Number(number: uint64) | Word(word: Text) | Str(data: Text) | List(items: seq<Item>)

  predicate IsAlpha(c: byte) {
    65 <= c <= 90 || 97 <= c <= 122
  }

  predicate IsWordByte(c: byte) {
    IsAlpha(c) || IsDigit(c) || c == MINUS
  }

  predicate IsWhitespace(c: byte) {
    c == SPACE || c == NEWLINE
  }

  predicate ValidWord(word: Text) {
    && 0 < |word| <= 31
    && IsAlpha(word[0])
    && forall i :: 1 <= i < |word| ==> IsWordByte(word[i])
  }

  // ----- what is written -----

  /** The encoder accepts the item at this depth. */
  predicate Encodable(item: Item, depth: nat)
    decreases item
  {
    && depth < 64
    && match item
       case Number(_) => true
       case Word(word) => ValidWord(word)
       case Str(data) => |data| <= 67108864
       case List(items) => forall i :: 0 <= i < |items| ==> Encodable(items[i], depth + 1)
  }

  function Encoded(item: Item): Text
    decreases item, 1, 0
  {
    match item
    case Number(n) => Format(n) + [SPACE]
    case Word(word) => word + [SPACE]
    case Str(data) => Format(|data|) + [COLON] + data + [SPACE]
    case List(items) => [OPEN, SPACE] + EncodedItems(item, |items|) + [CLOSE, SPACE]
  }

  /** The first n items of a list, one behind the other. */
  function EncodedItems(list: Item, n: nat): Text
    requires list.List? && n <= |list.items|
    decreases list, 0, n
  {
    if n == 0 then [] else EncodedItems(list, n - 1) + Encoded(list.items[n - 1])
  }

  // ----- what is read -----

  datatype Reply = Parsed(item: Item, next: nat) | Malformed | EndOfStream

  /** Where the run of digits from p on ends. */
  function DigitsEnd(data: Text, p: nat): (e: nat)
    requires p <= |data|
    ensures p <= e <= |data|
    ensures e < |data| ==> !IsDigit(data[e])
    ensures forall i :: p <= i < e ==> IsDigit(data[i])
    decreases |data| - p
  {
    if p < |data| && IsDigit(data[p]) then DigitsEnd(data, p + 1) else p
  }

  function WordEnd(data: Text, p: nat): (e: nat)
    requires p <= |data|
    ensures p <= e <= |data|
    ensures e < |data| ==> !IsWordByte(data[e])
    ensures forall i :: p <= i < e ==> IsWordByte(data[i])
    decreases |data| - p
  {
    if p < |data| && IsWordByte(data[p]) then WordEnd(data, p + 1) else p
  }

  function SkipWhitespace(data: Text, p: nat): (e: nat)
    requires p <= |data|
    ensures p <= e <= |data|
    ensures e < |data| ==> !IsWhitespace(data[e])
    decreases |data| - p
  {
    if p < |data| && IsWhitespace(data[p]) then SkipWhitespace(data, p + 1) else p
  }

  /** A string of n bytes from p on, and the whitespace behind it. */
  function StringAt(data: Text, p: nat, n: nat): (r: Reply)
    requires p <= |data|
    ensures r.Parsed? ==> p < r.next <= |data| && Encodable(r.item, 0)
  {
    if n > MAX_STRING_LENGTH || p + n >= |data| || !IsWhitespace(data[p + n]) then Malformed
    else Parsed(Str(data[p..p + n]), p + n + 1)
  }

  /** Digits from p to e, of which there are not too many, and what the byte behind them makes of them. */
  function NumberOrStringAt(data: Text, p: nat, e: nat): (r: Reply)
    requires p < e <= |data| && forall i :: p <= i < e ==> IsDigit(data[i])
    ensures r.Parsed? ==> p < r.next <= |data| && Encodable(r.item, 0)
  {
    if e == |data| || e - p > MAX_DIGITS then Malformed
    else
      var n := Value(data[p..e], e - p);
      if n >= TWO_TO_THE_64 then Malformed
      else if data[e] == COLON then StringAt(data, e + 1, n)
      else if IsWhitespace(data[e]) then Parsed(Number(n), e + 1)
      else Malformed
  }

  function WordAt(data: Text, p: nat, e: nat): (r: Reply)
    requires p < e <= |data| && IsAlpha(data[p]) && forall i :: p < i < e ==> IsWordByte(data[i])
    ensures r.Parsed? ==> p < r.next <= |data| && Encodable(r.item, 0)
  {
    if e == |data| || e - p > MAX_WORD_LENGTH || !IsWhitespace(data[e]) then Malformed
    else Parsed(Word(data[p..e]), e + 1)
  }

  /** The item whose first byte is data[p]. */
  function ItemAt(data: Text, p: nat, depth: nat): (r: Reply)
    requires p < |data|
    ensures r.Parsed? ==> p < r.next <= |data|
    decreases |data| - p, 0
  {
    if depth >= MAX_NESTING_DEPTH then Malformed
    else if IsDigit(data[p]) then NumberOrStringAt(data, p, DigitsEnd(data, p))
    else if IsAlpha(data[p]) then WordAt(data, p, WordEnd(data, p))
    else if data[p] == OPEN then ItemsAt(data, p + 1, depth, [])
    else Malformed
  }

  /** The rest of a list, after the given items. */
  function ItemsAt(data: Text, p: nat, depth: nat, items: seq<Item>): (r: Reply)
    requires p <= |data|
    ensures r.Parsed? ==> p < r.next <= |data|
    decreases |data| - p, 1
  {
    var q := SkipWhitespace(data, p);
    if q == |data| then Malformed
    else if data[q] == CLOSE then
      if q + 1 < |data| && IsWhitespace(data[q + 1]) then Parsed(List(items), q + 2) else Malformed
    else
      var r := ItemAt(data, q, depth + 1);
      if r.Parsed? then ItemsAt(data, r.next, depth, items + [r.item]) else Malformed
  }

  /** The next item from p on. */
  function NextItem(data: Text, p: nat): (r: Reply)
    requires p <= |data|
    ensures r.Parsed? ==> p < r.next <= |data|
  {
    var q := SkipWhitespace(data, p);
    if q == |data| then EndOfStream else ItemAt(data, q, 0)
  }

  // ----- every item read is one the encoder writes -----

  lemma {:induction false} LeafDepth(item: Item, depth: nat)
    requires Encodable(item, 0) && !item.List? && depth < MAX_NESTING_DEPTH
    ensures Encodable(item, depth)
  {
  }

  lemma {:induction false} ItemIsEncodable(data: Text, p: nat, depth: nat)
    requires p < |data|
    ensures ItemAt(data, p, depth).Parsed? ==> Encodable(ItemAt(data, p, depth).item, depth)
    decreases |data| - p, 0
  {
    var r := ItemAt(data, p, depth);
    if r.Parsed? {
      if !IsDigit(data[p]) && !IsAlpha(data[p]) {
        ItemsAreEncodable(data, p + 1, depth, []);
      } else {
        LeafDepth(r.item, depth);
      }
    }
  }

  lemma {:induction false} ItemsAreEncodable(data: Text, p: nat, depth: nat, items: seq<Item>)
    requires p <= |data| && depth < MAX_NESTING_DEPTH
    requires forall i :: 0 <= i < |items| ==> Encodable(items[i], depth + 1)
    ensures ItemsAt(data, p, depth, items).Parsed? ==> Encodable(ItemsAt(data, p, depth, items).item, depth)
    decreases |data| - p, 1
  {
    var q := SkipWhitespace(data, p);
    if q < |data| && data[q] != CLOSE {
      var r := ItemAt(data, q, depth + 1);
      if r.Parsed? {
        ItemIsEncodable(data, q, depth + 1);
        ItemsAreEncodable(data, r.next, depth, items + [r.item]);
      }
    }
  }

  /** Whatever the bytes are, an item the decoder returns is one the encoder accepts. */
  lemma {:induction false} DecodedIsEncodable(data: Text, p: nat)
    requires p <= |data| && NextItem(data, p).Parsed?
    ensures Encodable(NextItem(data, p).item, 0)
  {
    ItemIsEncodable(data, SkipWhitespace(data, p), 0);
  }
}
