/** Decoding inverts encoding, item by item and for whole streams (rasvn/marshal.go). */
module WireRoundTrip {
  import opened Common
  import opened Decimal
  import opened Bytes
  import opened Wire

  /** The encoding starts with a byte that neither is skipped nor ends a list. */
  predicate StartsItem(c: byte) {
    IsDigit(c) || IsAlpha(c) || c == OPEN
  }

  lemma {:induction false} DigitsRun(data: Text, p: nat, e: nat)
    requires p <= e < |data| && !IsDigit(data[e]) && forall i :: p <= i < e ==> IsDigit(data[i])
    ensures DigitsEnd(data, p) == e
    decreases e - p
  {
    if p < e { DigitsRun(data, p + 1, e); }
  }

  lemma {:induction false} WordRun(data: Text, p: nat, e: nat)
    requires p <= e < |data| && !IsWordByte(data[e]) && forall i :: p <= i < e ==> IsWordByte(data[i])
    ensures WordEnd(data, p) == e
    decreases e - p
  {
    if p < e { WordRun(data, p + 1, e); }
  }

  /** Digits with a byte behind them that is none. */
  lemma {:induction false} DigitsStand(digits: Text, c: byte, data: Text, p: nat)
    requires StandsAt(digits + [c], data, p) && AllDigits(digits) && digits != [] && !IsDigit(c)
    ensures IsDigit(data[p]) && DigitsEnd(data, p) == p + |digits|
    ensures p + |digits| < |data| && data[p + |digits|] == c && data[p..p + |digits|] == digits
  {
    var e := p + |digits|;
    StandsAtParts(digits, [c], data, p);
    SliceByte([c], data, e, 0);
    forall i | p <= i < e
      ensures IsDigit(data[i])
    {
      SliceByte(digits, data, p, i - p);
    }
    DigitsRun(data, p, e);
  }

  lemma {:induction false} NumberDecodes(n: uint64, data: Text, p: nat, depth: nat)
    requires depth < MAX_NESTING_DEPTH && StandsAt(Format(n) + [SPACE], data, p)
    ensures StartsItem(data[p]) && ItemAt(data, p, depth) == Parsed(Number(n), p + |Format(n)| + 1)
  {
    FormatRoundTrip(n);
    Uint64Digits(n);
    DigitsStand(Format(n), SPACE, data, p);
  }

  lemma {:induction false} StringBodyDecodes(body: Text, data: Text, p: nat)
    requires |body| <= MAX_STRING_LENGTH && StandsAt(body + [SPACE], data, p)
    ensures StringAt(data, p, |body|) == Parsed(Str(body), p + |body| + 1)
  {
    StandsAtParts(body, [SPACE], data, p);
    SliceByte([SPACE], data, p + |body|, 0);
  }

  lemma {:induction false} StringDecodes(body: Text, data: Text, p: nat, depth: nat)
    requires depth < MAX_NESTING_DEPTH && |body| <= MAX_STRING_LENGTH
    requires StandsAt(Format(|body|) + [COLON] + body + [SPACE], data, p)
    ensures StartsItem(data[p])
    ensures ItemAt(data, p, depth) == Parsed(Str(body), p + |Format(|body|) + [COLON] + body + [SPACE]|)
  {
    var digits := Format(|body|);
    FormatRoundTrip(|body|);
    Uint64Digits(|body|);
    StringStands(digits, body, data, p);
    DigitsStand(digits, COLON, data, p);
    StringBodyDecodes(body, data, p + |digits| + 1);
  }

  lemma {:induction false} StringStands(digits: Text, body: Text, data: Text, p: nat)
    requires StandsAt(digits + [COLON] + body + [SPACE], data, p)
    ensures StandsAt(digits + [COLON], data, p) && StandsAt(body + [SPACE], data, p + |digits| + 1)
  {
    assert digits + [COLON] + body + [SPACE] == (digits + [COLON]) + (body + [SPACE]);
    StandsAtParts(digits + [COLON], body + [SPACE], data, p);
  }

  lemma {:induction false} WordDecodes(word: Text, data: Text, p: nat, depth: nat)
    requires depth < MAX_NESTING_DEPTH && ValidWord(word) && StandsAt(word + [SPACE], data, p)
    ensures StartsItem(data[p])
    ensures ItemAt(data, p, depth) == Parsed(Word(word), p + |word| + 1)
  {
    var e := p + |word|;
    StandsAtParts(word, [SPACE], data, p);
    SliceByte([SPACE], data, e, 0);
    SliceByte(word, data, p, 0);
    forall i | p <= i < e
      ensures IsWordByte(data[i])
    {
      SliceByte(word, data, p, i - p);
    }
    WordRun(data, p, e);
  }

  /** Wherever the code stands, the decoder finds the item there and nothing more. */
  ghost predicate Codes(code: Text, item: Item, depth: nat) {
    forall data: Text, p: nat :: StandsAt(code, data, p) ==> Found(code, item, depth, data, p)
  }

  ghost predicate Found(code: Text, item: Item, depth: nat, data: Text, p: nat) {
    p < |data| && StartsItem(data[p]) && ItemAt(data, p, depth) == Parsed(item, p + |code|)
  }

  lemma {:induction false} ListEnds(data: Text, p: nat, depth: nat, items: seq<Item>)
    requires StandsAt([CLOSE, SPACE], data, p)
    ensures ItemsAt(data, p, depth, items) == Parsed(List(items), p + 2)
  {
    SliceByte([CLOSE, SPACE], data, p, 0);
    SliceByte([CLOSE, SPACE], data, p, 1);
  }

  lemma {:induction false} ListGoesOn(data: Text, p: nat, depth: nat, items: seq<Item>, item: Item, code: Text)
    requires Found(code, item, depth + 1, data, p)
    ensures p + |code| <= |data|
    ensures ItemsAt(data, p, depth, items) == ItemsAt(data, p + |code|, depth, items + [item])
  {
  }

  /** Where the codes start when the first of them starts at p. */
  function Offsets(codes: seq<Text>, p: nat): (at: seq<nat>)
    ensures |at| == |codes| + 1
  {
    seq(|codes| + 1, i requires 0 <= i <= |codes| => p + |Joined(codes, i)|)
  }

  /** Item k is found at its place, and the next place is behind it. */
  ghost predicate Placed(items: seq<Item>, codes: seq<Text>, at: seq<nat>, depth: nat, data: Text, k: nat) {
    && k < |items| == |codes| == |at| - 1
    && Found(codes[k], items[k], depth, data, at[k])
    && at[k + 1] == at[k] + |codes[k]|
  }

  ghost predicate AllPlaced(items: seq<Item>, codes: seq<Text>, at: seq<nat>, depth: nat, data: Text) {
    && |items| == |codes| == |at| - 1
    && forall k :: 0 <= k < |items| ==> Placed(items, codes, at, depth, data, k)
  }

  lemma {:induction false} PlacedByJoining(items: seq<Item>, codes: seq<Text>, depth: nat, data: Text, p: nat, k: nat)
    requires k < |items| == |codes| && Codes(codes[k], items[k], depth)
    requires StandsAt(Joined(codes, |codes|), data, p)
    ensures Placed(items, codes, Offsets(codes, p), depth, data, k)
  {
    var at := Offsets(codes, p);
    assert at[k] == p + |Joined(codes, k)| && at[k + 1] == p + |Joined(codes, k + 1)|;
    JoinedPart(codes, k, |codes|);
    StandsWithin(codes[k], Joined(codes, |codes|), data, p, |Joined(codes, k)|);
  }

  lemma {:induction false} JoinedIsPlaced(items: seq<Item>, codes: seq<Text>, depth: nat, data: Text, p: nat)
    requires |items| == |codes| && forall i :: 0 <= i < |items| ==> Codes(codes[i], items[i], depth)
    requires StandsAt(Joined(codes, |codes|), data, p)
    ensures AllPlaced(items, codes, Offsets(codes, p), depth, data)
  {
    forall k | 0 <= k < |items|
      ensures Placed(items, codes, Offsets(codes, p), depth, data, k)
    {
      PlacedByJoining(items, codes, depth, data, p, k);
    }
  }

  /** Items found one behind the other, and the end of the list. */
  lemma {:induction false} ListDecodes(items: seq<Item>, codes: seq<Text>, at: seq<nat>, k: nat, data: Text, depth: nat)
    requires AllPlaced(items, codes, at, depth + 1, data) && k <= |items|
    requires StandsAt([CLOSE, SPACE], data, at[|items|])
    ensures at[k] <= |data|
    ensures ItemsAt(data, at[k], depth, items[..k]) == Parsed(List(items), at[|items|] + 2)
    decreases |items| - k
  {
    if k == |items| {
      assert items[..k] == items;
      ListEnds(data, at[k], depth, items);
    } else {
      ListStep(items, codes, at, k, data, depth);
      ListDecodes(items, codes, at, k + 1, data, depth);
    }
  }

  lemma {:induction false} ListStep(items: seq<Item>, codes: seq<Text>, at: seq<nat>, k: nat, data: Text, depth: nat)
    requires AllPlaced(items, codes, at, depth + 1, data) && k < |items|
    ensures at[k] <= |data| && at[k + 1] <= |data|
    ensures ItemsAt(data, at[k], depth, items[..k]) == ItemsAt(data, at[k + 1], depth, items[..k + 1])
  {
    assert Placed(items, codes, at, depth + 1, data, k);
    ListGoesOn(data, at[k], depth, items[..k], items[k], codes[k]);
    assert items[..k + 1] == items[..k] + [items[k]];
  }

  function Encodings(items: seq<Item>): (codes: seq<Text>)
    ensures |codes| == |items|
  {
    seq(|items|, i requires 0 <= i < |items| => Encoded(items[i]))
  }

  lemma {:induction false} ItemsAreJoined(list: Item, n: nat)
    requires list.List? && n <= |list.items|
    ensures EncodedItems(list, n) == Joined(Encodings(list.items), n)
  {
    if n > 0 {
      ItemsAreJoined(list, n - 1);
    }
  }

  lemma {:induction false} WholeListFound(items: seq<Item>, codes: seq<Text>, depth: nat, data: Text, p: nat)
    requires depth < MAX_NESTING_DEPTH
    requires |items| == |codes| && forall i :: 0 <= i < |items| ==> Codes(codes[i], items[i], depth + 1)
    requires StandsAt([OPEN, SPACE], data, p) && StandsAt(Joined(codes, |codes|), data, p + 2)
    requires StandsAt([CLOSE, SPACE], data, p + 2 + |Joined(codes, |codes|)|)
    ensures p < |data| && data[p] == OPEN
    ensures ItemAt(data, p, depth) == Parsed(List(items), p + |Joined(codes, |codes|)| + 4)
  {
    SliceByte([OPEN, SPACE], data, p, 0);
    SliceByte([OPEN, SPACE], data, p, 1);
    var at := Offsets(codes, p + 2);
    assert at[0] == p + 2 && at[|items|] == p + 2 + |Joined(codes, |codes|)|;
    JoinedIsPlaced(items, codes, depth + 1, data, p + 2);
    ListDecodes(items, codes, at, 0, data, depth);
    SkipOne(data, p + 1, depth);
    assert items[..0] == [];
  }

  lemma {:induction false} WholeListDecodes(items: seq<Item>, codes: seq<Text>, depth: nat)
    requires depth < MAX_NESTING_DEPTH
    requires |items| == |codes| && forall i :: 0 <= i < |items| ==> Codes(codes[i], items[i], depth + 1)
    ensures Codes([OPEN, SPACE] + Joined(codes, |codes|) + [CLOSE, SPACE], List(items), depth)
  {
    var body := Joined(codes, |codes|);
    var code := [OPEN, SPACE] + body + [CLOSE, SPACE];
    forall data: Text, p: nat | StandsAt(code, data, p)
      ensures Found(code, List(items), depth, data, p)
    {
      StandsAtParts([OPEN, SPACE] + body, [CLOSE, SPACE], data, p);
      StandsAtParts([OPEN, SPACE], body, data, p);
      WholeListFound(items, codes, depth, data, p);
    }
  }

  /** A space in front of what is left of a list changes nothing. */
  lemma {:induction false} SkipOne(data: Text, p: nat, depth: nat)
    requires p < |data| && IsWhitespace(data[p])
    ensures ItemsAt(data, p, depth, []) == ItemsAt(data, p + 1, depth, [])
  {
  }

  /** Every item the encoder accepts is what the decoder finds in its encoding. */
  lemma {:induction false} EncodedCodes(item: Item, depth: nat)
    requires Encodable(item, depth)
    ensures Codes(Encoded(item), item, depth)
    decreases item
  {
    match item {
      case List(items) =>
        forall i | 0 <= i < |items|
          ensures Codes(Encodings(items)[i], items[i], depth + 1)
        {
          EncodedCodes(items[i], depth + 1);
        }
        ItemsAreJoined(item, |items|);
        WholeListDecodes(items, Encodings(items), depth);
      case Number(_) => LeafCodes(item, depth);
      case Word(_) => LeafCodes(item, depth);
      case Str(_) => LeafCodes(item, depth);
    }
  }

  lemma {:induction false} LeafCodes(item: Item, depth: nat)
    requires Encodable(item, depth) && !item.List?
    ensures Codes(Encoded(item), item, depth)
  {
    forall data: Text, p: nat | StandsAt(Encoded(item), data, p)
      ensures Found(Encoded(item), item, depth, data, p)
    {
      match item {
        case Number(n) => NumberDecodes(n, data, p, depth);
        case Word(word) => WordDecodes(word, data, p, depth);
        case Str(body) => StringDecodes(body, data, p, depth);
      }
    }
  }

  /** Decoding the encoding of any item the encoder accepts returns the item and stops exactly
      behind it, whatever follows. */
  lemma {:induction false} RoundTrip(item: Item, rest: Text)
    requires Encodable(item, 0)
    ensures NextItem(Encoded(item) + rest, 0) == Parsed(item, |Encoded(item)|)
  {
    var code := Encoded(item);
    EncodedCodes(item, 0);
    assert (code + rest)[0..0 + |code|] == code;
    FoundNext(code, item, code + rest, 0);
  }

  lemma {:induction false} FoundNext(code: Text, item: Item, data: Text, p: nat)
    requires Codes(code, item, 0) && StandsAt(code, data, p)
    ensures NextItem(data, p) == Parsed(item, p + |code|)
  {
    assert Found(code, item, 0, data, p);
  }

  /** The code is self-delimiting: two items with anything behind them give the same bytes only
      if they are the same item with the same bytes behind it. */
  lemma {:induction false} SelfDelimiting(a: Item, b: Item, restA: Text, restB: Text)
    requires Encodable(a, 0) && Encodable(b, 0) && Encoded(a) + restA == Encoded(b) + restB
    ensures a == b && restA == restB
  {
    RoundTrip(a, restA);
    RoundTrip(b, restB);
    var data := Encoded(a) + restA;
    assert restA == data[|Encoded(a)|..] && restB == data[|Encoded(a)|..];
  }

  /** What the decoder makes of any bytes is a fixed point: encoding and decoding it again
      changes nothing. */
  lemma {:induction false} Stable(data: Text, p: nat, rest: Text)
    requires p <= |data| && NextItem(data, p).Parsed?
    ensures var item := NextItem(data, p).item;
            Encodable(item, 0) && NextItem(Encoded(item) + rest, 0) == Parsed(item, |Encoded(item)|)
  {
    DecodedIsEncodable(data, p);
    RoundTrip(NextItem(data, p).item, rest);
  }

  // ----- streams of items -----

  /** The items one behind the other. */
  function EncodedAll(items: seq<Item>): Text {
    Joined(Encodings(items), |items|)
  }

  /** The given items and those read from p on, to the end of the stream or the first error. */
  function DecodedFrom(data: Text, p: nat, items: seq<Item>): seq<Item>
    requires p <= |data|
    decreases |data| - p
  {
    var r := NextItem(data, p);
    if r.Parsed? then DecodedFrom(data, r.next, items + [r.item]) else items
  }

  function DecodedAll(data: Text): seq<Item> {
    DecodedFrom(data, 0, [])
  }

  lemma {:induction false} StreamGoesOn(data: Text, p: nat, items: seq<Item>, item: Item, code: Text)
    requires Found(code, item, 0, data, p)
    ensures p + |code| <= |data|
    ensures DecodedFrom(data, p, items) == DecodedFrom(data, p + |code|, items + [item])
  {
  }

  lemma {:induction false} StreamFrom(items: seq<Item>, codes: seq<Text>, at: seq<nat>, k: nat, data: Text)
    requires AllPlaced(items, codes, at, 0, data) && k <= |items| && at[|items|] == |data|
    ensures at[k] <= |data| && DecodedFrom(data, at[k], items[..k]) == items
    decreases |items| - k
  {
    if k < |items| {
      StreamStep(items, codes, at, k, data);
      StreamFrom(items, codes, at, k + 1, data);
    } else {
      assert items[..k] == items;
    }
  }

  lemma {:induction false} StreamStep(items: seq<Item>, codes: seq<Text>, at: seq<nat>, k: nat, data: Text)
    requires AllPlaced(items, codes, at, 0, data) && k < |items|
    ensures at[k] <= |data| && at[k + 1] <= |data|
    ensures DecodedFrom(data, at[k], items[..k]) == DecodedFrom(data, at[k + 1], items[..k + 1])
  {
    assert Placed(items, codes, at, 0, data, k);
    StreamGoesOn(data, at[k], items[..k], items[k], codes[k]);
    assert items[..k + 1] == items[..k] + [items[k]];
  }

  lemma {:induction false} CodesDecode(items: seq<Item>, codes: seq<Text>)
    requires |items| == |codes| && forall i :: 0 <= i < |items| ==> Codes(codes[i], items[i], 0)
    ensures DecodedAll(Joined(codes, |codes|)) == items
  {
    var data := Joined(codes, |codes|);
    var at := Offsets(codes, 0);
    assert data[0..0 + |data|] == data;
    assert at[0] == 0 && at[|items|] == |data|;
    JoinedIsPlaced(items, codes, 0, data, 0);
    StreamFrom(items, codes, at, 0, data);
    assert items[..0] == [];
  }

  /** Reading a stream that was written item by item yields those items, no more and no fewer. */
  lemma {:induction false} StreamRoundTrip(items: seq<Item>)
    requires forall i :: 0 <= i < |items| ==> Encodable(items[i], 0)
    ensures DecodedAll(EncodedAll(items)) == items
  {
    var codes := Encodings(items);
    forall i | 0 <= i < |items|
      ensures Codes(codes[i], items[i], 0)
    {
      EncodedCodes(items[i], 0);
    }
    CodesDecode(items, codes);
  }
}
