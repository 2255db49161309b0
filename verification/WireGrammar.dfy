/** The item grammar of section 1 of the libsvn_ra_svn protocol document as a relation between
    bytes and items, and that the decoder accepts exactly this grammar (rasvn/marshal.go). */
module WireGrammar {
  import opened Common
  import opened Decimal
  import opened Wire

  ghost predicate BlankAt(data: Text, i: int) {
    0 <= i < |data| && (data[i] == 32 || data[i] == 10)
  }

  /** Nothing but spaces and line feeds from p to q. */
  ghost predicate Blank(data: Text, p: nat, q: nat) {
    p <= q <= |data| && forall i :: p <= i < q ==> BlankAt(data, i)
  }

  /** From p to e stand between one and twenty digits, of this value. */
  ghost predicate DigitsAre(data: Text, p: nat, e: nat, n: nat) {
    && p < e <= |data| && e - p <= 20
    && (forall i :: p <= i < e ==> 48 <= data[i] <= 57)
    && Value(data[p..e], e - p) == n
  }

  /** From p to e stands a string of this length: digits, a colon, the bytes and a blank. */
  ghost predicate StringFrom(data: Text, p: nat, e: nat, bytes: Text, c: nat) {
    && DigitsAre(data, p, c, |bytes|)
    && c + |bytes| + 2 == e <= |data|
    && data[c] == 58 && data[c + 1..c + 1 + |bytes|] == bytes && BlankAt(data, e - 1)
  }

  ghost predicate IsLetter(c: byte) {
    'a' as int <= c <= 'z' as int || 'A' as int <= c <= 'Z' as int
  }

  /** A letter, and up to thirty letters, digits and dashes. */
  ghost predicate IsName(word: Text) {
    && 1 <= |word| <= 31 && IsLetter(word[0])
    && forall i :: 0 <= i < |word| ==> IsLetter(word[i]) || 48 <= word[i] <= 57 || word[i] == '-' as int
  }

  /** From p to e stands the item, with the blank that ends it. */
  ghost predicate Spelled(data: Text, p: nat, e: nat, item: Item, depth: nat)
    decreases item, 2
  {
    && p < e <= |data| && depth < 64
    && match item
       case Number(n) => DigitsAre(data, p, e - 1, n) && BlankAt(data, e - 1)
       case Word(word) => IsName(word) && p + |word| + 1 == e && data[p..e - 1] == word && BlankAt(data, e - 1)
       case Str(bytes) => |bytes| <= 67108864 && exists c: nat :: StringFrom(data, p, e, bytes, c)
       case List(items) => data[p] == 40 && RestSpelled(data, p + 1, e, item, 0, depth)
  }

  /** From p to e stand the items of the list from the nth on, and its end. */
  ghost predicate RestSpelled(data: Text, p: nat, e: nat, list: Item, n: nat, depth: nat)
    requires list.List? && n <= |list.items|
    decreases list, 1, |list.items| - n, 2
  {
    exists q: nat :: Blank(data, p, q) && RestBehind(data, q, e, list, n, depth)
  }

  ghost predicate RestBehind(data: Text, q: nat, e: nat, list: Item, n: nat, depth: nat)
    requires list.List? && n <= |list.items|
    decreases list, 1, |list.items| - n, 1
  {
    if n == |list.items| then EndsAt(data, q, e) else exists m: nat :: NextSpelled(data, q, m, e, list, n, depth)
  }

  ghost predicate NextSpelled(data: Text, q: nat, m: nat, e: nat, list: Item, n: nat, depth: nat)
    requires list.List? && n < |list.items|
    decreases list, 1, |list.items| - n, 0
  {
    Spelled(data, q, m, list.items[n], depth + 1) && RestSpelled(data, m, e, list, n + 1, depth)
  }

  ghost predicate EndsAt(data: Text, q: nat, e: nat) {
    q + 2 == e <= |data| && data[q] == 41 && BlankAt(data, q + 1)
  }

  /** Where the blanks in front of an item end. */
  lemma {:induction false} SkippedTo(data: Text, p: nat, q: nat)
    requires Blank(data, p, q) && (q == |data| || !IsWhitespace(data[q]))
    ensures SkipWhitespace(data, p) == q
    decreases q - p
  {
    if p < q {
      assert BlankAt(data, p);
      SkippedTo(data, p + 1, q);
    }
  }

  lemma {:induction false} SkippedIsBlank(data: Text, p: nat)
    requires p <= |data|
    ensures Blank(data, p, SkipWhitespace(data, p))
    decreases |data| - p
  {
    if p < |data| && IsWhitespace(data[p]) {
      SkippedIsBlank(data, p + 1);
    }
  }

  lemma {:induction false} DigitsEndAt(data: Text, p: nat, e: nat)
    requires p <= e < |data| && !IsDigit(data[e]) && forall i :: p <= i < e ==> IsDigit(data[i])
    ensures DigitsEnd(data, p) == e
    decreases e - p
  {
    if p < e { DigitsEndAt(data, p + 1, e); }
  }

  lemma {:induction false} WordEndAt(data: Text, p: nat, e: nat)
    requires p <= e < |data| && !IsWordByte(data[e]) && forall i :: p <= i < e ==> IsWordByte(data[i])
    ensures WordEnd(data, p) == e
    decreases e - p
  {
    if p < e { WordEndAt(data, p + 1, e); }
  }

  // ----- what is spelled is read -----

  lemma {:induction false} DigitsRead(data: Text, p: nat, c: nat, n: nat)
    requires DigitsAre(data, p, c, n) && c < |data| && !IsDigit(data[c]) && n < TWO_TO_THE_64
    ensures IsDigit(data[p]) && DigitsEnd(data, p) == c
    ensures NumberOrStringAt(data, p, c) ==
            if data[c] == COLON then StringAt(data, c + 1, n)
            else if IsWhitespace(data[c]) then Parsed(Number(n), c + 1) else Malformed
  {
    DigitsEndAt(data, p, c);
  }

  lemma {:induction false} WordRead(data: Text, p: nat, e: nat, word: Text)
    requires ValidWord(word) && p < e == p + |word| <= |data| - 1 && data[p..e] == word && BlankAt(data, e)
    ensures IsAlpha(data[p]) && WordEnd(data, p) == e && WordAt(data, p, e) == Parsed(Word(word), e + 1)
  {
    assert forall i :: p <= i < e ==> data[i] == data[p..e][i - p];
    WordEndAt(data, p, e);
  }

  lemma {:induction false} StringRead(data: Text, p: nat, e: nat, bytes: Text, c: nat)
    requires StringFrom(data, p, e, bytes, c) && |bytes| <= 67108864
    ensures IsDigit(data[p]) && DigitsEnd(data, p) == c && NumberOrStringAt(data, p, c) == Parsed(Str(bytes), e)
  {
    DigitsRead(data, p, c, |bytes|);
  }

  lemma {:induction false} SpelledLeaf(data: Text, p: nat, e: nat, item: Item, depth: nat)
    requires Spelled(data, p, e, item, depth) && !item.List?
    ensures p < |data| && (IsDigit(data[p]) || IsAlpha(data[p]))
    ensures ItemAt(data, p, depth) == Parsed(item, e)
  {
    match item
    case Number(n) => DigitsRead(data, p, e - 1, n);
    case Word(word) => WordRead(data, p, e - 1, word);
    case Str(bytes) =>
      var c: nat :| StringFrom(data, p, e, bytes, c);
      StringRead(data, p, e, bytes, c);
  }

  lemma {:induction false} SpelledIsRead(data: Text, p: nat, e: nat, item: Item, depth: nat)
    requires Spelled(data, p, e, item, depth)
    ensures p < |data| && data[p] != CLOSE && !IsWhitespace(data[p])
    ensures ItemAt(data, p, depth) == Parsed(item, e)
    decreases item, 2
  {
    if item.List? {
      RestIsRead(data, p + 1, e, item, 0, depth);
    } else {
      SpelledLeaf(data, p, e, item, depth);
    }
  }

  /** An item behind blanks is read as the next of the list, and so is the list's end. */
  lemma {:induction false} ItemsStep(data: Text, p: nat, q: nat, depth: nat, items: seq<Item>)
    requires Blank(data, p, q) && q < |data| && !IsWhitespace(data[q])
    ensures data[q] == CLOSE && q + 1 < |data| && IsWhitespace(data[q + 1]) ==> ItemsAt(data, p, depth, items) == Parsed(List(items), q + 2)
    ensures data[q] != CLOSE && ItemAt(data, q, depth + 1).Parsed? ==>
              var r := ItemAt(data, q, depth + 1);
              ItemsAt(data, p, depth, items) == ItemsAt(data, r.next, depth, items + [r.item])
  {
    SkippedTo(data, p, q);
  }

  lemma {:induction false} NextOf(data: Text, q: nat, e: nat, list: Item, n: nat, depth: nat) returns (m: nat)
    requires list.List? && n < |list.items| && RestBehind(data, q, e, list, n, depth)
    ensures NextSpelled(data, q, m, e, list, n, depth)
  {
    m :| NextSpelled(data, q, m, e, list, n, depth);
  }

  lemma {:induction false} RestIsRead(data: Text, p: nat, e: nat, list: Item, n: nat, depth: nat)
    requires list.List? && n <= |list.items| && RestSpelled(data, p, e, list, n, depth)
    ensures p <= |data| && ItemsAt(data, p, depth, list.items[..n]) == Parsed(list, e)
    decreases list, 1, |list.items| - n
  {
    var q: nat :| Blank(data, p, q) && RestBehind(data, q, e, list, n, depth);
    if n == |list.items| {
      assert list.items[..n] == list.items;
      ItemsStep(data, p, q, depth, list.items);
    } else {
      var m := NextOf(data, q, e, list, n, depth);
      SpelledIsRead(data, q, m, list.items[n], depth + 1);
      ItemsStep(data, p, q, depth, list.items[..n]);
      assert list.items[..n + 1] == list.items[..n] + [list.items[n]];
      RestIsRead(data, m, e, list, n + 1, depth);
    }
  }

  // ----- what is read is spelled -----

  lemma {:induction false} ReadLeaf(data: Text, p: nat, depth: nat)
    requires p < |data| && ItemAt(data, p, depth).Parsed? && (IsDigit(data[p]) || IsAlpha(data[p]))
    ensures var r := ItemAt(data, p, depth); Spelled(data, p, r.next, r.item, depth)
  {
    var r := ItemAt(data, p, depth);
    if r.item.Str? {
      assert StringFrom(data, p, r.next, r.item.data, DigitsEnd(data, p));
    }
  }

  lemma {:induction false} ReadIsSpelled(data: Text, p: nat, depth: nat)
    requires p < |data| && ItemAt(data, p, depth).Parsed?
    ensures var r := ItemAt(data, p, depth); Spelled(data, p, r.next, r.item, depth)
    decreases |data| - p, 0
  {
    if IsDigit(data[p]) || IsAlpha(data[p]) {
      ReadLeaf(data, p, depth);
    } else {
      RestReadIsSpelled(data, p + 1, depth, []);
    }
  }

  lemma {:induction false} RestReadIsSpelled(data: Text, p: nat, depth: nat, items: seq<Item>)
    requires p <= |data| && depth < 64 && ItemsAt(data, p, depth, items).Parsed?
    ensures var r := ItemsAt(data, p, depth, items);
            r.item.List? && items <= r.item.items && RestSpelled(data, p, r.next, r.item, |items|, depth)
    decreases |data| - p, 1
  {
    var q, r := SkipWhitespace(data, p), ItemsAt(data, p, depth, items);
    SkippedIsBlank(data, p);
    if data[q] == CLOSE {
      assert RestBehind(data, q, r.next, r.item, |items|, depth);
    } else {
      var one := ItemAt(data, q, depth + 1);
      ReadIsSpelled(data, q, depth + 1);
      RestReadIsSpelled(data, one.next, depth, items + [one.item]);
      assert r.item.items[|items|] == (items + [one.item])[|items|];
      assert NextSpelled(data, q, one.next, r.next, r.item, |items|, depth);
      assert RestBehind(data, q, r.next, r.item, |items|, depth);
    }
  }

  // ----- the decoder -----

  /** The decoder accepts exactly the grammar: an item is returned, and reading stops at e, exactly
      when the bytes up to e spell it, behind any blanks. The stream has ended exactly when only
      blanks are left. Everything else is malformed. */
  lemma {:induction false} DecodesGrammar(data: Text, p: nat)
    requires p <= |data|
    ensures forall item, e :: NextItem(data, p) == Parsed(item, e) <==>
                              exists q: nat :: Blank(data, p, q) && Spelled(data, q, e, item, 0)
    ensures NextItem(data, p) == EndOfStream <==> Blank(data, p, |data|)
  {
    var first := SkipWhitespace(data, p);
    SkippedIsBlank(data, p);
    if NextItem(data, p).Parsed? {
      ReadIsSpelled(data, first, 0);
    }
    forall item, e, q: nat | Blank(data, p, q) && Spelled(data, q, e, item, 0)
      ensures NextItem(data, p) == Parsed(item, e)
    {
      SpelledIsRead(data, q, e, item, 0);
      SkippedTo(data, p, q);
    }
    if Blank(data, p, |data|) {
      SkippedTo(data, p, |data|);
    }
    assert NextItem(data, p) == EndOfStream ==> first == |data| by { NeverEnds(data, p); }
  }

  /** An item is never the end of the stream. */
  lemma {:induction false} NeverEnds(data: Text, p: nat)
    requires p <= |data|
    ensures NextItem(data, p) == EndOfStream ==> SkipWhitespace(data, p) == |data|
  {
    if SkipWhitespace(data, p) < |data| {
      ItemDoesNotEnd(data, SkipWhitespace(data, p), 0);
    }
  }

  lemma {:induction false} ItemDoesNotEnd(data: Text, p: nat, depth: nat)
    requires p < |data|
    ensures ItemAt(data, p, depth) != EndOfStream
    decreases |data| - p, 0
  {
    if data[p] == OPEN { ItemsDoNotEnd(data, p + 1, depth, []); }
  }

  lemma {:induction false} ItemsDoNotEnd(data: Text, p: nat, depth: nat, items: seq<Item>)
    requires p <= |data|
    ensures ItemsAt(data, p, depth, items) != EndOfStream
    decreases |data| - p, 1
  {
    var q := SkipWhitespace(data, p);
    if q < |data| && data[q] != CLOSE {
      var r := ItemAt(data, q, depth + 1);
      if r.Parsed? { ItemsDoNotEnd(data, r.next, depth, items + [r.item]); }
    }
  }
}
