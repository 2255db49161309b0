/** Exactly which texts are read as range lists and as mergeinfo, and what they then say
    (mergeinfo/mergeinfo.go), with every literal byte written out. */
module MergeinfoGrammar {
  import opened Common
  import opened Decimal
  import opened Strings
  import opened Rangelists
  import opened Mergeinfo
  import opened MergeinfoLaws
  import opened RangelistText
  import opened MergeinfoText
  import opened Paths

  // ----- revisions -----

  ghost predicate DigitsOf(s: Text, n: int) {
    && s != [] && (forall i :: 0 <= i < |s| ==> '0' as int <= s[i] <= '9' as int)
    && Value(s, |s|) == n
  }

  /** A positive number of 64 bits, which may have a plus in front. */
  ghost predicate RevisionIs(s: Text, n: Revnum) {
    0 < n < 0x8000_0000_0000_0000 && (DigitsOf(s, n) || (s != [] && s[0] == '+' as int && DigitsOf(s[1..], n)))
  }

  lemma {:induction false} RevisionExactly(s: Text, n: Revnum)
    ensures ParsePositive(s) == Some(n) <==> RevisionIs(s, n)
    ensures RevisionIs(s, n) ==> Without(s, MINUS) && Without(s, COMMA) && Without(s, STAR)
    ensures RevisionIs(s, n) ==> s != [] && forall i :: 0 <= i < |s| ==> !IsSpace(s[i])
  {
    if RevisionIs(s, n) {
      assert forall i :: 0 <= i < |s| ==> IsDigit(s[i]) || s[i] == PLUS by {
        assert s[0] == PLUS ==> forall i :: 1 <= i < |s| ==> s[i] == s[1..][i - 1];
      }
    }
  }

  // ----- fields -----

  /** Two revisions around a dash, the second larger than the first. */
  ghost predicate PairAt(s: Text, k: int, item: Range) {
    && 0 <= k < |s| && s[k] == '-' as int && item.start + 1 < item.end
    && RevisionIs(s[..k], item.start + 1) && RevisionIs(s[k + 1..], item.end)
  }

  ghost predicate NumbersAre(s: Text, item: Range) {
    || (RevisionIs(s, item.end) && item.start == item.end - 1)
    || exists k :: PairAt(s, k, item)
  }

  lemma {:induction false} NumbersExactly(s: Text, inheritable: bool, item: Range)
    ensures ParseNumbers(s, inheritable) == Ok(item) <==> item.inheritable == inheritable && NumbersAre(s, item)
    ensures NumbersAre(s, item) ==> s != [] && Without(s, COMMA) && Without(s, STAR)
    ensures NumbersAre(s, item) ==> forall i :: 0 <= i < |s| ==> !IsSpace(s[i])
  {
    var cut := IndexFrom(s, MINUS, 0);
    if item.inheritable == inheritable && RevisionIs(s, item.end) && item.start == item.end - 1 {
      OneExactly(s, item);
    } else if exists k :: PairAt(s, k, item) {
      var k :| PairAt(s, k, item);
      PairExactly(s, k, item);
    }
    RevisionExactly(s, item.end);
    if ParseNumbers(s, inheritable) == Ok(item) {
      OkExactly(s, inheritable, item);
    }
  }

  lemma {:induction false} OneExactly(s: Text, item: Range)
    requires RevisionIs(s, item.end) && item.start == item.end - 1
    ensures ParseNumbers(s, item.inheritable) == Ok(item)
  {
    RevisionExactly(s, item.end);
    IndexFound(s, MINUS, 0, |s|);
    assert s[..|s|] == s;
  }

  lemma {:induction false} PairExactly(s: Text, k: nat, item: Range)
    requires PairAt(s, k, item)
    ensures ParseNumbers(s, item.inheritable) == Ok(item)
    ensures s != [] && Without(s, COMMA) && Without(s, STAR) && forall i :: 0 <= i < |s| ==> !IsSpace(s[i])
  {
    RevisionExactly(s[..k], item.start + 1);
    RevisionExactly(s[k + 1..], item.end);
    DashCut(s, k);
    PairReads(s, k, item);
  }

  lemma {:induction false} DashCut(s: Text, k: nat)
    requires k < |s| && s[k] == MINUS && Without(s[..k], MINUS)
    ensures IndexFrom(s, MINUS, 0) == k
    ensures forall i :: 0 <= i < |s| ==> s[i] == if i < k then s[..k][i] else if i == k then MINUS else s[k + 1..][i - k - 1]
  {
    assert forall i :: 0 <= i < k ==> s[i] == s[..k][i];
    IndexFound(s, MINUS, 0, k);
  }

  lemma {:induction false} PairReads(s: Text, k: nat, item: Range)
    requires k < |s| && IndexFrom(s, MINUS, 0) == k && item.start + 1 < item.end
    requires ParsePositive(s[..k]) == Some(item.start + 1) && ParsePositive(s[k + 1..]) == Some(item.end)
    ensures ParseNumbers(s, item.inheritable) == Ok(item)
  {
  }

  lemma {:induction false} OkExactly(s: Text, inheritable: bool, item: Range)
    requires ParseNumbers(s, inheritable) == Ok(item)
    ensures item.inheritable == inheritable && NumbersAre(s, item)
  {
    var cut := IndexFrom(s, MINUS, 0);
    RevisionExactly(s[..cut], item.start + 1);
    if cut == |s| {
      assert s[..cut] == s;
      RevisionExactly(s, item.end);
    } else {
      RevisionExactly(s[cut + 1..], item.end);
      CutIsDash(s, 0);
      assert PairAt(s, cut, item);
    }
  }

  lemma {:induction false} CutIsDash(s: Text, i: nat)
    requires i <= |s|
    ensures IndexFrom(s, MINUS, i) < |s| ==> s[IndexFrom(s, MINUS, i)] == MINUS
    decreases |s| - i
  {
    if i < |s| && s[i] != MINUS { CutIsDash(s, i + 1); }
  }

  ghost predicate IsBlank(c: byte) {
    9 <= c <= 13 || c == 32
  }

  /** The body with nothing but blanks around it. */
  ghost predicate PaddedAt(s: Text, body: Text, lo: nat) {
    && lo + |body| <= |s| && s[lo..lo + |body|] == body
    && forall i :: 0 <= i < |s| && (i < lo || lo + |body| <= i) ==> IsBlank(s[i])
  }

  lemma {:induction false} SkippedBlanks(s: Text, i: nat, lo: nat)
    requires i <= lo <= |s| && (forall j :: i <= j < lo ==> IsBlank(s[j])) && (lo == |s| || !IsBlank(s[lo]))
    ensures SkipSpaces(s, i) == lo
    decreases lo - i
  {
    if i < lo { SkippedBlanks(s, i + 1, lo); }
  }

  lemma {:induction false} DroppedBlanks(s: Text, lo: nat, hi: nat, n: nat)
    requires lo <= hi <= n <= |s| && (forall j :: hi <= j < n ==> IsBlank(s[j])) && (lo == hi || !IsBlank(s[hi - 1]))
    ensures DropSpaces(s, lo, n) == hi
  {
    if hi < n { DroppedBlanks(s, lo, hi, n - 1); }
  }

  lemma {:induction false} SkipIsBlank(s: Text, i: nat)
    requires i <= |s|
    ensures forall j :: i <= j < SkipSpaces(s, i) ==> IsBlank(s[j])
    ensures SkipSpaces(s, i) < |s| ==> !IsBlank(s[SkipSpaces(s, i)])
    decreases |s| - i
  {
    if i < |s| && IsSpace(s[i]) { SkipIsBlank(s, i + 1); }
  }

  lemma {:induction false} DropIsBlank(s: Text, lo: nat, n: nat)
    requires lo <= n <= |s|
    ensures forall j :: DropSpaces(s, lo, n) <= j < n ==> IsBlank(s[j])
  {
    if lo < n && IsSpace(s[n - 1]) { DropIsBlank(s, lo, n - 1); }
  }

  /** What TrimSpace leaves is the body in the blanks, and it is the only one that neither begins nor
      ends with a blank. */
  lemma {:induction false} TrimExactly(s: Text)
    ensures PaddedAt(s, TrimSpace(s), SkipSpaces(s, 0))
    ensures forall body, lo :: PaddedAt(s, body, lo) && body != [] && !IsBlank(body[0]) && !IsBlank(body[|body| - 1]) ==>
                               TrimSpace(s) == body
  {
    SkipIsBlank(s, 0);
    DropIsBlank(s, SkipSpaces(s, 0), |s|);
    forall body, lo: nat | PaddedAt(s, body, lo) && body != [] && !IsBlank(body[0]) && !IsBlank(body[|body| - 1])
      ensures TrimSpace(s) == body
    {
      assert s[lo] == body[0] && s[lo + |body| - 1] == body[|body| - 1];
      SkippedBlanks(s, 0, lo);
      DroppedBlanks(s, lo, lo + |body|, |s|);
    }
  }

  /** One revision or two, a star behind them if they are not inheritable, and blanks around it. */
  ghost predicate FieldIs(s: Text, item: Range) {
    exists numbers, lo :: FieldFrom(s, item, numbers, lo)
  }

  ghost predicate FieldFrom(s: Text, item: Range, numbers: Text, lo: nat) {
    NumbersAre(numbers, item) && PaddedAt(s, Marked(numbers, item.inheritable), lo)
  }

  function Marked(numbers: Text, inheritable: bool): Text {
    if inheritable then numbers else numbers + ['*' as int]
  }

  /** A field is read as a range exactly when it is one. */
  lemma {:induction false} FieldExactly(s: Text, item: Range)
    ensures ParseField(s) == Ok(item) <==> FieldIs(s, item)
    ensures FieldIs(s, item) ==> Without(s, COMMA)
  {
    if FieldIs(s, item) {
      var numbers, lo :| FieldFrom(s, item, numbers, lo);
      FieldReads(s, item, numbers, lo);
    }
    if ParseField(s) == Ok(item) {
      FieldFound(s, item);
    }
  }

  lemma {:induction false} FieldFound(s: Text, item: Range)
    requires ParseField(s) == Ok(item)
    ensures FieldIs(s, item)
  {
    var numbers := FieldIsMarked(TrimSpace(s), item);
    TrimPadded(s);
    assert FieldFrom(s, item, numbers, SkipSpaces(s, 0));
  }

  lemma {:induction false} TrimPadded(s: Text)
    ensures PaddedAt(s, TrimSpace(s), SkipSpaces(s, 0))
  {
    TrimExactly(s);
  }

  lemma {:induction false} FieldIsMarked(field: Text, item: Range) returns (numbers: Text)
    requires (if field != [] && field[|field| - 1] == STAR then ParseNumbers(field[..|field| - 1], false)
              else ParseNumbers(field, true)) == Ok(item)
    ensures NumbersAre(numbers, item) && field == Marked(numbers, item.inheritable)
  {
    if field != [] && field[|field| - 1] == STAR {
      numbers := field[..|field| - 1];
      assert field == Marked(numbers, false);
      OkMarked(field, numbers, false, item);
    } else {
      numbers := field;
      OkMarked(field, numbers, true, item);
    }
  }

  lemma {:induction false} OkMarked(field: Text, numbers: Text, inheritable: bool, item: Range)
    requires ParseNumbers(numbers, inheritable) == Ok(item) && field == Marked(numbers, inheritable)
    ensures NumbersAre(numbers, item) && field == Marked(numbers, item.inheritable)
  {
    OkExactly(numbers, inheritable, item);
  }

  /** What is neither blank nor a comma in the middle of blanks. */
  lemma {:induction false} BodyFound(s: Text, body: Text, lo: nat)
    requires PaddedAt(s, body, lo) && body != [] && forall i :: 0 <= i < |body| ==> body[i] != COMMA && !IsSpace(body[i])
    ensures TrimSpace(s) == body && Without(s, COMMA)
  {
    TrimExactly(s);
    assert forall i :: lo <= i < lo + |body| ==> s[i] == s[lo..lo + |body|][i - lo];
  }

  lemma {:induction false} MarkedReads(numbers: Text, item: Range, body: Text)
    requires NumbersAre(numbers, item) && body == Marked(numbers, item.inheritable)
    ensures body != [] && forall i :: 0 <= i < |body| ==> body[i] != COMMA && !IsSpace(body[i])
    ensures ParseNumbers(numbers, item.inheritable) == Ok(item)
    ensures if item.inheritable then body[|body| - 1] != STAR && body == numbers
            else body[|body| - 1] == STAR && body[..|body| - 1] == numbers
  {
    NumbersExactly(numbers, item.inheritable, item);
  }

  lemma {:induction false} FieldReads(s: Text, item: Range, numbers: Text, lo: nat)
    requires FieldFrom(s, item, numbers, lo)
    ensures ParseField(s) == Ok(item) && Without(s, COMMA)
  {
    var body := Marked(numbers, item.inheritable);
    MarkedReads(numbers, item, body);
    BodyFound(s, body, lo);
  }

  // ----- range lists -----

  /** Splitting takes the text apart at the separators, and at no other places. */
  lemma {:induction false} SplitKeeps(s: Text, n: nat, sep: byte)
    requires n <= |s|
    ensures var scan := SplitScan(s, n, sep);
            s[..n] == Join(scan.done + [scan.last], |scan.done| + 1, sep)
  {
    if n > 0 {
      SplitKeeps(s, n - 1, sep);
      var before := SplitScan(s, n - 1, sep);
      var parts := before.done + [before.last];
      assert s[..n] == s[..n - 1] + [s[n - 1]];
      if s[n - 1] == sep {
        JoinOneMore(parts, [], sep);
        assert s[..n - 1] + [sep] + [] == s[..n];
      } else {
        JoinOneMore(before.done, before.last, sep);
        JoinOneMore(before.done, before.last + [s[n - 1]], sep);
        var front := if before.done == [] then [] else Join(before.done, |before.done|, sep) + [sep];
        assert front + before.last + [s[n - 1]] == front + (before.last + [s[n - 1]]);
      }
    }
  }

  lemma {:induction false} SplitJoins(s: Text, sep: byte)
    ensures Join(Split(s, sep), |Split(s, sep)|, sep) == s
  {
    SplitKeeps(s, |s|, sep);
    assert s[..|s|] == s;
  }

  ghost predicate FieldAt(fields: seq<Text>, ranges: Rangelist, i: int) {
    0 <= i < |fields| && i < |ranges| && FieldIs(fields[i], ranges[i])
  }

  /** Fields with commas between them, one for each range. */
  ghost predicate FieldsAre(s: Text, fields: seq<Text>, ranges: Rangelist) {
    && fields != [] && |fields| == |ranges| && s == Join(fields, |fields|, ',' as int)
    && forall i :: 0 <= i < |fields| ==> FieldAt(fields, ranges, i)
  }

  /** No revision is inheritable by one range and not by another. */
  ghost predicate OneInheritance(ranges: Rangelist) {
    forall i, j, r :: 0 <= i < |ranges| && 0 <= j < |ranges| && Covers(ranges[i], r) && Covers(ranges[j], r) ==>
      ranges[i].inheritable == ranges[j].inheritable
  }

  lemma {:induction false} ClashingExactly(ranges: Rangelist)
    requires forall i :: 0 <= i < |ranges| ==> Positive(ranges[i])
    ensures Clashing(ranges) <==> !OneInheritance(ranges)
  {
    if Clashing(ranges) {
      var i, j :| 0 <= i < j < |ranges| && Clash(ranges[i], ranges[j]);
      var r := if ranges[i].start < ranges[j].start then ranges[j].start + 1 else ranges[i].start + 1;
      assert Covers(ranges[i], r) && Covers(ranges[j], r);
    }
    if !OneInheritance(ranges) {
      var i, j, r :| 0 <= i < |ranges| && 0 <= j < |ranges| && Covers(ranges[i], r) && Covers(ranges[j], r)
                     && ranges[i].inheritable != ranges[j].inheritable;
      assert Clash(ranges[i], ranges[j]) && Clash(ranges[j], ranges[i]);
    }
  }

  lemma {:induction false} FieldsRead(s: Text, fields: seq<Text>, ranges: Rangelist)
    requires FieldsAre(s, fields, ranges)
    ensures TrimSpace(s) != [] && FieldRanges(s) == Ok(ranges)
  {
    forall i | 0 <= i < |fields|
      ensures Without(fields[i], COMMA) && ParseField(fields[i]) == Ok(ranges[i])
    {
      assert FieldAt(fields, ranges, i);
      FieldExactly(fields[i], ranges[i]);
    }
    SplitJoin(fields, |fields|, COMMA);
    assert fields[..|fields|] == fields && ranges[..|ranges|] == ranges;
    CollectAll(ranges, ParseFields(fields), |ranges|);
    if TrimSpace(s) == [] { BlankHasNoField(s, fields, ranges); }
  }

  lemma {:induction false} BlankHasNoField(s: Text, fields: seq<Text>, ranges: Rangelist)
    requires Split(s, COMMA) == fields && |fields| == |ranges| && ParseField(fields[0]) == Ok(ranges[0])
    ensures TrimSpace(s) != []
  {
    if TrimSpace(s) == [] {
      TrimExactly(s);
      assert Without(s, COMMA);
      SplitOne(s, COMMA);
    }
  }

  lemma {:induction false} FieldsFound(s: Text)
    requires FieldRanges(s).Ok?
    ensures FieldsAre(s, Split(s, COMMA), FieldRanges(s).value)
  {
    var fields := Split(s, COMMA);
    var ranges := FieldRanges(s).value;
    SplitJoins(s, COMMA);
    CollectIs(ParseFields(fields), |fields|);
    forall i | 0 <= i < |fields|
      ensures FieldAt(fields, ranges, i)
    {
      assert ParseFields(fields)[i] == Ok(ranges[i]);
      FieldExactly(fields[i], ranges[i]);
    }
  }

  /** A text is read as a list exactly when it is made of fields that give no revision two kinds of
      inheritance; the list is then the canonical one with their meaning. */
  lemma {:induction false} ListExactly(s: Text, list: Rangelist)
    ensures Parsed(s) == Ok(list) <==>
            Canonical(list) && exists fields, ranges :: FieldsAre(s, fields, ranges) && OneInheritance(ranges) && SameMeaning(list, ranges)
  {
    if Parsed(s) == Ok(list) {
      FieldsFound(s);
      FieldRangesArePositive(s);
      ParsedIsPrintable(s);
      ClashingExactly(FieldRanges(s).value);
    }
    if Canonical(list) && exists fields, ranges :: FieldsAre(s, fields, ranges) && OneInheritance(ranges) && SameMeaning(list, ranges) {
      var fields, ranges :| FieldsAre(s, fields, ranges) && OneInheritance(ranges) && SameMeaning(list, ranges);
      FieldsRead(s, fields, ranges);
      FieldRangesArePositive(s);
      ClashingExactly(ranges);
      NormalizedCanonical(ranges);
      NormalizePreserves(ranges);
      CanonicalUnique(list, Normalized(ranges));
    }
  }

  // ----- lines -----

  /** A path, a colon and a list without colons. */
  ghost predicate LineFrom(line: Text, path: Text, ranges: Text, list: Rangelist) {
    && line == path + [':' as int] + ranges && Without(ranges, ':' as int)
    && LegalPath(path) && Parsed(ranges) == Ok(list)
  }

  lemma {:induction false} LastColon(line: Text, n: nat)
    requires n <= |line|
    ensures var k := LastIndexBefore(line, COLON, n);
            (k > 0 ==> line[k - 1] == COLON) && forall j :: k <= j < n ==> line[j] != COLON
  {
    if n > 0 && line[n - 1] != COLON { LastColon(line, n - 1); }
  }

  lemma {:induction false} BlankExactly(text: Text)
    ensures TrimSpace(text) == [] <==> forall i :: 0 <= i < |text| ==> IsBlank(text[i])
  {
    TrimExactly(text);
    if forall i :: 0 <= i < |text| ==> IsBlank(text[i]) {
      SkippedBlanks(text, 0, |text|);
    }
  }

  /** A line is blank, or without the blanks around it a path, a colon and a list, or an error. */
  lemma {:induction false} LineExactly(text: Text, path: Text, list: Rangelist)
    ensures ParseLine(text) == Blank <==> forall i :: 0 <= i < |text| ==> IsBlank(text[i])
    ensures ParseLine(text) == Entry(path, list) <==> exists ranges :: LineFrom(TrimSpace(text), path, ranges, list)
  {
    var line := TrimSpace(text);
    BlankExactly(text);
    if ParseLine(text) == Entry(path, list) {
      LineFound(line, path, list);
    }
    if exists ranges :: LineFrom(line, path, ranges, list) {
      var ranges :| LineFrom(line, path, ranges, list);
      LineCut(line, path, ranges);
      EntryFound(path, ranges, list);
    }
  }

  lemma {:induction false} LineFound(line: Text, path: Text, list: Rangelist)
    requires var k := LastIndexBefore(line, COLON, |line|);
             k > 0 && ParseEntry(line[..k - 1], line[k..]) == Entry(path, list)
    ensures exists ranges :: LineFrom(line, path, ranges, list)
  {
    var k := LastIndexBefore(line, COLON, |line|);
    LastColon(line, |line|);
    ColonCut(line, k);
    EntryFound(line[..k - 1], line[k..], list);
    EntryHasPath(line[..k - 1], line[k..], path, list);
    assert LineFrom(line, path, line[k..], list);
  }

  lemma {:induction false} ColonCut(line: Text, k: nat)
    requires 0 < k <= |line| && line[k - 1] == COLON && forall j :: k <= j < |line| ==> line[j] != COLON
    ensures line == line[..k - 1] + [COLON] + line[k..] && Without(line[k..], COLON)
  {
  }

  lemma {:induction false} EntryHasPath(own: Text, ranges: Text, path: Text, list: Rangelist)
    requires ParseEntry(own, ranges) == Entry(path, list)
    ensures own == path
  {
  }

  /** A path that is the root needs no test of its own: blanks are no list. */
  lemma {:induction false} EntryFound(path: Text, ranges: Text, list: Rangelist)
    ensures ParseEntry(path, ranges) == Entry(path, list) <==> LegalPath(path) && Parsed(ranges) == Ok(list)
  {
  }

  lemma {:induction false} LineCut(line: Text, path: Text, ranges: Text)
    requires line == path + [COLON] + ranges && Without(ranges, COLON)
    ensures LastIndexBefore(line, COLON, |line|) == |path| + 1 && line[..|path|] == path && line[|path| + 1..] == ranges
  {
    assert line[|path|] == COLON;
    assert forall j :: |path| < j < |line| ==> line[j] == ranges[j - |path| - 1];
    LastIndexFound(line, COLON, |line|, |path|);
  }

  // ----- mergeinfo -----

  /** Line i says this of the revision, for this path. */
  ghost predicate SaidBy(entries: seq<Entry>, i: int, path: Text, r: Revnum, inheritable: bool) {
    && 0 <= i < |entries| && entries[i].Entry? && entries[i].path == path
    && At(entries[i].list, r).present && (inheritable ==> At(entries[i].list, r).inheritable)
  }

  ghost predicate NamedBy(entries: seq<Entry>, i: int, path: Text) {
    0 <= i < |entries| && entries[i].Entry? && entries[i].path == path
  }

  lemma {:induction false} GoodLines(entries: seq<Entry>, n: nat)
    requires n <= |entries|
    ensures AddEntries(entries, n).Ok? <==> forall i :: 0 <= i < n ==> !entries[i].Bad?
  {
    if n > 0 { GoodLines(entries, n - 1); }
  }

  /** Reading fails with the first line that is in error, and only then. */
  lemma {:induction false} ErrorExactly(entries: seq<Entry>, i: nat)
    requires i < |entries| && entries[i].Bad? && forall j :: 0 <= j < i ==> !entries[j].Bad?
    ensures AddEntries(entries, |entries|) == Err(entries[i].error)
  {
    GoodLines(entries, i);
    EntriesStop(entries, i + 1, |entries|);
  }

  /** What the mergeinfo says of a path and a revision, after the first n lines. */
  ghost predicate InfoIs(entries: seq<Entry>, n: nat, info: Info, path: Text, r: Revnum) {
    && (path in info <==> exists i :: i < n && NamedBy(entries, i, path))
    && Canonical(Lookup(info, path))
    && (At(Lookup(info, path), r).present <==> exists i :: i < n && SaidBy(entries, i, path, r, false))
    && (At(Lookup(info, path), r).inheritable <==> exists i :: i < n && SaidBy(entries, i, path, r, true))
  }

  ghost predicate AllCanonical(entries: seq<Entry>) {
    forall i :: 0 <= i < |entries| && entries[i].Entry? ==> Canonical(entries[i].list)
  }

  /** A path is there exactly when a line names it, and has the revisions that any of its lines gives
      it, inheritable where any of them says so. */
  lemma {:induction false} InfoExactly(entries: seq<Entry>, n: nat, path: Text, r: Revnum)
    requires n <= |entries| && AddEntries(entries, n).Ok? && AllCanonical(entries)
    ensures InfoIs(entries, n, AddEntries(entries, n).value, path, r)
  {
    if n > 0 {
      LastLine(entries, n);
      InfoExactly(entries, n - 1, path, r);
      OneMoreLine(entries, n - 1, AddEntries(entries, n - 1).value, AddEntries(entries, n).value, path, r);
    }
  }

  lemma {:induction false} LastLine(entries: seq<Entry>, n: nat)
    requires 0 < n <= |entries| && AddEntries(entries, n).Ok?
    ensures AddEntries(entries, n - 1).Ok?
    ensures AddEntry(Ok(AddEntries(entries, n - 1).value), entries[n - 1]) == AddEntries(entries, n)
  {
  }

  lemma {:induction false} OneMoreLine(entries: seq<Entry>, n: nat, before: Info, after: Info, path: Text, r: Revnum)
    requires n < |entries| && AddEntry(Ok(before), entries[n]) == Ok(after)
    requires InfoIs(entries, n, before, path, r) && (entries[n].Entry? ==> Canonical(entries[n].list))
    ensures InfoIs(entries, n + 1, after, path, r)
  {
    OneMoreSays(entries, n, path, r);
    if NamedBy(entries, n, path) {
      MergedSays(Lookup(before, path), entries[n].list, r);
      assert Lookup(after, path) == MergeRangelists(Lookup(before, path), entries[n].list);
    } else {
      assert Lookup(after, path) == Lookup(before, path) && (path in after <==> path in before);
    }
  }

  lemma {:induction false} OneMoreSays(entries: seq<Entry>, n: nat, path: Text, r: Revnum)
    requires n < |entries|
    ensures (exists i :: i < n + 1 && NamedBy(entries, i, path)) <==>
            NamedBy(entries, n, path) || exists i :: i < n && NamedBy(entries, i, path)
    ensures forall inheritable :: (exists i :: i < n + 1 && SaidBy(entries, i, path, r, inheritable)) <==>
                                  SaidBy(entries, n, path, r, inheritable) || exists i :: i < n && SaidBy(entries, i, path, r, inheritable)
    ensures SaidBy(entries, n, path, r, false) <==> NamedBy(entries, n, path) && At(entries[n].list, r).present
    ensures SaidBy(entries, n, path, r, true) <==> NamedBy(entries, n, path) && At(entries[n].list, r).inheritable
  {
    if entries[n].Entry? { InheritableIsPresent(entries[n].list, r); }
  }

  lemma {:induction false} MergedSays(a: Rangelist, b: Rangelist, r: Revnum)
    requires Canonical(a) && Canonical(b)
    ensures var merged := MergeRangelists(a, b);
            && Canonical(merged)
            && (At(merged, r).present <==> At(a, r).present || At(b, r).present)
            && (At(merged, r).inheritable <==> At(a, r).inheritable || At(b, r).inheritable)
    ensures At(b, r).inheritable ==> At(b, r).present
  {
    MergeAt(a, b, r);
    OperationsCanonical(a, b, true);
    CanonicalSaid(a, r);
    CanonicalSaid(b, r);
    InheritableIsPresent(b, r);
  }

  lemma {:induction false} InheritableIsPresent(list: Rangelist, r: Revnum)
    ensures At(list, r).inheritable ==> At(list, r).present
  {
  }

  lemma {:induction false} CanonicalSaid(list: Rangelist, r: Revnum)
    requires Canonical(list)
    ensures Said(list, r) == At(list, r)
  {
    NormalizedFixed(list);
  }

  // ----- line endings -----

  /** The text with a carriage return in front of every line feed. */
  ghost function WithReturns(s: Text, n: nat): Text
    requires n <= |s|
  {
    if n == 0 then []
    else WithReturns(s, n - 1) + if s[n - 1] == 10 then [13, 10] else [s[n - 1]]
  }

  /** Carriage returns in front of line feeds make no difference. */
  lemma {:induction false} ReturnsIgnored(s: Text)
    requires NoCrLf(s)
    ensures ParsedInfo(WithReturns(s, |s|)) == ParsedInfo(s)
  {
    ReturnsReplaced(s, |s|);
    NothingReplaced(s, |s|);
    assert s[..|s|] == s;
    var t := WithReturns(s, |s|);
    assert ReplaceCrLf(t, |t|) == ReplaceCrLf(s, |s|);
  }

  lemma {:induction false} ReplacedPrefix(s: Text, t: Text, n: nat)
    requires n < |s| && n <= |t| && (forall i :: 0 <= i < n ==> s[i] == t[i])
    requires n == 0 || s[n - 1] != CARRIAGE_RETURN || (n < |t| && s[n] == t[n]) || (n == |t| && s[n] != NEWLINE)
    ensures ReplaceCrLf(s, n) == ReplaceCrLf(t, n)
  {
    if n > 0 {
      ReplacedPrefix(s, t, n - 1);
    }
  }

  lemma {:induction false} ReturnsReplaced(s: Text, n: nat)
    requires n <= |s| && NoCrLf(s)
    ensures ReplaceCrLf(WithReturns(s, n), |WithReturns(s, n)|) == s[..n]
  {
    if n > 0 {
      ReturnsReplaced(s, n - 1);
      var before, after := WithReturns(s, n - 1), WithReturns(s, n);
      assert s[..n] == s[..n - 1] + [s[n - 1]];
      if before != [] {
        assert before[|before| - 1] == s[n - 2];
      }
      ReplacedPrefix(after, before, |before|);
    }
  }
}
