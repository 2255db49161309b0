/** The text form of rangelists (mergeinfo/mergeinfo.go): printing, parsing and the round trip. */
module RangelistText {
  import opened Common
  import opened Decimal
  import opened Strings
  import opened Rangelists
  import opened Mergeinfo

  // ----- printing -----

  /** One range without its mark; a range that spans nothing prints nothing. */
  function RangeNumbers(item: Range): Option<Text> {
    if item.start == item.end - 1 then Some(FormatInt(item.end))
    else if item.start - 1 == item.end then Some([MINUS] + FormatInt(item.start))
    else if item.start < item.end then Some(FormatInt(item.start + 1) + [MINUS] + FormatInt(item.end))
    else if item.start > item.end then Some(FormatInt(item.start) + [MINUS] + FormatInt(item.end + 1))
    else None
  }

  function RangeText(item: Range): Option<Text> {
    match RangeNumbers(item)
    case None => None
    case Some(text) => Some(if item.inheritable then text else text + [STAR])
  }

  /** The texts of the first n ranges, without those that print nothing. */
  function KeepSome(texts: seq<Option<Text>>, n: nat): seq<Text>
    requires n <= |texts|
  {
    if n == 0 then []
    else match texts[n - 1]
      case None => KeepSome(texts, n - 1)
      case Some(text) => KeepSome(texts, n - 1) + [text]
  }

  function Texts(list: Rangelist): (texts: seq<Option<Text>>)
    ensures |texts| == |list|
  {
    seq(|list|, i requires 0 <= i < |list| => RangeText(list[i]))
  }

  function Parts(list: Rangelist): seq<Text> {
    KeepSome(Texts(list), |list|)
  }

  function Printed(list: Rangelist): Text {
    Join(Parts(list), |Parts(list)|, COMMA)
  }

  method String(list: Rangelist) returns (s: Text)
    ensures s == Printed(list)
  {
    var parts := [];
    for n := 0 to |list|
      invariant parts == KeepSome(Texts(list), n)
    {
      var item := list[n];
      var text: Text;
      if item.start == item.end - 1 {
        text := FormatInt(item.end);
      } else if item.start - 1 == item.end {
        text := [MINUS] + FormatInt(item.start);
      } else if item.start < item.end {
        text := FormatInt(item.start + 1) + [MINUS] + FormatInt(item.end);
      } else if item.start > item.end {
        text := FormatInt(item.start) + [MINUS] + FormatInt(item.end + 1);
      } else {
        continue;
      }
      if !item.inheritable {
        text := text + [STAR];
      }
      parts := parts + [text];
    }
    s := Join(parts, |parts|, COMMA);
  }

  // ----- parsing -----

  datatype ParseError = EmptyRangelist | InvalidRevision | ReversedRange | MixedInheritance

  /** A field without its mark: one revision, or two with a '-' between them. */
  function ParseNumbers(field: Text, inheritable: bool): Result<Range, ParseError> {
    var cut := IndexFrom(field, MINUS, 0);
    match ParsePositive(field[..cut])
    case None => Err(InvalidRevision)
    case Some(start) =>
      if cut == |field| then Ok(Range(start - 1, start, inheritable))
      else match ParsePositive(field[cut + 1..])
        case None => Err(InvalidRevision)
        case Some(end) => if end <= start then Err(ReversedRange) else Ok(Range(start - 1, end, inheritable))
  }

  function ParseField(text: Text): Result<Range, ParseError> {
    var field := TrimSpace(text);
    if field != [] && field[|field| - 1] == STAR
    then ParseNumbers(field[..|field| - 1], false)
    else ParseNumbers(field, true)
  }

  /** The ranges of the first n results, or the first error. */
  function Collect(results: seq<Result<Range, ParseError>>, n: nat): Result<Rangelist, ParseError>
    requires n <= |results|
  {
    if n == 0 then Ok([])
    else match Collect(results, n - 1)
      case Err(e) => Err(e)
      case Ok(ranges) => match results[n - 1]
        case Err(e) => Err(e)
        case Ok(item) => Ok(ranges + [item])
  }

  function ParseFields(fields: seq<Text>): (results: seq<Result<Range, ParseError>>)
    ensures |results| == |fields|
  {
    seq(|fields|, i requires 0 <= i < |fields| => ParseField(fields[i]))
  }

  /** The ranges that the comma-separated fields of the value name. */
  function FieldRanges(value: Text): Result<Rangelist, ParseError> {
    var results := ParseFields(Split(value, COMMA));
    Collect(results, |results|)
  }

  predicate Clash(a: Range, b: Range) {
    a.start < b.end && b.start < a.end && a.inheritable != b.inheritable
  }

  ghost predicate Clashing(ranges: Rangelist) {
    exists i, j :: 0 <= i < j < |ranges| && Clash(ranges[i], ranges[j])
  }

  ghost function Parsed(value: Text): Result<Rangelist, ParseError> {
    if TrimSpace(value) == [] then Err(EmptyRangelist)
    else
      match FieldRanges(value)
      case Err(e) => Err(e)
      case Ok(ranges) => if Clashing(ranges) then Err(MixedInheritance) else Ok(Normalized(ranges))
  }

  /** Does a later range overlap this one with another inheritance? */
  method FindClash(ranges: Rangelist) returns (clash: bool)
    ensures clash == Clashing(ranges)
  {
    for i := 0 to |ranges|
      invariant forall a, b :: 0 <= a < i && a < b < |ranges| ==> !Clash(ranges[a], ranges[b])
    {
      for j := i + 1 to |ranges|
        invariant forall b :: i < b < j ==> !Clash(ranges[i], ranges[b])
      {
        if Clash(ranges[i], ranges[j]) {
          return true;
        }
      }
    }
    return false;
  }

  ghost predicate AreResults(results: seq<Result<Range, ParseError>>, fields: seq<Text>) {
    && |results| == |fields|
    && forall i {:trigger ParseField(fields[i])} :: 0 <= i < |fields| ==> results[i] == ParseField(fields[i])
  }

  method ParseOne(fields: seq<Text>, n: nat, ghost results: seq<Result<Range, ParseError>>)
      returns (r: Result<Range, ParseError>)
    requires n < |fields| && AreResults(results, fields)
    ensures r == results[n]
  {
    return ParseField(fields[n]);
  }

  method ParseEach(fields: seq<Text>, ghost results: seq<Result<Range, ParseError>>)
      returns (r: Result<Rangelist, ParseError>)
    requires AreResults(results, fields)
    ensures r == Collect(results, |fields|)
  {
    var ranges := [];
    var n := 0;
    while n < |fields|
      invariant n <= |fields|
      invariant Collect(results, n) == Ok(ranges)
    {
      var field := ParseOne(fields, n, results);
      if field.Err? {
        CollectStops(results, n + 1, |fields|);
        return Err(field.error);
      }
      ranges := ranges + [field.value];
      n := n + 1;
    }
    return Ok(ranges);
  }

  method ParseRangelist(value: Text) returns (r: Result<Rangelist, ParseError>)
    ensures r == Parsed(value)
  {
    if TrimSpace(value) == [] {
      return Err(EmptyRangelist);
    }
    var fields := Split(value, COMMA);
    var ranges := ParseEach(fields, ParseFields(fields));
    if ranges.Err? {
      return Err(ranges.error);
    }
    var clash := FindClash(ranges.value);
    if clash {
      return Err(MixedInheritance);
    }
    var normal := Normalize(ranges.value);
    return Ok(normal);
  }

  /** The first error stands. */
  lemma {:induction false} CollectStops(results: seq<Result<Range, ParseError>>, m: nat, n: nat)
    requires m <= n <= |results| && Collect(results, m).Err?
    ensures Collect(results, n) == Collect(results, m)
    decreases n - m
  {
    if m < n {
      CollectStops(results, m, n - 1);
    }
  }

  // ----- what parsing returns -----

  predicate Positive(item: Range) {
    0 <= item.start < item.end <= MAX_INT64
  }

  lemma {:induction false} FieldIsPositive(text: Text)
    ensures ParseField(text).Ok? ==> Positive(ParseField(text).value)
  {
  }

  lemma {:induction false} CollectIs(results: seq<Result<Range, ParseError>>, n: nat)
    requires n <= |results|
    ensures Collect(results, n).Ok? ==> |Collect(results, n).value| == n
    ensures Collect(results, n).Ok? ==> forall i :: 0 <= i < n ==> results[i] == Ok(Collect(results, n).value[i])
  {
    if n > 0 {
      CollectIs(results, n - 1);
    }
  }

  lemma {:induction false} FieldRangesArePositive(value: Text)
    requires FieldRanges(value).Ok?
    ensures FieldRanges(value).value != []
    ensures forall i :: 0 <= i < |FieldRanges(value).value| ==> Positive(FieldRanges(value).value[i])
  {
    var fields := Split(value, COMMA);
    var results := ParseFields(fields);
    CollectIs(results, |results|);
    var ranges := FieldRanges(value).value;
    forall i | 0 <= i < |ranges|
      ensures Positive(ranges[i])
    {
      assert results[i] == Ok(ranges[i]) && results[i] == ParseField(fields[i]);
      FieldIsPositive(fields[i]);
    }
  }

  /** What the printer can print and the parser read: a list that is not empty, canonical, and
      within 64 bits. */
  ghost predicate Printable(list: Rangelist) {
    list != [] && Canonical(list) && forall i :: 0 <= i < |list| ==> list[i].end <= MAX_INT64
  }

  /** A parsed list has exactly the revisions of its fields, and is itself printable. */
  lemma {:induction false} ParsedIsPrintable(value: Text)
    requires Parsed(value).Ok?
    ensures Printable(Parsed(value).value)
    ensures FieldRanges(value).Ok? && SameMeaning(Parsed(value).value, FieldRanges(value).value)
  {
    FieldRangesArePositive(value);
    var ranges := FieldRanges(value).value;
    var normal := Normalized(ranges);
    NormalizePreserves(ranges);
    NormalizedCanonical(ranges);
    NormalStaysBelow(ranges, normal);
    assert At(normal, ranges[0].end) == At(ranges, ranges[0].end);
    assert Covers(ranges[0], ranges[0].end);
  }

  lemma {:induction false} NormalStaysBelow(ranges: Rangelist, normal: Rangelist)
    requires forall i :: 0 <= i < |ranges| ==> Positive(ranges[i])
    requires Canonical(normal) && SameMeaning(normal, ranges)
    ensures forall i :: 0 <= i < |normal| ==> normal[i].end <= MAX_INT64
  {
    forall i | 0 <= i < |normal|
      ensures normal[i].end <= MAX_INT64
    {
      var r := normal[i].end;
      assert Covers(normal[i], r);
      assert At(normal, r) == At(ranges, r);
      assert At(ranges, r).present;
    }
  }

  // ----- the round trip -----

  lemma {:induction false} OneNumber(text: Text, n: Revnum, inheritable: bool)
    requires AllDigits(text) && ParsePositive(text) == Some(n)
    ensures ParseNumbers(text, inheritable) == Ok(Range(n - 1, n, inheritable))
  {
    IndexFound(text, MINUS, 0, |text|);
    assert text[..|text|] == text;
  }

  lemma {:induction false} TwoNumbers(first: Text, last: Text, m: Revnum, n: Revnum, inheritable: bool)
    requires AllDigits(first) && ParsePositive(first) == Some(m)
    requires AllDigits(last) && ParsePositive(last) == Some(n) && m < n
    ensures ParseNumbers(first + [MINUS] + last, inheritable) == Ok(Range(m - 1, n, inheritable))
  {
    var text := first + [MINUS] + last;
    assert text[|first|] == MINUS;
    assert forall j :: 0 <= j < |first| ==> text[j] == first[j];
    IndexFound(text, MINUS, 0, |first|);
    assert text[..|first|] == first && text[|first| + 1..] == last;
  }

  predicate NumberText(text: Text) {
    text != [] && forall k :: 0 <= k < |text| ==> IsDigit(text[k]) || text[k] == MINUS
  }

  lemma {:induction false} FormatIsText(n: int)
    requires 0 < n <= MAX_INT64
    ensures AllDigits(FormatInt(n)) && FormatInt(n) != [] && ParsePositive(FormatInt(n)) == Some(n)
  {
    ParseFormat(n);
    FormatRoundTrip(n);
  }

  lemma {:induction false} NumbersRoundTrip(item: Range)
    requires Positive(item)
    ensures RangeNumbers(item).Some? && NumberText(RangeNumbers(item).value)
    ensures ParseNumbers(RangeNumbers(item).value, item.inheritable) == Ok(item)
  {
    var last := FormatInt(item.end);
    FormatIsText(item.end);
    if item.start == item.end - 1 {
      OneNumber(last, item.end, item.inheritable);
    } else {
      var first := FormatInt(item.start + 1);
      FormatIsText(item.start + 1);
      assert RangeNumbers(item) == Some(first + [MINUS] + last);
      PairIsText(first, last);
      TwoNumbers(first, last, item.start + 1, item.end, item.inheritable);
    }
  }

  lemma {:induction false} PairIsText(first: Text, last: Text)
    requires AllDigits(first) && AllDigits(last)
    ensures NumberText(first + [MINUS] + last)
  {
  }

  lemma {:induction false} MarkRoundTrip(numbers: Text, item: Range)
    requires NumberText(numbers) && ParseNumbers(numbers, item.inheritable) == Ok(item)
    ensures var text := if item.inheritable then numbers else numbers + [STAR];
            ParseField(text) == Ok(item) && OneField(text)
  {
    var text := if item.inheritable then numbers else numbers + [STAR];
    TrimNothing(text);
    if !item.inheritable {
      assert text[..|text| - 1] == numbers;
    }
  }

  lemma {:induction false} FieldRoundTrip(item: Range)
    requires Positive(item)
    ensures RangeText(item).Some? && OneField(RangeText(item).value)
    ensures ParseField(RangeText(item).value) == Ok(item)
  {
    NumbersRoundTrip(item);
    MarkRoundTrip(RangeNumbers(item).value, item);
  }

  lemma {:induction false} KeepAll(texts: seq<Option<Text>>, n: nat)
    requires n <= |texts| && forall i :: 0 <= i < |texts| ==> texts[i].Some?
    ensures |KeepSome(texts, n)| == n
    ensures forall i :: 0 <= i < n ==> texts[i] == Some(KeepSome(texts, n)[i])
  {
    if n > 0 {
      KeepAll(texts, n - 1);
    }
  }

  lemma {:induction false} CollectAll(list: Rangelist, results: seq<Result<Range, ParseError>>, n: nat)
    requires n <= |list| == |results| && forall i :: 0 <= i < |list| ==> results[i] == Ok(list[i])
    ensures Collect(results, n) == Ok(list[..n])
  {
    if n > 0 {
      CollectAll(list, results, n - 1);
      assert list[..n] == list[..n - 1] + [list[n - 1]];
    }
  }

  lemma {:induction false} PartsAre(list: Rangelist)
    requires forall i :: 0 <= i < |list| ==> Positive(list[i])
    ensures |Parts(list)| == |list|
    ensures forall i :: 0 <= i < |list| ==> OneField(Parts(list)[i])
    ensures ParseFields(Parts(list)) == seq(|list|, i requires 0 <= i < |list| => Ok(list[i]))
  {
    var texts := Texts(list);
    forall i | 0 <= i < |list|
      ensures texts[i].Some? && OneField(texts[i].value) && ParseField(texts[i].value) == Ok(list[i])
    {
      FieldRoundTrip(list[i]);
    }
    KeepAll(texts, |list|);
  }

  /** The printed text is one line of printing characters. */
  lemma {:induction false} PrintedIsLine(parts: seq<Text>, n: nat)
    requires 0 < n <= |parts|
    requires forall i :: 0 <= i < n ==> OneField(parts[i])
    ensures OneLine(Join(parts, n, COMMA))
  {
    if n > 1 {
      PrintedIsLine(parts, n - 1);
    }
    assert OneField(parts[n - 1]);
  }

  ghost predicate OneField(s: Text) {
    OneLine(s) && Without(s, COMMA)
  }

  /** No line break, no colon, and no space at either end. */
  ghost predicate OneLine(s: Text) {
    s != [] && Without(s, NEWLINE) && Without(s, COLON) && !IsSpace(s[0]) && !IsSpace(s[|s| - 1])
  }

  lemma {:induction false} PrintedLine(list: Rangelist)
    requires Printable(list)
    ensures OneLine(Printed(list))
    ensures Split(Printed(list), COMMA) == Parts(list)
  {
    PartsAre(list);
    var parts := Parts(list);
    PrintedIsLine(parts, |parts|);
    SplitJoin(parts, |parts|, COMMA);
    assert parts[..|parts|] == parts;
  }

  lemma {:induction false} FieldRangesRoundTrip(list: Rangelist)
    requires Printable(list)
    ensures FieldRanges(Printed(list)) == Ok(list)
  {
    PrintedLine(list);
    PartsAre(list);
    CollectAll(list, ParseFields(Parts(list)), |list|);
    assert list[..|list|] == list;
  }

  lemma {:induction false} NoClash(list: Rangelist)
    requires Canonical(list)
    ensures !Clashing(list)
  {
  }

  /** Parsing the printed form of any printable list returns that list. */
  lemma {:induction false} RangelistRoundTrip(list: Rangelist)
    requires Printable(list)
    ensures Parsed(Printed(list)) == Ok(list)
  {
    FieldRangesRoundTrip(list);
    PrintedLine(list);
    TrimNothing(Printed(list));
    NoClash(list);
    NormalizedFixed(list);
  }

  /** Printing what was parsed and parsing it again changes nothing more. */
  lemma {:induction false} ReparseStable(value: Text)
    requires Parsed(value).Ok?
    ensures Parsed(Printed(Parsed(value).value)) == Parsed(value)
  {
    ParsedIsPrintable(value);
    RangelistRoundTrip(Parsed(value).value);
  }
}
