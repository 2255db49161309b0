/** The svn:mergeinfo property text (mergeinfo/mergeinfo.go): one line for each path. */
module MergeinfoText {
  import opened Common
  import opened Decimal
  import opened Strings
  import opened Rangelists
  import opened Mergeinfo
  import opened MergeinfoLaws
  import opened RangelistText
  import opened Paths

  predicate LegalPath(path: Text) {
    FspathIsCanonical(path) && !HasDotSegment(path)
  }

  // ----- entries -----

  datatype InfoError = InvalidLine | InvalidRanges(error: ParseError)

  /** What a line says; blank lines say nothing. */
  datatype Entry = Blank | Entry(path: Text, list: Rangelist) | Bad(error: InfoError)

  // ----- printing -----

  function Line(path: Text, list: Rangelist): Text {
    path + [COLON] + Printed(list)
  }

  /** The lists of the first n paths, without those that are empty. */
  function Entries(info: Info, paths: seq<Text>, n: nat): (entries: seq<Entry>)
    requires n <= |paths| && forall path :: path in paths ==> path in info
    ensures forall i :: 0 <= i < |entries| ==> entries[i].Entry?
  {
    if n == 0 then []
    else
      var list := Normalized(info[paths[n - 1]]);
      if list == [] then Entries(info, paths, n - 1)
      else Entries(info, paths, n - 1) + [Entry(paths[n - 1], list)]
  }

  function LinesOf(entries: seq<Entry>): (lines: seq<Text>)
    requires forall i :: 0 <= i < |entries| ==> entries[i].Entry?
    ensures |lines| == |entries|
  {
    seq(|entries|, i requires 0 <= i < |entries| => Line(entries[i].path, entries[i].list))
  }

  /** The keys of the map in some order, each once; Go sorts them. */
  ghost predicate Lists(paths: seq<Text>, info: Info) {
    && (forall path :: path in paths <==> path in info)
    && forall i, j :: 0 <= i < j < |paths| ==> paths[i] != paths[j]
  }

  function LinesText(entries: seq<Entry>): Text
    requires forall i :: 0 <= i < |entries| ==> entries[i].Entry?
  {
    Join(LinesOf(entries), |entries|, NEWLINE)
  }

  function PrintedInfo(info: Info, paths: seq<Text>): Text
    requires forall path :: path in paths ==> path in info
  {
    LinesText(Entries(info, paths, |paths|))
  }

  method AppendLine(before: Text, path: Text, ranges: Rangelist) returns (text: Text)
    ensures text == (if before == [] then [] else before + [NEWLINE]) + Line(path, ranges)
  {
    text := before;
    if |text| > 0 {
      text := text + [NEWLINE];
    }
    text := text + path;
    text := text + [COLON];
    var printed := String(ranges);
    text := text + printed;
  }

  method StringInfo(info: Info, paths: seq<Text>) returns (text: Text)
    requires forall path :: path in paths ==> path in info
    ensures text == PrintedInfo(info, paths)
  {
    text := [];
    ghost var entries := [];
    for n := 0 to |paths|
      invariant entries == Entries(info, paths, n)
      invariant text == LinesText(entries)
    {
      var path := paths[n];
      assert path in info;
      var ranges := Normalize(info[path]);
      if |ranges| == 0 {
        continue;
      }
      text := AppendLine(text, path, ranges);
      LinesTextStep(entries, path, ranges);
      entries := entries + [Entry(path, ranges)];
    }
  }

  lemma {:induction false} LinesTextStep(entries: seq<Entry>, path: Text, list: Rangelist)
    requires forall i :: 0 <= i < |entries| ==> entries[i].Entry?
    ensures var before := LinesText(entries);
            LinesText(entries + [Entry(path, list)]) ==
            (if before == [] then [] else before + [NEWLINE]) + Line(path, list)
  {
    var (lines, line) := (LinesOf(entries), Line(path, list));
    assert LinesOf(entries + [Entry(path, list)]) == lines + [line];
    JoinOneMore(lines, line, NEWLINE);
    if lines != [] {
      JoinNotEmpty(lines, |lines|, NEWLINE);
    }
  }

  lemma {:induction false} JoinOneMore(lines: seq<Text>, line: Text, sep: byte)
    ensures Join(lines + [line], |lines| + 1, sep) ==
            (if lines == [] then [] else Join(lines, |lines|, sep) + [sep]) + line
  {
    JoinPrefix(lines, lines + [line], |lines|, sep);
  }

  lemma {:induction false} JoinNotEmpty(lines: seq<Text>, n: nat, sep: byte)
    requires 0 < n <= |lines| && lines[0] != []
    ensures Join(lines, n, sep) != []
  {
  }

  lemma {:induction false} JoinPrefix(a: seq<Text>, b: seq<Text>, n: nat, sep: byte)
    requires n <= |a| && n <= |b| && forall i :: 0 <= i < n ==> a[i] == b[i]
    ensures Join(a, n, sep) == Join(b, n, sep)
  {
    if n > 1 {
      JoinPrefix(a, b, n - 1, sep);
    }
  }

  // ----- parsing -----

  /** The first n bytes of s, with "\r\n" replaced by "\n". */
  function ReplaceCrLf(s: Text, n: nat): Text
    requires n <= |s|
  {
    if n == 0 then []
    else if s[n - 1] == CARRIAGE_RETURN && n < |s| && s[n] == NEWLINE then ReplaceCrLf(s, n - 1)
    else ReplaceCrLf(s, n - 1) + [s[n - 1]]
  }

  ghost function ParseLine(text: Text): Entry {
    var line := TrimSpace(text);
    if line == [] then Blank
    else
      var separator := LastIndexBefore(line, COLON, |line|);
      if separator == 0 then Bad(InvalidLine)
      else ParseEntry(line[..separator - 1], line[separator..])
  }

  ghost function ParseEntry(path: Text, ranges: Text): Entry {
    if !FspathIsCanonical(path) || HasDotSegment(path) || (path == [SLASH] && TrimSpace(ranges) == [])
    then Bad(InvalidLine)
    else match Parsed(ranges)
      case Err(e) => Bad(InvalidRanges(e))
      case Ok(list) => Entry(path, list)
  }

  /** A line's list is merged into what its path already has. */
  function AddEntry(info: Result<Info, InfoError>, entry: Entry): Result<Info, InfoError> {
    match info
    case Err(e) => Err(e)
    case Ok(m) => match entry
      case Blank => Ok(m)
      case Bad(e) => Err(e)
      case Entry(path, list) => Ok(m[path := MergeRangelists(Lookup(m, path), list)])
  }

  ghost function AddEntries(entries: seq<Entry>, n: nat): Result<Info, InfoError>
    requires n <= |entries|
  {
    if n == 0 then Ok(map[]) else AddEntry(AddEntries(entries, n - 1), entries[n - 1])
  }

  ghost function ParseLines(lines: seq<Text>): (entries: seq<Entry>)
    ensures |entries| == |lines|
  {
    seq(|lines|, i requires 0 <= i < |lines| => ParseLine(lines[i]))
  }

  ghost function ParsedInfo(value: Text): Result<Info, InfoError> {
    var entries := ParseLines(Split(ReplaceCrLf(value, |value|), NEWLINE));
    AddEntries(entries, |entries|)
  }

  ghost predicate AreEntries(entries: seq<Entry>, lines: seq<Text>) {
    && |entries| == |lines|
    && forall i {:trigger ParseLine(lines[i])} :: 0 <= i < |lines| ==> entries[i] == ParseLine(lines[i])
  }

  lemma {:induction false} EntriesStop(entries: seq<Entry>, m: nat, n: nat)
    requires m <= n <= |entries| && AddEntries(entries, m).Err?
    ensures AddEntries(entries, n) == AddEntries(entries, m)
    decreases n - m
  {
    if m < n {
      EntriesStop(entries, m, n - 1);
    }
  }

  method ReadLine(text: Text) returns (entry: Entry)
    ensures entry == ParseLine(text)
  {
    var line := TrimSpace(text);
    if line == [] {
      return Blank;
    }
    var separator := LastIndexBefore(line, COLON, |line|);
    if separator == 0 {
      return Bad(InvalidLine);
    }
    var path, ranges := line[..separator - 1], line[separator..];
    if !FspathIsCanonical(path) || HasDotSegment(path) || (path == [SLASH] && TrimSpace(ranges) == []) {
      return Bad(InvalidLine);
    }
    var parsed := ParseRangelist(ranges);
    match parsed {
      case Err(e) => return Bad(InvalidRanges(e));
      case Ok(list) => return Entry(path, list);
    }
  }

  method ReadOne(lines: seq<Text>, n: nat, ghost entries: seq<Entry>) returns (entry: Entry)
    requires n < |lines| && AreEntries(entries, lines)
    ensures entry == entries[n]
  {
    entry := ReadLine(lines[n]);
  }

  method ReadLines(lines: seq<Text>, ghost entries: seq<Entry>) returns (r: Result<Info, InfoError>)
    requires AreEntries(entries, lines)
    ensures r == AddEntries(entries, |entries|)
  {
    var info: Info := map[];
    var n := 0;
    while n < |lines|
      invariant n <= |lines|
      invariant AddEntries(entries, n) == Ok(info)
    {
      var entry := ReadOne(lines, n, entries);
      if entry.Bad? {
        EntriesStop(entries, n + 1, |entries|);
        return Err(entry.error);
      }
      if entry.Entry? {
        info := info[entry.path := MergeRangelists(Lookup(info, entry.path), entry.list)];
      }
      n := n + 1;
    }
    return Ok(info);
  }

  method Parse(value: Text) returns (r: Result<Info, InfoError>)
    ensures r == ParsedInfo(value)
  {
    var lines := Split(ReplaceCrLf(value, |value|), NEWLINE);
    r := ReadLines(lines, ParseLines(lines));
  }

  // ----- what parsing returns -----

  /** A path that fits on a line, with a list that can be printed. */
  ghost predicate PrintableEntry(path: Text, list: Rangelist) {
    LegalPath(path) && Without(path, NEWLINE) && Printable(list)
  }

  ghost predicate PrintableInfo(info: Info) {
    forall path :: path in info ==> PrintableEntry(path, info[path])
  }

  lemma {:induction false} TrimIsSlice(s: Text, c: byte)
    requires Without(s, c)
    ensures Without(TrimSpace(s), c)
  {
  }

  lemma {:induction false} LineIsPrintable(text: Text)
    requires Without(text, NEWLINE)
    ensures ParseLine(text).Entry? ==> PrintableEntry(ParseLine(text).path, ParseLine(text).list)
  {
    var line := TrimSpace(text);
    TrimIsSlice(text, NEWLINE);
    if line != [] {
      var separator := LastIndexBefore(line, COLON, |line|);
      if separator > 0 {
        EntryIsPrintable(line[..separator - 1], line[separator..]);
      }
    }
  }

  lemma {:induction false} EntryIsPrintable(path: Text, ranges: Text)
    requires Without(path, NEWLINE)
    ensures ParseEntry(path, ranges).Entry? ==>
              PrintableEntry(ParseEntry(path, ranges).path, ParseEntry(path, ranges).list)
  {
    if Parsed(ranges).Ok? {
      ParsedIsPrintable(ranges);
    }
  }

  lemma {:induction false} SplitWithout(s: Text, n: nat, sep: byte)
    requires n <= |s|
    ensures var scan := SplitScan(s, n, sep);
            Without(scan.last, sep) && forall i :: 0 <= i < |scan.done| ==> Without(scan.done[i], sep)
  {
    if n > 0 {
      SplitWithout(s, n - 1, sep);
    }
  }

  lemma {:induction false} MergedIsPrintable(old_: Rangelist, list: Rangelist)
    requires Printable(list) && (old_ == [] || Printable(old_))
    ensures Printable(MergeRangelists(old_, list))
  {
    var merged := MergeRangelists(old_, list);
    OperationsCanonical(old_, list, true);
    NormalizedFixed(old_);
    NormalizedFixed(list);
    MergeAt(old_, list, list[0].end);
    assert Covers(list[0], list[0].end);
    forall i | 0 <= i < |merged|
      ensures merged[i].end <= MAX_INT64
    {
      var r := merged[i].end;
      assert Covers(merged[i], r);
      MergeAt(old_, list, r);
      assert At(old_, r).present || At(list, r).present;
    }
  }

  lemma {:induction false} AddedIsPrintable(info: Info, path: Text, list: Rangelist)
    requires PrintableInfo(info) && PrintableEntry(path, list)
    ensures PrintableInfo(info[path := MergeRangelists(Lookup(info, path), list)])
  {
    MergedIsPrintable(Lookup(info, path), list);
  }

  lemma {:induction false} EntriesArePrintable(entries: seq<Entry>, n: nat)
    requires n <= |entries|
    requires forall i :: 0 <= i < |entries| && entries[i].Entry? ==> PrintableEntry(entries[i].path, entries[i].list)
    ensures AddEntries(entries, n).Ok? ==> PrintableInfo(AddEntries(entries, n).value)
  {
    if n > 0 {
      EntriesArePrintable(entries, n - 1);
      if AddEntries(entries, n - 1).Ok? && entries[n - 1].Entry? {
        AddedIsPrintable(AddEntries(entries, n - 1).value, entries[n - 1].path, entries[n - 1].list);
      }
    }
  }

  /** Whatever text is parsed, the mergeinfo it yields can be printed again. */
  lemma {:induction false} ParsedInfoIsPrintable(value: Text)
    ensures ParsedInfo(value).Ok? ==> PrintableInfo(ParsedInfo(value).value)
  {
    var text := ReplaceCrLf(value, |value|);
    var lines := Split(text, NEWLINE);
    SplitWithout(text, |text|, NEWLINE);
    var entries := ParseLines(lines);
    forall i | 0 <= i < |entries| && entries[i].Entry?
      ensures PrintableEntry(entries[i].path, entries[i].list)
    {
      LineIsPrintable(lines[i]);
    }
    EntriesArePrintable(entries, |entries|);
  }

  // ----- the round trip -----

  lemma {:induction false} LineRoundTrip(path: Text, list: Rangelist)
    requires PrintableEntry(path, list)
    ensures ParseLine(Line(path, list)) == Entry(path, list)
  {
    var ranges := Printed(list);
    var line := Line(path, list);
    PrintedLine(list);
    LineShape(path, ranges);
    LastIndexFound(line, COLON, |line|, |path|);
    assert line[..|path|] == path && line[|path| + 1..] == ranges;
    RangelistRoundTrip(list);
    EntryRoundTrip(path, ranges, list);
  }

  lemma {:induction false} LineShape(path: Text, ranges: Text)
    requires path != [] && path[0] == SLASH && OneLine(ranges)
    ensures var line := path + [COLON] + ranges;
            && TrimSpace(line) == line && line != []
            && line[|path|] == COLON && (forall j :: |path| < j < |line| ==> line[j] != COLON)
            && !IsSpace(line[|line| - 1])
            && (Without(path, NEWLINE) ==> Without(line, NEWLINE))
  {
    var line := path + [COLON] + ranges;
    assert line[0] == SLASH && line[|line| - 1] == ranges[|ranges| - 1];
    TrimNothing(line);
  }

  lemma {:induction false} EntryRoundTrip(path: Text, ranges: Text, list: Rangelist)
    requires LegalPath(path) && OneLine(ranges) && Parsed(ranges) == Ok(list)
    ensures ParseEntry(path, ranges) == Entry(path, list)
  {
    TrimNothing(ranges);
  }

  /** No line ends in a space, so no "\r\n" arises between lines. */
  ghost predicate CleanLine(s: Text) {
    s != [] && Without(s, NEWLINE) && !IsSpace(s[|s| - 1])
  }

  ghost predicate NoCrLf(s: Text) {
    forall i :: 0 < i < |s| && s[i] == NEWLINE ==> s[i - 1] != CARRIAGE_RETURN
  }

  lemma {:induction false} JoinedLines(lines: seq<Text>, n: nat)
    requires 0 < n <= |lines| && forall i :: 0 <= i < n ==> CleanLine(lines[i])
    ensures Join(lines, n, NEWLINE) != [] && NoCrLf(Join(lines, n, NEWLINE))
    ensures !IsSpace(Join(lines, n, NEWLINE)[|Join(lines, n, NEWLINE)| - 1])
  {
    assert CleanLine(lines[n - 1]);
    if n > 1 {
      JoinedLines(lines, n - 1);
      var (before, last) := (Join(lines, n - 1, NEWLINE), lines[n - 1]);
      var text := before + [NEWLINE] + last;
      forall i | 0 < i < |text|
        ensures text[i] == NEWLINE ==> text[i - 1] != CARRIAGE_RETURN
      {
        if i > |before| {
          assert text[i] == last[i - |before| - 1];
        }
      }
    }
  }

  lemma {:induction false} NothingReplaced(s: Text, n: nat)
    requires n <= |s| && NoCrLf(s)
    ensures ReplaceCrLf(s, n) == s[..n]
  {
    if n > 0 {
      NothingReplaced(s, n - 1);
      assert s[..n] == s[..n - 1] + [s[n - 1]];
    }
  }

  /** The mergeinfo of the first n paths. */
  function FirstPaths(info: Info, paths: seq<Text>, n: nat): Info
    requires n <= |paths| && forall path :: path in paths ==> path in info
  {
    map path | path in paths[..n] && Normalized(info[path]) != [] :: Normalized(info[path])
  }

  ghost predicate Reads(line: Text, entry: Entry) {
    CleanLine(line) && ParseLine(line) == entry
  }

  lemma {:induction false} LineReads(path: Text, list: Rangelist)
    requires PrintableEntry(path, list)
    ensures Reads(Line(path, list), Entry(path, list))
  {
    LineRoundTrip(path, list);
    PrintedLine(list);
    LineShape(path, Printed(list));
  }

  lemma {:induction false} EntriesPrintable(info: Info, paths: seq<Text>, n: nat)
    requires n <= |paths| && Lists(paths, info) && PrintableInfo(NormalInfo(info))
    ensures forall i :: 0 <= i < |Entries(info, paths, n)| ==>
              PrintableEntry(Entries(info, paths, n)[i].path, Entries(info, paths, n)[i].list)
  {
    if n > 0 {
      EntriesPrintable(info, paths, n - 1);
      var path := paths[n - 1];
      assert path in paths;
      var list := Normalized(info[path]);
      if list != [] {
        assert path in NormalInfo(info) && NormalInfo(info)[path] == list;
      }
    }
  }

  lemma {:induction false} EntriesPrefix(a: seq<Entry>, b: seq<Entry>, n: nat)
    requires n <= |a| && n <= |b| && forall i :: 0 <= i < n ==> a[i] == b[i]
    ensures AddEntries(a, n) == AddEntries(b, n)
  {
    if n > 0 {
      EntriesPrefix(a, b, n - 1);
    }
  }

  lemma {:induction false} MergedIntoNothing(list: Rangelist)
    requires Canonical(list)
    ensures MergeRangelists([], list) == list
  {
    NormalizedFixed(list);
    NothingFromNothing(true);
    MergeCommutes([], list);
    MergeWithNothing(list, []);
  }

  lemma {:induction false} FirstPathsStep(info: Info, paths: seq<Text>, n: nat)
    requires n < |paths| && Lists(paths, info)
    ensures var (path, before, after) := (paths[n], FirstPaths(info, paths, n), FirstPaths(info, paths, n + 1));
            && path in info && path !in before
            && after == if Normalized(info[path]) == [] then before else before[path := Normalized(info[path])]
  {
    assert paths[n] in paths;
    assert paths[..n + 1] == paths[..n] + [paths[n]];
  }

  lemma {:induction false} AddLast(entries: seq<Entry>, info: Info, path: Text, list: Rangelist)
    requires AddEntries(entries, |entries|) == Ok(info) && path !in info && Canonical(list)
    ensures AddEntries(entries + [Entry(path, list)], |entries| + 1) == Ok(info[path := list])
  {
    EntriesPrefix(entries, entries + [Entry(path, list)], |entries|);
    MergedIntoNothing(list);
  }

  lemma {:induction false} EntriesRebuild(info: Info, paths: seq<Text>, n: nat)
    requires n <= |paths| && Lists(paths, info)
    ensures AddEntries(Entries(info, paths, n), |Entries(info, paths, n)|) == Ok(FirstPaths(info, paths, n))
  {
    if n == 0 {
      assert FirstPaths(info, paths, 0) == map[];
    } else {
      EntriesRebuild(info, paths, n - 1);
      FirstPathsStep(info, paths, n - 1);
      var path := paths[n - 1];
      var list := Normalized(info[path]);
      if list != [] {
        NormalizedCanonical(info[path]);
        AddLast(Entries(info, paths, n - 1), FirstPaths(info, paths, n - 1), path, list);
      }
    }
  }

  lemma {:induction false} LinesParse(lines: seq<Text>, entries: seq<Entry>)
    requires |lines| == |entries| > 0
    requires forall i :: 0 <= i < |lines| ==> Reads(lines[i], entries[i])
    ensures ParsedInfo(Join(lines, |lines|, NEWLINE)) == AddEntries(entries, |entries|)
  {
    var text := Join(lines, |lines|, NEWLINE);
    forall i | 0 <= i < |lines|
      ensures CleanLine(lines[i]) && ParseLines(lines)[i] == entries[i]
    {
      assert Reads(lines[i], entries[i]);
    }
    JoinedLines(lines, |lines|);
    NothingReplaced(text, |text|);
    assert text[..|text|] == text;
    SplitJoin(lines, |lines|, NEWLINE);
    assert lines[..|lines|] == lines;
    assert ParseLines(lines) == entries;
  }

  lemma {:induction false} EntriesParse(entries: seq<Entry>)
    requires forall i :: 0 <= i < |entries| ==> entries[i].Entry?
    requires forall i :: 0 <= i < |entries| ==> PrintableEntry(entries[i].path, entries[i].list)
    ensures ParsedInfo(LinesText(entries)) == AddEntries(entries, |entries|)
  {
    if entries == [] {
      BlankText(LinesText(entries));
    } else {
      var lines := LinesOf(entries);
      forall i | 0 <= i < |entries|
        ensures Reads(lines[i], entries[i])
      {
        LineReads(entries[i].path, entries[i].list);
      }
      LinesParse(lines, entries);
    }
  }

  lemma {:induction false} PrintedParses(info: Info, paths: seq<Text>)
    requires Lists(paths, info) && PrintableInfo(NormalInfo(info))
    ensures ParsedInfo(PrintedInfo(info, paths)) == Ok(NormalInfo(info))
  {
    var n := |paths|;
    EntriesPrintable(info, paths, n);
    EntriesParse(Entries(info, paths, n));
    EntriesRebuild(info, paths, n);
    assert paths[..n] == paths;
    assert FirstPaths(info, paths, n) == NormalInfo(info);
  }

  lemma {:induction false} BlankText(text: Text)
    requires text == []
    ensures ParsedInfo(text) == Ok(map[])
  {
    var lines := Split(text, NEWLINE);
    assert lines == [[]];
    var entries := ParseLines(lines);
    assert entries[0] == Blank;
    assert AddEntries(entries, 0) == Ok(map[]);
  }

  /** Printing and parsing mergeinfo gives it back in normal form exactly when every path with a
      list is a legal path without a line break, and every revision fits in 64 bits. */
  lemma {:induction false} MergeinfoRoundTrip(info: Info, paths: seq<Text>)
    requires Lists(paths, info)
    ensures ParsedInfo(PrintedInfo(info, paths)) == Ok(NormalInfo(info)) <==> PrintableInfo(NormalInfo(info))
  {
    if PrintableInfo(NormalInfo(info)) {
      PrintedParses(info, paths);
    }
    ParsedInfoIsPrintable(PrintedInfo(info, paths));
  }
}
