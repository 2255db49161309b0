/** The functions of Go's strings package that the text formats use, on ASCII text. */
module Strings {
  import opened Common
  import opened Decimal

  /** The bytes of an ASCII text. */
  function Ascii(s: string): (t: Text)
    requires forall i :: 0 <= i < |s| ==> s[i] < 128 as char
    ensures |t| == |s|
  {
    seq(|s|, i requires 0 <= i < |s| => s[i] as int)
  }

  /** The pieces that are complete, and the one that is still growing. */
  datatype Pieces = Pieces(done: seq<Text>, last: Text)

  /** The first n bytes of s, split at every separator. */
  function SplitScan(s: Text, n: nat, sep: byte): Pieces
    requires n <= |s|
  {
    if n == 0 then Pieces([], [])
    else
      var before := SplitScan(s, n - 1, sep);
      if s[n - 1] == sep then Pieces(before.done + [before.last], [])
      else Pieces(before.done, before.last + [s[n - 1]])
  }

  /** There is always at least one piece. */
  function Split(s: Text, sep: byte): (pieces: seq<Text>)
    ensures pieces != []
  {
    var scan := SplitScan(s, |s|, sep);
    scan.done + [scan.last]
  }

  /** The first n parts with the separator between them. */
  function Join(parts: seq<Text>, n: nat, sep: byte): Text
    requires n <= |parts|
  {
    if n == 0 then []
    else if n == 1 then parts[0]
    else Join(parts, n - 1, sep) + [sep] + parts[n - 1]
  }

  predicate Without(s: Text, c: byte) {
    forall i :: 0 <= i < |s| ==> s[i] != c
  }

  /** The pieces depend on the scanned bytes alone. */
  lemma {:induction false} ScanPrefix(s: Text, t: Text, n: nat, sep: byte)
    requires n <= |s| && n <= |t| && forall i :: 0 <= i < n ==> s[i] == t[i]
    ensures SplitScan(s, n, sep) == SplitScan(t, n, sep)
  {
    if n > 0 {
      ScanPrefix(s, t, n - 1, sep);
    }
  }

  /** Text without a separator only lengthens the last piece. */
  lemma {:induction false} ScanRun(s: Text, m: nat, t: Text, n: nat, sep: byte)
    requires m + n <= |s| && n <= |t| && Without(t, sep)
    requires forall i :: m <= i < m + n ==> s[i] == t[i - m]
    ensures SplitScan(s, m + n, sep) ==
            Pieces(SplitScan(s, m, sep).done, SplitScan(s, m, sep).last + t[..n])
  {
    var last := SplitScan(s, m, sep).last;
    if n == 0 {
      assert last + t[..n] == last;
    } else {
      ScanRun(s, m, t, n - 1, sep);
      assert s[m + n - 1] == t[n - 1];
      assert last + t[..n - 1] + [t[n - 1]] == last + t[..n];
    }
  }

  lemma {:induction false} ScanLastPart(before: Text, last: Text, sep: byte)
    requires Without(last, sep)
    ensures var s := before + [sep] + last;
            SplitScan(s, |s|, sep) == Pieces(Split(before, sep), last)
  {
    var s := before + [sep] + last;
    ScanPrefix(s, before, |before|, sep);
    assert s[|before|] == sep;
    assert SplitScan(s, |before| + 1, sep) == Pieces(Split(before, sep), []);
    ScanRun(s, |before| + 1, last, |last|, sep);
    assert [] + last[..|last|] == last;
  }

  lemma {:induction false} SplitOne(part: Text, sep: byte)
    requires Without(part, sep)
    ensures Split(part, sep) == [part]
  {
    var start := SplitScan(part, 0, sep);
    ScanRun(part, 0, part, |part|, sep);
    assert start.done == [] && start.last == [];
    assert start.last + part[..|part|] == part;
  }

  lemma {:induction false} SplitLast(before: Text, last: Text, sep: byte)
    requires Without(last, sep)
    ensures Split(before + [sep] + last, sep) == Split(before, sep) + [last]
  {
    ScanLastPart(before, last, sep);
  }

  /** Splitting what was joined gives the parts back. */
  lemma {:induction false} SplitJoin(parts: seq<Text>, n: nat, sep: byte)
    requires 0 < n <= |parts|
    requires forall i :: 0 <= i < n ==> Without(parts[i], sep)
    ensures Split(Join(parts, n, sep), sep) == parts[..n]
  {
    if n == 1 {
      SplitOne(parts[0], sep);
    } else {
      SplitJoin(parts, n - 1, sep);
      SplitLast(Join(parts, n - 1, sep), parts[n - 1], sep);
      assert parts[..n] == parts[..n - 1] + [parts[n - 1]];
    }
  }

  predicate IsSpace(c: byte) {
    TAB <= c <= CARRIAGE_RETURN || c == SPACE
  }

  /** Where the spaces from i on end. */
  function SkipSpaces(s: Text, i: nat): (k: nat)
    requires i <= |s|
    ensures i <= k <= |s|
    decreases |s| - i
  {
    if i < |s| && IsSpace(s[i]) then SkipSpaces(s, i + 1) else i
  }

  /** Where the spaces before n start, but not before lo. */
  function DropSpaces(s: Text, lo: nat, n: nat): (k: nat)
    requires lo <= n <= |s|
    ensures lo <= k <= n
  {
    if lo < n && IsSpace(s[n - 1]) then DropSpaces(s, lo, n - 1) else n
  }

  function TrimSpace(s: Text): Text {
    var lo := SkipSpaces(s, 0);
    s[lo..DropSpaces(s, lo, |s|)]
  }

  lemma {:induction false} TrimNothing(s: Text)
    requires s != [] && !IsSpace(s[0]) && !IsSpace(s[|s| - 1])
    ensures TrimSpace(s) == s
  {
  }

  /** The first place of c in s at or after i, or |s|. */
  function IndexFrom(s: Text, c: byte, i: nat): (k: nat)
    requires i <= |s|
    ensures i <= k <= |s|
    decreases |s| - i
  {
    if i == |s| || s[i] == c then i else IndexFrom(s, c, i + 1)
  }

  lemma {:induction false} IndexFound(s: Text, c: byte, i: nat, k: nat)
    requires i <= k <= |s| && (k == |s| || s[k] == c) && forall j :: i <= j < k ==> s[j] != c
    ensures IndexFrom(s, c, i) == k
    decreases |s| - i
  {
    if i < k {
      IndexFound(s, c, i + 1, k);
    }
  }

  /** One more than the last place of c in s[..n], or 0. */
  function LastIndexBefore(s: Text, c: byte, n: nat): (k: nat)
    requires n <= |s|
    ensures k <= n
  {
    if n == 0 || s[n - 1] == c then n else LastIndexBefore(s, c, n - 1)
  }

  lemma {:induction false} LastIndexFound(s: Text, c: byte, n: nat, k: nat)
    requires k < n <= |s| && s[k] == c && forall j :: k < j < n ==> s[j] != c
    ensures LastIndexBefore(s, c, n) == k + 1
  {
    if k < n - 1 {
      LastIndexFound(s, c, n - 1, k);
    }
  }
}
