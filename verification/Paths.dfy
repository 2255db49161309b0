/** Canonical paths (svn/path): their components, their text, and the order of their bytes. */
module Paths {
  import opened Common
  import opened Decimal
  import opened Strings

  const SLASH: byte := 47
  const DOT: byte := 46

  /** The components that canonicalization keeps. */
  function Kept(parts: seq<Text>, n: nat): seq<Text>
    requires n <= |parts|
  {
    if n == 0 then []
    else if parts[n - 1] == [] || parts[n - 1] == [DOT] then Kept(parts, n - 1)
    else Kept(parts, n - 1) + [parts[n - 1]]
  }

  function Components(path: Text): seq<Text> {
    var parts := Split(path, SLASH);
    Kept(parts, |parts|)
  }

  function FspathCanonicalize(path: Text): Text {
    var kept := Components(path);
    [SLASH] + Join(kept, |kept|, SLASH)
  }

  predicate FspathIsCanonical(path: Text) {
    path != [] && path[0] == SLASH && path == FspathCanonicalize(path)
  }

  predicate HasDotSegment(path: Text) {
    [DOT] in Split(path, SLASH) || [DOT, DOT] in Split(path, SLASH)
  }

  // ----- relative paths -----

  /** A canonical relative path, as its components; the root has none. */
  type Path = seq<Text>

  predicate IsComponent(c: Text) {
    c != [] && c != [DOT] && Without(c, SLASH)
  }

  predicate IsPath(p: Path) {
    forall i :: 0 <= i < |p| ==> IsComponent(p[i])
  }

  function PathText(p: Path): Text {
    Join(p, |p|, SLASH)
  }

  predicate IsAncestor(a: Path, p: Path) {
    a <= p
  }

  function Dirname(p: Path): Path {
    if p == [] then [] else p[..|p| - 1]
  }

  // ----- the order of bytes -----

  /** sort.Strings: s is before t, both being equal up to i. */
  predicate LessFrom(s: Text, t: Text, i: nat)
    requires i <= |s| && i <= |t|
    decreases |s| - i
  {
    if i == |t| then false
    else if i == |s| then true
    else s[i] < t[i] || (s[i] == t[i] && LessFrom(s, t, i + 1))
  }

  predicate Less(s: Text, t: Text) {
    LessFrom(s, t, 0)
  }

  /** The first place where the texts differ, or the length of the shorter. */
  function Differ(s: Text, t: Text, i: nat): (k: nat)
    requires i <= |s| && i <= |t|
    requires forall j :: 0 <= j < i ==> s[j] == t[j]
    ensures i <= k <= |s| && k <= |t|
    ensures forall j :: 0 <= j < k ==> s[j] == t[j]
    ensures k < |s| && k < |t| ==> s[k] != t[k]
    ensures LessFrom(s, t, i) <==> k < |t| && (k == |s| || s[k] < t[k])
    decreases |s| - i
  {
    if i < |s| && i < |t| && s[i] == t[i] then Differ(s, t, i + 1) else i
  }

  lemma {:induction false} LessTransitive(s: Text, t: Text, u: Text)
    requires Less(s, t) && Less(t, u)
    ensures Less(s, u)
  {
    var j, k, m := Differ(s, t, 0), Differ(t, u, 0), Differ(s, u, 0);
    assert m >= j || m >= k;
  }

  lemma {:induction false} LessTotal(s: Text, t: Text)
    ensures Less(s, t) || Less(t, s) || s == t
    ensures !(Less(s, t) && Less(t, s)) && !Less(s, s)
  {
    var j, k := Differ(s, t, 0), Differ(t, s, 0);
    var _ := Differ(s, s, 0);
    assert j == k;
  }

  /** Whatever lies between two texts with a common beginning has that beginning. */
  lemma {:induction false} BetweenSharesPrefix(prefix: Text, s: Text, t: Text, u: Text)
    requires prefix <= s && prefix <= u
    requires (s == t || Less(s, t)) && (t == u || Less(t, u))
    ensures prefix <= t
  {
    if s != t && t != u {
      var j, k := Differ(s, t, 0), Differ(t, u, 0);
    }
  }

  // ----- texts of paths -----

  lemma {:induction false} JoinSplits(p: Path)
    requires IsPath(p) && p != []
    ensures Split(PathText(p), SLASH) == p
  {
    SplitJoin(p, |p|, SLASH);
    assert p[..|p|] == p;
  }

  /** Different paths have different texts. */
  lemma {:induction false} TextInjective(p: Path, q: Path)
    requires IsPath(p) && IsPath(q) && PathText(p) == PathText(q)
    ensures p == q
  {
    if p != [] { NotEmpty(p); }
    if q != [] { NotEmpty(q); }
    if p != [] && q != [] {
      JoinSplits(p);
      JoinSplits(q);
    }
  }

  lemma {:induction false} NotEmpty(p: Path)
    requires IsPath(p) && p != []
    ensures PathText(p) != []
  {
    assert IsComponent(p[|p| - 1]);
  }

  /** What stands behind the first n components, when there are more. */
  lemma {:induction false} JoinBegins(p: seq<Text>, m: nat, n: nat)
    requires 0 < m < n <= |p|
    ensures Join(p, m, SLASH) + [SLASH] <= Join(p, n, SLASH)
  {
    if m < n - 1 {
      JoinBegins(p, m, n - 1);
    }
  }

  lemma {:induction false} JoinPrefixes(p: seq<Text>, q: seq<Text>, n: nat)
    requires n <= |p| && n <= |q| && p[..n] == q[..n]
    ensures Join(p, n, SLASH) == Join(q, n, SLASH)
  {
    if n > 0 {
      assert p[n - 1] == p[..n][n - 1] == q[n - 1];
      assert p[..n - 1] == p[..n][..n - 1] && q[..n - 1] == q[..n][..n - 1];
      JoinPrefixes(p, q, n - 1);
    }
  }

  /** A path lies under another exactly when its text goes on behind the other's with a slash. */
  lemma {:induction false} UnderExactly(a: Path, p: Path)
    requires IsPath(a) && IsPath(p) && a != []
    ensures a < p <==> PathText(a) + [SLASH] <= PathText(p)
  {
    if a < p {
      assert p[..|a|] == a && a[..|a|] == a;
      JoinPrefixes(a, p, |a|);
      JoinBegins(p, |a|, |p|);
    }
    if PathText(a) + [SLASH] <= PathText(p) {
      var (s, t) := (PathText(a), PathText(p));
      var rest := t[|s| + 1..];
      assert t == s + [SLASH] + rest;
      if p != [] {
        JoinSplits(a);
        JoinSplits(p);
        SplitGoesOn(s, rest);
      }
    }
  }

  lemma {:induction false} SplitGoesOn(s: Text, rest: Text)
    ensures Split(s, SLASH) < Split(s + [SLASH] + rest, SLASH)
  {
    var t := s + [SLASH] + rest;
    ScanPrefix(t, s, |s|, SLASH);
    assert t[|s|] == SLASH;
    assert SplitScan(t, |s| + 1, SLASH) == Pieces(Split(s, SLASH), []);
    ScanKeeps(t, |s| + 1, |t|);
  }

  lemma {:induction false} ScanKeeps(t: Text, m: nat, n: nat)
    requires m <= n <= |t|
    ensures SplitScan(t, m, SLASH).done <= SplitScan(t, n, SLASH).done
    decreases n - m
  {
    if m < n {
      ScanKeeps(t, m, n - 1);
    }
  }
}
