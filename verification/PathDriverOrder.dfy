/** Which targets the path driver visits, and when it has to open a directory twice
    (delta/pathdriver.go): a matter of the order of bytes. */
module PathDriverOrder {
  import opened Common
  import opened Decimal
  import opened Strings
  import opened Paths
  import opened PathDriver

  // ----- sorting -----

  lemma {:induction false} BeforeTotal(p: Path, q: Path)
    requires IsPath(p) && IsPath(q)
    ensures p == q || Before(p, q) || Before(q, p)
    ensures !(Before(p, q) && Before(q, p)) && !Before(p, p)
  {
    LessTotal(PathText(p), PathText(q));
    LessTotal(PathText(p), PathText(p));
    if PathText(p) == PathText(q) {
      TextInjective(p, q);
    }
  }

  lemma {:induction false} InsertAdds(p: Path, sorted: seq<Path>)
    ensures multiset(Insert(p, sorted)) == multiset(sorted) + multiset{p}
  {
    if !(sorted == [] || p == sorted[0] || Before(p, sorted[0])) {
      InsertAdds(p, sorted[1..]);
      assert sorted == [sorted[0]] + sorted[1..];
    }
  }

  lemma {:induction false} InsertMembers(p: Path, sorted: seq<Path>)
    ensures forall i :: 0 <= i < |Insert(p, sorted)| ==> Insert(p, sorted)[i] == p || Insert(p, sorted)[i] in sorted
  {
    InsertAdds(p, sorted);
    forall i | 0 <= i < |Insert(p, sorted)|
      ensures Insert(p, sorted)[i] == p || Insert(p, sorted)[i] in sorted
    {
      assert Insert(p, sorted)[i] in multiset(Insert(p, sorted));
    }
  }

  lemma {:induction false} InsertSorts(p: Path, sorted: seq<Path>)
    requires IsPath(p) && (forall i :: 0 <= i < |sorted| ==> IsPath(sorted[i])) && Sorted(sorted)
    ensures Sorted(Insert(p, sorted))
  {
    if sorted == [] || p == sorted[0] || Before(p, sorted[0]) {
      forall j | 0 <= j < |sorted|
        ensures p == sorted[j] || Before(p, sorted[j])
      {
        if p != sorted[0] && sorted[0] != sorted[j] {
          LessTransitive(PathText(p), PathText(sorted[0]), PathText(sorted[j]));
        }
      }
    } else {
      var rest := Insert(p, sorted[1..]);
      InsertSorts(p, sorted[1..]);
      InsertMembers(p, sorted[1..]);
      BeforeTotal(p, sorted[0]);
      forall j | 0 <= j < |rest|
        ensures sorted[0] == rest[j] || Before(sorted[0], rest[j])
      {
        assert rest[j] in sorted[1..] || rest[j] == p;
      }
    }
  }

  ghost predicate AllPaths(paths: seq<Path>) {
    forall i :: 0 <= i < |paths| ==> IsPath(paths[i])
  }

  lemma {:induction false} SameElements(a: seq<Path>, b: seq<Path>)
    requires multiset(a) == multiset(b) && AllPaths(b)
    ensures AllPaths(a) && forall p :: p in a <==> p in b
  {
    assert forall p :: p in a <==> p in multiset(a);
    assert forall p :: p in b <==> p in multiset(b);
    forall i | 0 <= i < |a|
      ensures IsPath(a[i])
    {
      assert a[i] in b;
    }
  }

  /** Sorting is a sorted permutation. */
  lemma {:induction false} SortSorts(paths: seq<Path>)
    requires AllPaths(paths)
    ensures Sorted(Sort(paths)) && multiset(Sort(paths)) == multiset(paths) && AllPaths(Sort(paths))
  {
    if paths != [] {
      SortSorts(paths[1..]);
      InsertSorts(paths[0], Sort(paths[1..]));
      InsertAdds(paths[0], Sort(paths[1..]));
      assert paths == [paths[0]] + paths[1..];
      SameElements(Sort(paths), paths);
    }
  }

  ghost predicate Distinct(paths: seq<Path>) {
    forall i, j :: 0 <= i < j < |paths| ==> paths[i] != paths[j]
  }

  /** The comparison with the previous path finds every repetition. */
  lemma {:induction false} NeighboursSuffice(sorted: seq<Path>)
    requires AllPaths(sorted) && Sorted(sorted)
    ensures NoRepeats(sorted, |sorted|) <==> Distinct(sorted)
  {
    if NoRepeats(sorted, |sorted|) {
      forall i, j | 0 <= i < j < |sorted|
        ensures sorted[i] != sorted[j]
      {
        assert !Repeats(sorted, i + 1);
        BeforeTotal(sorted[i], sorted[i + 1]);
        assert i + 1 < j ==> sorted[i + 1] == sorted[j] || Before(sorted[i + 1], sorted[j]);
      }
    }
  }

  lemma {:induction false} DistinctMultiset(a: seq<Path>, b: seq<Path>)
    requires multiset(a) == multiset(b) && Distinct(a)
    ensures Distinct(b)
  {
    forall i, j | 0 <= i < j < |b|
      ensures b[i] != b[j]
    {
      if b[i] == b[j] {
        CountTwo(b, i, j);
        CountOne(a, b[i]);
        assert false;
      }
    }
  }

  lemma {:induction false} CountTwo(s: seq<Path>, i: nat, j: nat)
    requires i < j < |s| && s[i] == s[j]
    ensures multiset(s)[s[i]] >= 2
  {
    assert s == s[..j] + s[j..];
    assert s[j..] == [s[j]] + s[j + 1..];
    assert s[..j][i] == s[i];
    assert multiset(s) == multiset(s[..j]) + multiset(s[j..]);
    assert multiset(s[j..]) == multiset{s[j]} + multiset(s[j + 1..]);
    assert s[i] in multiset(s[..j]);
  }

  lemma {:induction false} CountOne(s: seq<Path>, p: Path)
    requires Distinct(s)
    ensures multiset(s)[p] <= 1
  {
    if s != [] {
      CountOne(s[1..], p);
      assert s == [s[0]] + s[1..];
      if p == s[0] {
        assert p !in s[1..];
      }
    }
  }

  lemma {:induction false} ComponentsArePath(text: Text)
    ensures IsPath(Components(text))
  {
    var parts := Split(text, SLASH);
    PartsWithout(text, |text|);
    KeptArePath(parts, |parts|);
  }

  lemma {:induction false} PartsWithout(s: Text, n: nat)
    requires n <= |s|
    ensures var scan := SplitScan(s, n, SLASH);
            Without(scan.last, SLASH) && forall i :: 0 <= i < |scan.done| ==> Without(scan.done[i], SLASH)
  {
    if n > 0 { PartsWithout(s, n - 1); }
  }

  lemma {:induction false} KeptArePath(parts: seq<Text>, n: nat)
    requires n <= |parts| && forall i :: 0 <= i < |parts| ==> Without(parts[i], SLASH)
    ensures IsPath(Kept(parts, n))
  {
    if n > 0 { KeptArePath(parts, n - 1); }
  }

  // ----- every target once, in order -----

  function Targets(log: seq<Event>, n: nat): seq<Path>
    requires n <= |log|
  {
    if n == 0 then []
    else if log[n - 1].Called? then Targets(log, n - 1) + [log[n - 1].path]
    else Targets(log, n - 1)
  }

  /** How often a directory is opened, by the driver or by the callback. */
  function OpenCount(log: seq<Event>, n: nat, x: Path): nat
    requires n <= |log|
  {
    if n == 0 then 0 else OpenCount(log, n - 1, x) + if OpensPath(log[n - 1], x) then 1 else 0
  }

  predicate OpensPath(e: Event, x: Path) {
    (e.Opened? && e.path == x) || (e.Called? && e.given.Some? && e.path == x)
  }

  lemma {:induction false} LogPrefix(a: seq<Event>, b: seq<Event>, n: nat, x: Path)
    requires n <= |a| && n <= |b| && forall i :: 0 <= i < n ==> a[i] == b[i]
    ensures Targets(a, n) == Targets(b, n) && OpenCount(a, n, x) == OpenCount(b, n, x)
  {
    if n > 0 { LogPrefix(a, b, n - 1, x); }
  }

  lemma {:induction false} LogMore(log: seq<Event>, e: Event, x: Path)
    ensures Targets(log + [e], |log| + 1) == Targets(log, |log|) + if e.Called? then [e.path] else []
    ensures OpenCount(log + [e], |log| + 1, x) == OpenCount(log, |log|, x) + if OpensPath(e, x) then 1 else 0
  {
    LogPrefix(log, log + [e], |log|, x);
  }

  function Visited(d: Drive): seq<Path> {
    Targets(d.log, |d.log|)
  }

  function Opens(d: Drive, x: Path): nat {
    OpenCount(d.log, |d.log|, x)
  }

  lemma {:induction false} PopOpens(d: Drive, parent: Path, x: Path)
    requires d.stack != []
    ensures Visited(PopTo(d, parent)) == Visited(d) && Opens(PopTo(d, parent), x) == Opens(d, x)
    decreases |d.stack|
  {
    if |d.stack| > 1 && !IsAncestor(Top(d).path, parent) {
      LogMore(d.log, Closed(Top(d).node), x);
      PopOpens(CloseTop(d), parent, x);
    }
  }

  lemma {:induction false} PushOpens(d: Drive, parent: Path, x: Path)
    requires d.stack != [] && Top(d).path <= parent
    ensures Visited(PushTo(d, parent)) == Visited(d)
    ensures Opens(PushTo(d, parent), x) == Opens(d, x) + if Top(d).path < x && x <= parent then 1 else 0
    decreases |parent| - |Top(d).path|
  {
    var top := Top(d).path;
    if top < parent {
      var next := parent[..|top| + 1];
      LogMore(d.log, Opened(Top(d).node, next, d.count), x);
      PushOpens(OpenBelow(d, next), parent, x);
      if top < x && x <= parent && x != next {
        assert x[..|top| + 1] == next;
      }
    }
  }

  lemma {:induction false} CloseOpens(d: Drive, x: Path)
    requires d.stack != []
    ensures Visited(CloseAll(d)) == Visited(d) && Opens(CloseAll(d), x) == Opens(d, x)
    decreases |d.stack|
  {
    if |d.stack| > 1 {
      LogMore(d.log, Closed(Top(d).node), x);
      CloseOpens(CloseTop(d), x);
    }
  }

  /** The directories that are opened on the way from one place to the next target. */
  predicate OpenedOn(q: Path, path: Path, opens: set<Path>, x: Path) {
    (x <= Dirname(path) && !(x <= q)) || (x == path && path in opens)
  }

  lemma {:induction false} BelowShared(q: Path, parent: Path, x: Path)
    ensures q[..Shared(q, parent)] < x && x <= parent <==> x <= parent && !(x <= q)
  {
    var n := Shared(q, parent);
    if x <= parent {
      assert x == parent[..|x|];
      if |x| <= n {
        assert x == parent[..n][..|x|] == q[..n][..|x|] == q[..|x|];
      } else {
        assert x[..n] == parent[..n];
        if n < |q| {
          assert x[n] == parent[n] != q[n];
        }
      }
    }
  }

  lemma {:induction false} StepOpens(d: Drive, q: Path, path: Path, opens: set<Path>, x: Path)
    requires WellDriven(d) && Chain(d.stack, q) && path != []
    ensures Visited(Step(d, path, opens)) == Visited(d) + [path]
    ensures Opens(Step(d, path, opens), x) == Opens(d, x) + if OpenedOn(q, path, opens, x) then 1 else 0
  {
    var parent := Dirname(path);
    var n := Shared(q, parent);
    PopIs(d, q, parent);
    PopOpens(d, parent, x);
    PrefixChain(d.stack, q, n);
    SharedIs(q, parent, n);
    var popped := PopTo(d, parent);
    assert q[..n][..n] == q[..n];
    PushOpens(popped, parent, x);
    BelowShared(q, parent, x);
    var pushed := PushTo(popped, parent);
    LogMore(pushed.log, PathDriver.Called(Top(pushed).node, path, if path in opens then Some(pushed.count) else None), x);
    assert |path| > |parent|;
  }

  predicate OpenedAt(paths: seq<Path>, opens: set<Path>, i: nat, x: Path)
    requires i < |paths|
  {
    OpenedOn(Innermost(paths, opens, i), paths[i], opens, x)
  }

  /** On how many of the first n steps the directory is opened. */
  function Times(paths: seq<Path>, opens: set<Path>, n: nat, x: Path): nat
    requires n <= |paths|
  {
    if n == 0 then 0 else Times(paths, opens, n - 1, x) + if OpenedAt(paths, opens, n - 1, x) then 1 else 0
  }

  lemma {:induction false} OneMoreStep(paths: seq<Path>, opens: set<Path>, n: nat, x: Path)
    requires n < |paths| && [] !in paths
    ensures Visited(Steps(paths, opens, n + 1)) == Visited(Steps(paths, opens, n)) + [paths[n]]
    ensures Opens(Steps(paths, opens, n + 1), x) ==
            Opens(Steps(paths, opens, n), x) + if OpenedAt(paths, opens, n, x) then 1 else 0
  {
    StepsDriven(paths, opens, n);
    StepOpens(Steps(paths, opens, n), Innermost(paths, opens, n), paths[n], opens, x);
  }

  ghost predicate AddsTarget(paths: seq<Path>, visits: seq<seq<Path>>, i: nat)
    requires i < |paths| == |visits| - 1
  {
    visits[i + 1] == visits[i] + [paths[i]]
  }

  lemma {:induction false} TargetsAddUp(paths: seq<Path>, visits: seq<seq<Path>>, n: nat)
    requires n <= |paths| == |visits| - 1 && visits[0] == []
    requires forall i :: 0 <= i < |paths| ==> AddsTarget(paths, visits, i)
    ensures visits[n] == paths[..n]
  {
    if n > 0 {
      TargetsAddUp(paths, visits, n - 1);
      assert AddsTarget(paths, visits, n - 1);
      assert paths[..n] == paths[..n - 1] + [paths[n - 1]];
    }
  }

  function VisitsOf(paths: seq<Path>, opens: set<Path>): (visits: seq<seq<Path>>)
    ensures |visits| == |paths| + 1
  {
    seq(|paths| + 1, i requires 0 <= i <= |paths| => Visited(Steps(paths, opens, i)))
  }

  lemma {:induction false} VisitsAdd(paths: seq<Path>, opens: set<Path>, i: nat)
    requires i < |paths| && [] !in paths
    ensures AddsTarget(paths, VisitsOf(paths, opens), i)
  {
    var visits := VisitsOf(paths, opens);
    VisitsAt(paths, opens, i);
    VisitsAt(paths, opens, i + 1);
    OneMoreStep(paths, opens, i, []);
  }

  lemma {:induction false} VisitsAt(paths: seq<Path>, opens: set<Path>, i: nat)
    requires i <= |paths|
    ensures VisitsOf(paths, opens)[i] == Visited(Steps(paths, opens, i))
  {
  }

  lemma {:induction false} VisitsStart(paths: seq<Path>, opens: set<Path>)
    ensures VisitsOf(paths, opens)[0] == []
  {
  }

  lemma {:induction false} StepsVisit(paths: seq<Path>, opens: set<Path>, visits: seq<seq<Path>>, n: nat)
    requires n <= |paths| && [] !in paths && visits == VisitsOf(paths, opens)
    ensures visits[n] == paths[..n]
  {
    forall i | 0 <= i < |paths|
      ensures AddsTarget(paths, visits, i)
    {
      VisitsAdd(paths, opens, i);
    }
    VisitsStart(paths, opens);
    TargetsAddUp(paths, visits, n);
  }

  ghost predicate AddsOpening(paths: seq<Path>, opens: set<Path>, counts: seq<nat>, x: Path, i: nat)
    requires i < |paths| == |counts| - 1
  {
    counts[i + 1] == counts[i] + if OpenedAt(paths, opens, i, x) then 1 else 0
  }

  lemma {:induction false} OpeningsAddUp(paths: seq<Path>, opens: set<Path>, counts: seq<nat>, x: Path, n: nat)
    requires n <= |paths| == |counts| - 1 && counts[0] == 0
    requires forall i :: 0 <= i < |paths| ==> AddsOpening(paths, opens, counts, x, i)
    ensures counts[n] == Times(paths, opens, n, x)
  {
    if n > 0 {
      OpeningsAddUp(paths, opens, counts, x, n - 1);
      assert AddsOpening(paths, opens, counts, x, n - 1);
    }
  }

  function OpeningsOf(paths: seq<Path>, opens: set<Path>, x: Path): (counts: seq<nat>)
    ensures |counts| == |paths| + 1
  {
    seq(|paths| + 1, i requires 0 <= i <= |paths| => Opens(Steps(paths, opens, i), x))
  }

  lemma {:induction false} OpeningsAdd(paths: seq<Path>, opens: set<Path>, x: Path, i: nat)
    requires i < |paths| && [] !in paths
    ensures AddsOpening(paths, opens, OpeningsOf(paths, opens, x), x, i)
  {
    OpeningsAt(paths, opens, x, i);
    OpeningsAt(paths, opens, x, i + 1);
    OneMoreStep(paths, opens, i, x);
  }

  lemma {:induction false} OpeningsAt(paths: seq<Path>, opens: set<Path>, x: Path, i: nat)
    requires i <= |paths|
    ensures OpeningsOf(paths, opens, x)[i] == Opens(Steps(paths, opens, i), x)
  {
  }

  lemma {:induction false} OpeningsStart(paths: seq<Path>, opens: set<Path>, x: Path)
    ensures OpeningsOf(paths, opens, x)[0] == 0
  {
  }

  lemma {:induction false} StepsOpen(paths: seq<Path>, opens: set<Path>, counts: seq<nat>, n: nat, x: Path)
    requires n <= |paths| && [] !in paths && counts == OpeningsOf(paths, opens, x)
    ensures counts[n] == Times(paths, opens, n, x)
  {
    forall i | 0 <= i < |paths|
      ensures AddsOpening(paths, opens, counts, x, i)
    {
      OpeningsAdd(paths, opens, x, i);
    }
    OpeningsStart(paths, opens, x);
    OpeningsAddUp(paths, opens, counts, x, n);
  }

  /** The whole drive calls back exactly once for every target, in sorted order. */
  lemma {:induction false} TargetsOnce(paths: seq<Path>, opens: set<Path>)
    requires AllPaths(paths) && [] !in paths && Distinct(paths)
    ensures var sorted := Sort(paths);
            && NoRepeats(sorted, |sorted|) && multiset(sorted) == multiset(paths)
            && Visited(CloseAll(Steps(sorted, opens, |sorted|))) == sorted
  {
    var sorted := Sort(paths);
    SortSorts(paths);
    SameElements(sorted, paths);
    DistinctMultiset(paths, sorted);
    NeighboursSuffice(sorted);
    StepsVisit(sorted, opens, VisitsOf(sorted, opens), |sorted|);
    CloseOpens(Steps(sorted, opens, |sorted|), []);
    assert sorted[..|sorted|] == sorted;
  }

  // ----- when a directory has to be opened twice -----

  lemma {:induction false} TimesTwo(paths: seq<Path>, opens: set<Path>, n: nat, x: Path, i: nat, k: nat)
    requires i < k < n <= |paths| && OpenedAt(paths, opens, i, x) && OpenedAt(paths, opens, k, x)
    ensures Times(paths, opens, n, x) >= 2
  {
    if k < n - 1 {
      TimesTwo(paths, opens, n - 1, x, i, k);
    } else {
      TimesOne(paths, opens, k, x, i);
    }
  }

  lemma {:induction false} TimesOne(paths: seq<Path>, opens: set<Path>, n: nat, x: Path, i: nat)
    requires i < n <= |paths| && OpenedAt(paths, opens, i, x)
    ensures Times(paths, opens, n, x) >= 1
  {
    if i < n - 1 { TimesOne(paths, opens, n - 1, x, i); }
  }

  lemma {:induction false} WhichOne(paths: seq<Path>, opens: set<Path>, n: nat, x: Path) returns (i: nat)
    requires n <= |paths| && Times(paths, opens, n, x) >= 1
    ensures i < n && OpenedAt(paths, opens, i, x)
  {
    if OpenedAt(paths, opens, n - 1, x) {
      i := n - 1;
    } else {
      i := WhichOne(paths, opens, n - 1, x);
    }
  }

  lemma {:induction false} WhichTwo(paths: seq<Path>, opens: set<Path>, n: nat, x: Path) returns (i: nat, k: nat)
    requires n <= |paths| && Times(paths, opens, n, x) >= 2
    ensures i < k < n && OpenedAt(paths, opens, i, x) && OpenedAt(paths, opens, k, x)
  {
    if OpenedAt(paths, opens, n - 1, x) {
      k := n - 1;
      i := WhichOne(paths, opens, n - 1, x);
    } else {
      i, k := WhichTwo(paths, opens, n - 1, x);
    }
  }

  /** A target `a` whose callback returns an editor, a target r under it, and a target q whose
      text goes on behind a's with a byte that is less than the slash. */
  ghost predicate Clash(paths: seq<Path>, opens: set<Path>, a: Path, q: Path, r: Path) {
    && a in paths && q in paths && r in paths && a in opens
    && a < r
    && Interrupts(a, q)
  }

  predicate Interrupts(a: Path, q: Path) {
    var (s, t) := (PathText(a), PathText(q));
    s < t && t[|s|] < SLASH
  }

  /** A text between a text and the same text with a slash behind it. */
  lemma {:induction false} BetweenSlash(s: Text, t: Text, u: Text)
    requires Less(s, t) && Less(t, u) && s + [SLASH] <= u
    ensures s < t && t[|s|] <= SLASH
  {
    BetweenSharesPrefix(s, s, t, u);
    var j, k := Differ(s, t, 0), Differ(t, u, 0);
    assert u[|s|] == SLASH;
    assert s != t;
  }

  lemma {:induction false} BelowSlash(s: Text, t: Text, u: Text)
    requires s < t && t[|s|] < SLASH && s + [SLASH] <= u
    ensures Less(s, t) && Less(t, u)
  {
    var j, k := Differ(s, t, 0), Differ(t, u, 0);
    assert u[|s|] == SLASH;
    assert k <= |s|;
  }

  ghost predicate GoodInput(paths: seq<Path>) {
    AllPaths(paths) && [] !in paths && Sorted(paths) && Distinct(paths)
  }

  lemma {:induction false} InOrder(paths: seq<Path>, i: nat, j: nat)
    requires GoodInput(paths) && i < |paths| && j < |paths|
    ensures i < j <==> Before(paths[i], paths[j])
  {
    BeforeTotal(paths[i], paths[j]);
  }

  lemma {:induction false} UnderIsBehind(a: Path, p: Path)
    requires IsPath(a) && IsPath(p) && a < p
    ensures Before(a, p)
  {
    if a != [] {
      UnderExactly(a, p);
    } else {
      NotEmpty(p);
    }
    var k := Differ(PathText(a), PathText(p), 0);
  }

  /** The first place behind i where x is no longer open. */
  lemma {:induction false} LeavesAt(paths: seq<Path>, opens: set<Path>, i: nat, k: nat, x: Path) returns (j: nat)
    requires i < k <= |paths| && x <= Innermost(paths, opens, i + 1) && !(x <= Innermost(paths, opens, k))
    ensures i < j < k && x <= Innermost(paths, opens, j) && !(x <= Innermost(paths, opens, j + 1))
    decreases k - i
  {
    if x <= Innermost(paths, opens, k - 1) && k - 1 > i {
      j := k - 1;
    } else {
      j := LeavesAt(paths, opens, i, k - 1, x);
    }
  }

  lemma {:induction false} DirnameUnder(x: Path, p: Path)
    requires p != []
    ensures x <= Dirname(p) <==> x < p
  {
    if x < p {
      assert Dirname(p)[..|x|] == p[..|x|];
    }
  }

  /** The second opening of a directory is on the way to a target below it. */
  lemma {:induction false} SecondIsBelow(paths: seq<Path>, opens: set<Path>, x: Path, i: nat, k: nat)
    requires GoodInput(paths) && i < k < |paths|
    requires OpenedAt(paths, opens, i, x) && OpenedAt(paths, opens, k, x)
    ensures x != [] && IsPath(x) && x < paths[k] && x <= Innermost(paths, opens, i + 1)
    ensures !(x <= Innermost(paths, opens, k))
  {
    var p, r := paths[i], paths[k];
    InOrder(paths, i, k);
    DirnameUnder(x, p);
    DirnameUnder(x, r);
    PrefixIsPath(x, r);
    if x < p {
      UnderIsBehind(x, p);
      BeforeTotal(x, p);
      BeforeTotal(p, r);
      LessTotal(PathText(p), PathText(r));
    }
  }

  /** Between an opening of x and its next one lies a target that left x, and its text goes on
      behind x's with a byte below the slash. */
  lemma {:induction false} LeaverInterrupts(paths: seq<Path>, x: Path, i: nat, j: nat, k: nat)
    requires GoodInput(paths) && i < j < k < |paths| && IsPath(x) && x != []
    requires x <= paths[i] && !(x < paths[j]) && x < paths[k]
    ensures x == paths[i] && Interrupts(x, paths[j])
  {
    var p, q, r := paths[i], paths[j], paths[k];
    InOrder(paths, i, j);
    InOrder(paths, j, k);
    UnderExactly(x, p);
    UnderExactly(x, q);
    UnderExactly(x, r);
    if x < p {
      BetweenSharesPrefix(PathText(x) + [SLASH], PathText(p), PathText(q), PathText(r));
    } else {
      assert x == p;
      var (s, t) := (PathText(x), PathText(q));
      BetweenSlash(s, t, PathText(r));
      assert t[|s|] == SLASH ==> s + [SLASH] <= t;
    }
  }

  /** Opening a directory twice takes an interrupting target. */
  lemma {:induction false} TwiceNeedsClash(paths: seq<Path>, opens: set<Path>, x: Path, i: nat, k: nat)
    requires GoodInput(paths) && i < k < |paths|
    requires OpenedAt(paths, opens, i, x) && OpenedAt(paths, opens, k, x)
    ensures exists q, r :: Clash(paths, opens, x, q, r)
  {
    SecondIsBelow(paths, opens, x, i, k);
    DirnameUnder(x, paths[i]);
    var j := LeavesAt(paths, opens, i, k, x);
    DirnameUnder(x, paths[j]);
    LeaverInterrupts(paths, x, i, j, k);
    assert Clash(paths, opens, x, paths[j], paths[k]);
  }

  lemma {:induction false} OpensAgain(paths: seq<Path>, opens: set<Path>, j: nat, k: nat, x: Path) returns (m: nat)
    requires j < k < |paths| && [] !in paths
    requires !(x <= Innermost(paths, opens, j + 1)) && x <= Innermost(paths, opens, k + 1)
    ensures j < m <= k && OpenedAt(paths, opens, m, x)
    decreases k - j
  {
    if x <= Innermost(paths, opens, k) && k > j + 1 {
      m := OpensAgain(paths, opens, j, k - 1, x);
    } else {
      m := k;
      DirnameUnder(x, paths[k]);
    }
  }

  lemma {:induction false} InterruptedIsNotUnder(a: Path, q: Path)
    requires IsPath(a) && IsPath(q) && a != [] && Interrupts(a, q)
    ensures !(a <= q)
  {
    UnderExactly(a, q);
    var s := PathText(a);
    assert (s + [SLASH])[|s|] == SLASH;
    assert a <= q && !(a < q) ==> a == q;
  }

  /** And an interrupting target makes the driver open the directory again. */
  lemma {:induction false} ClashOpensTwice(paths: seq<Path>, opens: set<Path>, a: Path, q: Path, r: Path)
    requires GoodInput(paths) && Clash(paths, opens, a, q, r)
    ensures exists i, k :: 0 <= i < k < |paths| && OpenedAt(paths, opens, i, a) && OpenedAt(paths, opens, k, a)
  {
    var i :| 0 <= i < |paths| && paths[i] == a;
    var j :| 0 <= j < |paths| && paths[j] == q;
    var k :| 0 <= k < |paths| && paths[k] == r;
    UnderExactly(a, r);
    BelowSlash(PathText(a), PathText(q), PathText(r));
    InOrder(paths, i, j);
    InOrder(paths, j, k);
    InterruptedIsNotUnder(a, q);
    DirnameUnder(a, q);
    DirnameUnder(a, r);
    var m := OpensAgain(paths, opens, j, k, a);
    assert OpenedAt(paths, opens, i, a) && OpenedAt(paths, opens, m, a);
  }

  /** A directory is opened more than once exactly when it is itself a target whose callback
      returns an editor, some target below it follows, and between them stands a target whose
      text goes on behind its own with a byte below the slash. */
  lemma {:induction false} OpenedTwiceExactly(paths: seq<Path>, opens: set<Path>, x: Path)
    requires GoodInput(paths)
    ensures Opens(CloseAll(Steps(paths, opens, |paths|)), x) >= 2 <==> exists q, r :: Clash(paths, opens, x, q, r)
  {
    var n := |paths|;
    StepsOpen(paths, opens, OpeningsOf(paths, opens, x), n, x);
    CloseOpens(Steps(paths, opens, n), x);
    if Times(paths, opens, n, x) >= 2 {
      var i, k := WhichTwo(paths, opens, n, x);
      TwiceNeedsClash(paths, opens, x, i, k);
    }
    if q, r :| Clash(paths, opens, x, q, r) {
      ClashOpensTwice(paths, opens, x, q, r);
      var i, k :| 0 <= i < k < n && OpenedAt(paths, opens, i, x) && OpenedAt(paths, opens, k, x);
      TimesTwo(paths, opens, n, x, i, k);
    }
  }

  /** No byte of the path is below the slash. */
  predicate HighBytes(p: Path) {
    forall i :: 0 <= i < |PathText(p)| ==> PathText(p)[i] >= SLASH
  }

  /** Where no path has a byte below the slash, no directory is opened twice. */
  lemma {:induction false} HighBytesOpenOnce(paths: seq<Path>, opens: set<Path>, x: Path)
    requires GoodInput(paths) && forall i :: 0 <= i < |paths| ==> HighBytes(paths[i])
    ensures Opens(CloseAll(Steps(paths, opens, |paths|)), x) <= 1
  {
    OpenedTwiceExactly(paths, opens, x);
    forall q, r
      ensures !Clash(paths, opens, x, q, r)
    {
      if q in paths {
        var j :| 0 <= j < |paths| && paths[j] == q;
        assert HighBytes(paths[j]);
      }
    }
  }

  lemma {:induction false} PrefixIsPath(x: Path, p: Path)
    requires x <= p && IsPath(p)
    ensures IsPath(x)
  {
    forall i | 0 <= i < |x|
      ensures IsComponent(x[i])
    {
      assert x[i] == p[i];
    }
  }

  /** Any distinct non-empty targets become good input when they are canonicalized and sorted, so
      all of the above is about every drive that ends without an error. */
  lemma {:induction false} SortedIsGood(paths: seq<Text>)
    requires [] !in Canonical(paths) && Distinct(Canonical(paths))
    ensures GoodInput(Sort(Canonical(paths)))
    ensures multiset(Sort(Canonical(paths))) == multiset(Canonical(paths))
  {
    var canonical := Canonical(paths);
    forall i | 0 <= i < |canonical|
      ensures IsPath(canonical[i])
    {
      ComponentsArePath(paths[i]);
    }
    SortSorts(canonical);
    SameElements(Sort(canonical), canonical);
    DistinctMultiset(canonical, Sort(canonical));
  }
}
