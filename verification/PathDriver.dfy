/** The path driver (delta/pathdriver.go): sorted paths drive a directory editor through a stack
    of open directories. */
module PathDriver {
  import opened Common
  import opened Decimal
  import opened Paths

  /** The calls on directory editors. Editors are numbered as they are handed out; the root is 0. */
  datatype Event =
    | Opened(parent: nat, path: Path, node: nat)
    | Called(parent: nat, path: Path, given: Option<nat>)
    | Closed(node: nat)

  datatype Frame = Frame(path: Path, node: nat)

  /** The stack of open directories, the number of editors handed out, and the calls so far. */
  datatype Drive = Drive(stack: seq<Frame>, count: nat, log: seq<Event>)

  const START := Drive([Frame([], 0)], 1, [])

  function Top(d: Drive): Frame
    requires d.stack != []
  {
    d.stack[|d.stack| - 1]
  }

  function CloseTop(d: Drive): Drive
    requires d.stack != []
  {
    Drive(d.stack[..|d.stack| - 1], d.count, d.log + [Closed(Top(d).node)])
  }

  function OpenBelow(d: Drive, path: Path): Drive
    requires d.stack != []
  {
    Drive(d.stack + [Frame(path, d.count)], d.count + 1, d.log + [Opened(Top(d).node, path, d.count)])
  }

  /** Close directories until the innermost is the parent or above it. */
  function PopTo(d: Drive, parent: Path): (r: Drive)
    requires d.stack != []
    ensures r.stack != []
    decreases |d.stack|
  {
    if |d.stack| > 1 && !IsAncestor(Top(d).path, parent) then PopTo(CloseTop(d), parent) else d
  }

  /** Open the directories that are missing between the innermost and the parent. */
  function PushTo(d: Drive, parent: Path): (r: Drive)
    requires d.stack != []
    ensures r.stack != []
    decreases |parent| - |Top(d).path|
  {
    if Top(d).path < parent then PushTo(OpenBelow(d, parent[..|Top(d).path| + 1]), parent) else d
  }

  /** The callback, on the innermost directory; for the paths in `opens` it returns an editor. */
  function Visit(d: Drive, path: Path, opens: set<Path>): (r: Drive)
    requires d.stack != []
    ensures r.stack != []
  {
    if path in opens then
      Drive(d.stack + [Frame(path, d.count)], d.count + 1, d.log + [Called(Top(d).node, path, Some(d.count))])
    else d.(log := d.log + [Called(Top(d).node, path, None)])
  }

  function Step(d: Drive, path: Path, opens: set<Path>): (r: Drive)
    requires d.stack != []
    ensures r.stack != []
  {
    Visit(PushTo(PopTo(d, Dirname(path)), Dirname(path)), path, opens)
  }

  function Steps(paths: seq<Path>, opens: set<Path>, n: nat): (r: Drive)
    requires n <= |paths|
    ensures r.stack != []
  {
    if n == 0 then START else Step(Steps(paths, opens, n - 1), paths[n - 1], opens)
  }

  function CloseAll(d: Drive): (r: Drive)
    requires d.stack != []
    ensures |r.stack| == 1
    decreases |d.stack|
  {
    if |d.stack| > 1 then CloseAll(CloseTop(d)) else d
  }

  // ----- the driver -----

  datatype DriveError = EmptyPath | DuplicatePath(path: Path)

  predicate Before(p: Path, q: Path) {
    Less(PathText(p), PathText(q))
  }

  predicate Sorted(paths: seq<Path>) {
    forall i, j :: 0 <= i < j < |paths| ==> paths[i] == paths[j] || Before(paths[i], paths[j])
  }

  /** What sort.Strings makes of the paths. */
  function Sort(paths: seq<Path>): seq<Path> {
    if paths == [] then [] else Insert(paths[0], Sort(paths[1..]))
  }

  function Insert(p: Path, sorted: seq<Path>): seq<Path> {
    if sorted == [] || p == sorted[0] || Before(p, sorted[0]) then [p] + sorted
    else [sorted[0]] + Insert(p, sorted[1..])
  }

  /** RelpathCanonicalize on every path. */
  function Canonical(paths: seq<Text>): (r: seq<Path>)
    ensures |r| == |paths|
  {
    seq(|paths|, i requires 0 <= i < |paths| => Components(paths[i]))
  }

  predicate Repeats(sorted: seq<Path>, i: nat)
    requires i < |sorted|
  {
    i > 0 && sorted[i] == sorted[i - 1]
  }

  /** The loop over the targets before the drive. */
  method HasEmpty(paths: seq<Path>) returns (found: bool)
    ensures found <==> [] in paths
  {
    for i := 0 to |paths|
      invariant [] !in paths[..i]
    {
      if paths[i] == [] {
        return true;
      }
    }
    assert paths[..|paths|] == paths;
    return false;
  }

  /** The body of the loop over the sorted paths. */
  method DriveTo(before: Drive, path: Path, opens: set<Path>) returns (d: Drive)
    requires before.stack != []
    ensures d == Step(before, path, opens)
  {
    d := before;
    var parent := Dirname(path);
    while |d.stack| > 1 && !IsAncestor(Top(d).path, parent)
      invariant d.stack != [] && PopTo(before, parent) == PopTo(d, parent)
      decreases |d.stack|
    {
      d := CloseTop(d);
    }
    ghost var popped := d;
    while Top(d).path < parent
      invariant d.stack != [] && PushTo(popped, parent) == PushTo(d, parent)
      decreases |parent| - |Top(d).path|
    {
      d := OpenBelow(d, parent[..|Top(d).path| + 1]);
    }
    d := Visit(d, path, opens);
  }

  method CloseRest(before: Drive) returns (d: Drive)
    requires before.stack != []
    ensures d == CloseAll(before)
  {
    d := before;
    while |d.stack| > 1
      invariant d.stack != [] && CloseAll(before) == CloseAll(d)
      decreases |d.stack|
    {
      d := CloseTop(d);
    }
  }

  ghost predicate NoRepeats(sorted: seq<Path>, n: nat)
    requires n <= |sorted|
  {
    forall i :: 0 <= i < n ==> !Repeats(sorted, i)
  }

  /** Either all targets are driven and closed, or the drive stops at the first repeated one. */
  method DriveSorted(sorted: seq<Path>, opens: set<Path>) returns (repeated: Option<nat>, d: Drive)
    ensures match repeated
            case None => NoRepeats(sorted, |sorted|) && d == CloseAll(Steps(sorted, opens, |sorted|))
            case Some(n) => n < |sorted| && NoRepeats(sorted, n) && Repeats(sorted, n) && d == Steps(sorted, opens, n)
  {
    d, repeated := START, None;
    for i := 0 to |sorted|
      invariant d == Steps(sorted, opens, i)
      invariant NoRepeats(sorted, i)
    {
      var path := sorted[i];
      if i > 0 && path == sorted[i - 1] {
        return Some(i), d;
      }
      d := DriveTo(d, path, opens);
    }
    d := CloseRest(d);
  }

  datatype Outcome = Outcome(error: Option<DriveError>, drive: Drive)

  /** An empty target is refused before the drive begins; a repeated one stops it. */
  ghost predicate Drives(sorted: seq<Path>, opens: set<Path>, r: Outcome) {
    match r.error
    case Some(EmptyPath) => r.drive == START
    case None => NoRepeats(sorted, |sorted|) && r.drive == CloseAll(Steps(sorted, opens, |sorted|))
    case Some(DuplicatePath(path)) =>
      exists n :: 0 <= n < |sorted| && StopsAt(sorted, opens, n, path, r.drive)
  }

  ghost predicate StopsAt(sorted: seq<Path>, opens: set<Path>, n: nat, path: Path, d: Drive)
    requires n < |sorted|
  {
    NoRepeats(sorted, n) && Repeats(sorted, n) && path == sorted[n] && d == Steps(sorted, opens, n)
  }

  method PathDriver(paths: seq<Text>, opens: set<Path>) returns (r: Outcome)
    ensures r.error == Some(EmptyPath) <==> [] in Canonical(paths)
    ensures Drives(Sort(Canonical(paths)), opens, r)
  {
    var canonical := Canonical(paths);
    var empty := HasEmpty(canonical);
    if empty {
      return Outcome(Some(EmptyPath), START);
    }
    var sorted := Sort(canonical);
    var repeated, d := DriveSorted(sorted, opens);
    if repeated != None {
      assert StopsAt(sorted, opens, repeated.value, sorted[repeated.value], d);
      return Outcome(Some(DuplicatePath(sorted[repeated.value])), d);
    }
    return Outcome(None, d);
  }

  // ----- a drive that any directory editor could follow -----

  /** The directories open after some calls, if every call was made as it should be: on the
      innermost open directory, which is the parent of the path, with editors closed in the
      reverse of the order in which they were opened. */
  datatype Tracked = Tracked(stack: seq<Frame>, count: nat)

  function Track(t: Option<Tracked>, e: Event): Option<Tracked> {
    match t
    case None => None
    case Some(s) =>
      if s.stack == [] then None
      else
        var top := s.stack[|s.stack| - 1];
        match e
        case Opened(parent, path, node) =>
          if parent == top.node && path != [] && Dirname(path) == top.path && node == s.count
          then Some(Tracked(s.stack + [Frame(path, node)], s.count + 1)) else None
        case Called(parent, path, None) =>
          if parent == top.node && path != [] && Dirname(path) == top.path then t else None
        case Called(parent, path, Some(node)) =>
          if parent == top.node && path != [] && Dirname(path) == top.path && node == s.count
          then Some(Tracked(s.stack + [Frame(path, node)], s.count + 1)) else None
        case Closed(node) =>
          if |s.stack| > 1 && node == top.node then Some(s.(stack := s.stack[..|s.stack| - 1])) else None
  }

  function Tracking(log: seq<Event>, n: nat): Option<Tracked>
    requires n <= |log|
  {
    if n == 0 then Some(Tracked([Frame([], 0)], 1)) else Track(Tracking(log, n - 1), log[n - 1])
  }

  lemma {:induction false} TrackingPrefix(a: seq<Event>, b: seq<Event>, n: nat)
    requires n <= |a| && n <= |b| && forall i :: 0 <= i < n ==> a[i] == b[i]
    ensures Tracking(a, n) == Tracking(b, n)
  {
    if n > 0 { TrackingPrefix(a, b, n - 1); }
  }

  /** The calls made so far are well made, and leave open what the driver's stack holds. */
  ghost predicate WellDriven(d: Drive) {
    d.stack != [] && Tracking(d.log, |d.log|) == Some(Tracked(d.stack, d.count))
  }

  lemma {:induction false} Tracks(log: seq<Event>, e: Event)
    ensures Tracking(log + [e], |log| + 1) == Track(Tracking(log, |log|), e)
  {
    TrackingPrefix(log, log + [e], |log|);
  }

  lemma {:induction false} CloseDriven(d: Drive)
    requires WellDriven(d) && |d.stack| > 1
    ensures WellDriven(CloseTop(d))
  {
    Tracks(d.log, Closed(Top(d).node));
  }

  lemma {:induction false} OpenDriven(d: Drive, path: Path)
    requires WellDriven(d) && path != [] && Dirname(path) == Top(d).path
    ensures WellDriven(OpenBelow(d, path))
  {
    Tracks(d.log, Opened(Top(d).node, path, d.count));
  }

  lemma {:induction false} VisitDriven(d: Drive, path: Path, opens: set<Path>)
    requires WellDriven(d) && path != [] && Dirname(path) == Top(d).path
    ensures WellDriven(Visit(d, path, opens))
  {
    Tracks(d.log, Called(Top(d).node, path, if path in opens then Some(d.count) else None));
  }

  // ----- the stack is the chain of a path's directories -----

  predicate Chain(stack: seq<Frame>, q: Path) {
    |stack| == |q| + 1 && forall k :: 0 <= k <= |q| ==> stack[k].path == q[..k]
  }

  /** How many leading components two paths share. */
  function Shared(p: Path, q: Path): (n: nat)
    ensures n <= |p| && n <= |q| && p[..n] == q[..n]
    ensures n < |p| && n < |q| ==> p[n] != q[n]
  {
    if p == [] || q == [] || p[0] != q[0] then 0
    else
      var n := Shared(p[1..], q[1..]);
      assert p[..n + 1] == [p[0]] + p[1..][..n] && q[..n + 1] == [q[0]] + q[1..][..n];
      n + 1
  }

  lemma {:induction false} SharedIs(p: Path, q: Path, n: nat)
    requires n <= |p|
    ensures p[..n] <= q <==> n <= Shared(p, q)
  {
    var s := Shared(p, q);
    if n <= s {
      assert p[..n] == p[..s][..n] && q[..n] == q[..s][..n];
    } else if s < |q| {
      assert p[..n][s] == p[s];
    }
  }

  lemma {:induction false} PopIs(d: Drive, q: Path, parent: Path)
    requires WellDriven(d) && Chain(d.stack, q)
    ensures var r := PopTo(d, parent);
            WellDriven(r) && r.stack == d.stack[..Shared(q, parent) + 1] && r.count == d.count
    decreases |d.stack|
  {
    var n := Shared(q, parent);
    assert q[..|q|] == q;
    SharedIs(q, parent, |q|);
    if |d.stack| > 1 && !IsAncestor(Top(d).path, parent) {
      CloseDriven(d);
      var shorter := q[..|q| - 1];
      SharedIs(q, parent, |q|);
      ShorterShares(q, parent);
      forall k | 0 <= k <= |shorter|
        ensures d.stack[..|d.stack| - 1][k].path == shorter[..k]
      {
        assert shorter[..k] == q[..k];
      }
      PopIs(CloseTop(d), shorter, parent);
    } else {
      assert n == |q|;
      assert d.stack[..|d.stack|] == d.stack;
    }
  }

  lemma {:induction false} ShorterShares(q: Path, parent: Path)
    requires q != [] && !(q <= parent)
    ensures Shared(q[..|q| - 1], parent) == Shared(q, parent)
  {
    var (shorter, n) := (q[..|q| - 1], Shared(q, parent));
    assert q[..|q|] == q;
    SharedIs(q, parent, |q|);
    assert shorter[..n] == q[..n] == parent[..n];
    SharedIs(shorter, parent, n);
    var m := Shared(shorter, parent);
    assert shorter[..m] == q[..m];
    SharedIs(q, parent, m);
    SharedIs(shorter, parent, m);
  }

  lemma {:induction false} PushIs(d: Drive, q: Path, parent: Path)
    requires WellDriven(d) && Chain(d.stack, q) && q <= parent
    ensures WellDriven(PushTo(d, parent)) && Chain(PushTo(d, parent).stack, parent)
    decreases |parent| - |q|
  {
    assert q[..|q|] == q;
    if q < parent {
      var next := parent[..|q| + 1];
      assert Dirname(next) == q;
      OpenDriven(d, next);
      var deeper := OpenBelow(d, next);
      forall k | 0 <= k <= |next|
        ensures deeper.stack[k].path == next[..k]
      {
        if k <= |q| {
          assert next[..k] == q[..k];
        } else {
          assert next[..k] == next;
        }
      }
      PushIs(deeper, next, parent);
    }
  }

  /** The path whose directories are open after the first n paths. */
  function Innermost(paths: seq<Path>, opens: set<Path>, n: nat): Path
    requires n <= |paths|
  {
    if n == 0 then [] else if paths[n - 1] in opens then paths[n - 1] else Dirname(paths[n - 1])
  }

  lemma {:induction false} PrefixChain(stack: seq<Frame>, q: Path, n: nat)
    requires Chain(stack, q) && n <= |q|
    ensures Chain(stack[..n + 1], q[..n])
  {
    forall k | 0 <= k <= n
      ensures stack[..n + 1][k].path == q[..n][..k]
    {
      assert q[..n][..k] == q[..k];
    }
  }

  lemma {:induction false} LongerChain(stack: seq<Frame>, path: Path, node: nat)
    requires path != [] && Chain(stack, Dirname(path))
    ensures Chain(stack + [Frame(path, node)], path)
  {
    forall k | 0 <= k <= |path|
      ensures (stack + [Frame(path, node)])[k].path == path[..k]
    {
      if k < |path| {
        assert Dirname(path)[..k] == path[..k];
      }
    }
  }

  lemma {:induction false} StepDriven(d: Drive, q: Path, path: Path, opens: set<Path>)
    requires WellDriven(d) && Chain(d.stack, q) && path != []
    ensures var r := Step(d, path, opens);
            WellDriven(r) && Chain(r.stack, if path in opens then path else Dirname(path))
  {
    var parent := Dirname(path);
    var n := Shared(q, parent);
    PopIs(d, q, parent);
    PrefixChain(d.stack, q, n);
    SharedIs(q, parent, n);
    var popped := PopTo(d, parent);
    PushIs(popped, q[..n], parent);
    var pushed := PushTo(popped, parent);
    assert parent[..|parent|] == parent;
    VisitDriven(pushed, path, opens);
    LongerChain(pushed.stack, path, pushed.count);
  }

  /** All along the drive every call is made on the right editor, and the open directories are
      those above the last path. */
  lemma {:induction false} StepsDriven(paths: seq<Path>, opens: set<Path>, n: nat)
    requires n <= |paths| && [] !in paths
    ensures WellDriven(Steps(paths, opens, n))
    ensures Chain(Steps(paths, opens, n).stack, Innermost(paths, opens, n))
  {
    if n > 0 {
      StepsDriven(paths, opens, n - 1);
      StepDriven(Steps(paths, opens, n - 1), Innermost(paths, opens, n - 1), paths[n - 1], opens);
    }
  }

  lemma {:induction false} CloseAllDriven(d: Drive)
    requires WellDriven(d)
    ensures WellDriven(CloseAll(d)) && CloseAll(d).stack == [d.stack[0]]
    decreases |d.stack|
  {
    if |d.stack| > 1 {
      CloseDriven(d);
      CloseAllDriven(CloseTop(d));
    }
  }

  /** On distinct non-empty paths, in whatever order, every call is made on the innermost open
      directory, which is the path's true parent; directories are closed in the reverse order of
      their opening; and in the end only the root is open. */
  lemma {:induction false} DriveIsWellMade(paths: seq<Path>, opens: set<Path>)
    requires [] !in paths
    ensures var d := CloseAll(Steps(paths, opens, |paths|));
            Tracking(d.log, |d.log|) == Some(Tracked([Frame([], 0)], d.count))
  {
    StepsDriven(paths, opens, |paths|);
    var d := Steps(paths, opens, |paths|);
    CloseAllDriven(d);
    RootStays(d.log, |d.log|);
  }

  lemma {:induction false} RootStays(log: seq<Event>, n: nat)
    requires n <= |log|
    ensures Tracking(log, n).Some? ==>
              Tracking(log, n).value.stack != [] && Tracking(log, n).value.stack[0] == Frame([], 0)
  {
    if n > 0 { RootStays(log, n - 1); }
  }
}
