/** Working-copy locks (wc/lock.go) and the status's view of them (wc/status.go): exclusion by
    ancestry and levels. */
module WcLock {
  import opened Common
  import opened Paths

  /** A row of WC_LOCK: a directory and how many levels below it are locked; a negative number
      locks everything below. */
  datatype Row = Row(path: Path, levels: int)

  /** lockCovers. */
  predicate Covers(row: Row, p: Path) {
    row.path == p || (row.path < p && (row.levels < 0 || |p| - |row.path| <= row.levels))
  }

  /** A lock covers its directory and what lies so many names below it: any number, if the number of
      levels is negative. */
  lemma {:induction false} CoversExactly(row: Row, p: Path)
    ensures Covers(row, p) <==> exists names: Path :: p == row.path + names && (names == [] || row.levels < 0 || |names| <= row.levels)
  {
    if Covers(row, p) {
      assert p == row.path + p[|row.path|..];
    }
  }

  /** Neither lock covers the directory of the other. */
  predicate Apart(a: Row, b: Row) {
    !Covers(a, b.path) && !Covers(b, a.path)
  }

  ghost predicate Exclusive(rows: seq<Row>) {
    forall i, j :: 0 <= i < j < |rows| ==> Apart(rows[i], rows[j])
  }

  /** The two-way test between two locks is enough for every path: no path is covered by both. */
  lemma {:induction false} ApartShareNothing(a: Row, b: Row, p: Path)
    requires Apart(a, b)
    ensures !(Covers(a, p) && Covers(b, p))
  {
    if a.path <= p && b.path <= p {
      assert a.path == p[..|a.path|] && b.path == p[..|b.path|];
      if |a.path| <= |b.path| {
        assert a.path == b.path[..|a.path|];
      } else {
        assert b.path == a.path[..|b.path|];
      }
    }
  }

  /** And it is needed: where one lock covers the directory of the other, that directory is covered
      by both. */
  lemma {:induction false} ExclusiveExactly(rows: seq<Row>)
    ensures Exclusive(rows) <==>
            forall i, j, p :: 0 <= i < j < |rows| ==> !(Covers(rows[i], p) && Covers(rows[j], p))
  {
    if Exclusive(rows) {
      forall i, j, p | 0 <= i < j < |rows|
        ensures !(Covers(rows[i], p) && Covers(rows[j], p))
      {
        ApartShareNothing(rows[i], rows[j], p);
      }
    } else {
      var i, j :| 0 <= i < j < |rows| && !Apart(rows[i], rows[j]);
      assert Covers(rows[i], rows[i].path) && Covers(rows[j], rows[j].path);
    }
  }

  // ----- the lock table -----

  function Without(rows: seq<Row>, n: nat, path: Path): seq<Row>
    requires n <= |rows|
  {
    if n == 0 then []
    else if rows[n - 1].path == path then Without(rows, n - 1, path)
    else Without(rows, n - 1, path) + [rows[n - 1]]
  }

  predicate Holds(rows: seq<Row>, path: Path) {
    exists i :: 0 <= i < |rows| && rows[i].path == path
  }

  class Database {
    const writable: bool
    var locks: seq<Row>

    constructor (writable: bool)
      ensures this.writable == writable && locks == []
    {
      this.writable := writable;
      locks := [];
    }

    /** Some existing lock and the new one are in each other's way. */
    method Conflicts(row: Row) returns (conflict: bool)
      ensures conflict <==> exists i :: 0 <= i < |locks| && !Apart(locks[i], row)
    {
      for i := 0 to |locks|
        invariant forall j :: 0 <= j < i ==> Apart(locks[j], row)
      {
        if Covers(locks[i], row.path) || Covers(row, locks[i].path) {
          return true;
        }
      }
      return false;
    }

    method AcquireLock(path: Path, levels: int) returns (lock: WCLock?)
      modifies this
      ensures lock != null <==> writable && forall i :: 0 <= i < |old(locks)| ==> Apart(old(locks)[i], Row(path, levels))
      ensures locks == if lock == null then old(locks) else old(locks) + [Row(path, levels)]
      ensures lock != null ==> fresh(lock) && lock.database == this && lock.path == path && !lock.released
    {
      if !writable {
        return null;
      }
      var conflict := Conflicts(Row(path, levels));
      if conflict {
        return null;
      }
      locks := locks + [Row(path, levels)];
      lock := new WCLock(this, path);
    }

    /** DELETE: the rows at the path, and how many there were. */
    method Delete(path: Path) returns (affected: nat)
      modifies this
      ensures locks == Without(old(locks), |old(locks)|, path)
      ensures affected == |old(locks)| - |locks|
      ensures affected == 0 <==> !Holds(old(locks), path)
    {
      var kept := [];
      for n := 0 to |locks|
        invariant locks == old(locks) && kept == Without(locks, n, path)
        invariant |kept| <= n && (|kept| == n <==> forall i :: 0 <= i < n ==> locks[i].path != path)
      {
        if locks[n].path != path {
          kept := kept + [locks[n]];
        }
      }
      affected := |locks| - |kept|;
      locks := kept;
    }

    /** isWCLocked: true exactly when some live lock covers the path. */
    method IsWCLocked(path: Path) returns (locked: bool)
      ensures locked <==> exists i :: 0 <= i < |locks| && Covers(locks[i], path)
    {
      for i := 0 to |locks|
        invariant forall j :: 0 <= j < i ==> !Covers(locks[j], path)
      {
        if path == locks[i].path {
          return true;
        }
        if locks[i].path < path {
          var distance := |path| - |locks[i].path|;
          if locks[i].levels < 0 || distance <= locks[i].levels {
            return true;
          }
        }
      }
      return false;
    }
  }

  class WCLock {
    const database: Database
    const path: Path
    var released: bool

    constructor (database: Database, path: Path)
      ensures this.database == database && this.path == path && !released
    {
      this.database, this.path, released := database, path, false;
    }

    /** Release: once; an error, and no release, if the lock's row is gone. */
    method Release() returns (ok: bool)
      modifies this, database
      ensures ok <==> old(released) || Holds(old(database.locks), path)
      ensures released == (old(released) || ok)
      ensures database.locks ==
              if old(released) then old(database.locks)
              else Without(old(database.locks), |old(database.locks)|, path)
    {
      if released {
        return true;
      }
      var affected := database.Delete(path);
      if affected == 0 {
        return false;
      }
      released := true;
      return true;
    }
  }

  // ----- runs -----

  datatype Action = Acquire(path: Path, levels: int) | Release(lock: nat)

  datatype Handle = Handle(path: Path, released: bool)

  /** The lock table and all locks ever handed out. */
  datatype State = State(rows: seq<Row>, handles: seq<Handle>)

  const START := State([], [])

  /** What AcquireLock and Release do. */
  ghost function Act(s: State, a: Action): State {
    match a
    case Acquire(path, levels) =>
      if forall i :: 0 <= i < |s.rows| ==> Apart(s.rows[i], Row(path, levels))
      then State(s.rows + [Row(path, levels)], s.handles + [Handle(path, false)]) else s
    case Release(k) =>
      if k >= |s.handles| || s.handles[k].released then s
      else
        var path := s.handles[k].path;
        State(Without(s.rows, |s.rows|, path),
              if Holds(s.rows, path) then s.handles[k := Handle(path, true)] else s.handles)
  }

  ghost function After(actions: seq<Action>, n: nat): State
    requires n <= |actions|
  {
    if n == 0 then START else Act(After(actions, n - 1), actions[n - 1])
  }

  ghost predicate Live(s: State, k: int) {
    0 <= k < |s.handles| && !s.handles[k].released
  }

  ghost predicate HasHandle(s: State, path: Path) {
    exists k :: Live(s, k) && s.handles[k].path == path
  }

  /** Every row of the table is that of a lock that has not been released. */
  ghost predicate RowsHeld(s: State) {
    forall i :: 0 <= i < |s.rows| ==> HasHandle(s, s.rows[i].path)
  }

  /** Every lock that has not been released has its row. */
  ghost predicate LocksHeld(s: State) {
    forall k :: Live(s, k) ==> Holds(s.rows, s.handles[k].path)
  }

  ghost predicate OneLockEach(s: State) {
    forall j, k :: Live(s, j) && Live(s, k) && j != k ==> s.handles[j].path != s.handles[k].path
  }

  /** The live locks exclude each other, and the rows of the table are those of the locks that have
      not been released, one for each. */
  ghost predicate Sound(s: State) {
    Exclusive(s.rows) && RowsHeld(s) && LocksHeld(s) && OneLockEach(s)
  }

  lemma {:induction false} WithoutIs(rows: seq<Row>, n: nat, path: Path)
    requires n <= |rows| && Exclusive(rows)
    ensures var kept := Without(rows, n, path);
            && Exclusive(kept)
            && forall row :: row in kept <==> (exists i :: 0 <= i < n && rows[i] == row) && row.path != path
  {
    if n > 0 {
      WithoutIs(rows, n - 1, path);
      var before := Without(rows, n - 1, path);
      forall i | 0 <= i < |before|
        ensures Apart(before[i], rows[n - 1])
      {
        assert before[i] in before;
      }
    }
  }

  lemma {:induction false} HeldIsApart(s: State, row: Row, k: int)
    requires LocksHeld(s) && Live(s, k) && forall i :: 0 <= i < |s.rows| ==> Apart(s.rows[i], row)
    ensures s.handles[k].path != row.path
  {
    var i :| 0 <= i < |s.rows| && s.rows[i].path == s.handles[k].path;
    assert Apart(s.rows[i], row);
  }

  lemma {:induction false} AcquireKeeps(s: State, row: Row)
    requires Sound(s) && forall i :: 0 <= i < |s.rows| ==> Apart(s.rows[i], row)
    ensures Sound(State(s.rows + [row], s.handles + [Handle(row.path, false)]))
  {
    var s' := State(s.rows + [row], s.handles + [Handle(row.path, false)]);
    var last := |s.handles|;
    assert Live(s', last);
    forall i | 0 <= i < |s.rows|
      ensures HasHandle(s', s.rows[i].path)
    {
      assert HasHandle(s, s.rows[i].path);
      var k :| Live(s, k) && s.handles[k].path == s.rows[i].path;
      assert Live(s', k);
    }
    forall k | Live(s', k)
      ensures Holds(s'.rows, s'.handles[k].path)
      ensures k != last ==> Live(s, k) && s'.handles[k] == s.handles[k] && s.handles[k].path != row.path
    {
      if k == last {
        assert s'.rows[|s.rows|].path == row.path;
      } else {
        assert Live(s, k);
        HeldIsApart(s, row, k);
        var i :| 0 <= i < |s.rows| && s.rows[i].path == s.handles[k].path;
        assert s'.rows[i] == s.rows[i];
      }
    }
  }

  lemma {:induction false} LiveAfterRelease(s: State, k: int, j: int)
    requires Live(s, k) && OneLockEach(s)
    ensures var s' := State(s.rows, s.handles[k := Handle(s.handles[k].path, true)]);
            Live(s', j) <==> Live(s, j) && j != k
    ensures Live(s, j) && j != k ==> s.handles[j].path != s.handles[k].path
  {
  }

  lemma {:induction false} ReleaseKeeps(s: State, k: int)
    requires Sound(s) && Live(s, k)
    ensures var path := s.handles[k].path;
            Holds(s.rows, path) && Sound(State(Without(s.rows, |s.rows|, path), s.handles[k := Handle(path, true)]))
  {
    var path := s.handles[k].path;
    var s' := State(Without(s.rows, |s.rows|, path), s.handles[k := Handle(path, true)]);
    WithoutIs(s.rows, |s.rows|, path);
    forall j | Live(s', j)
      ensures Live(s, j) && j != k && s'.handles[j] == s.handles[j] && Holds(s'.rows, s'.handles[j].path)
    {
      LiveAfterRelease(s, k, j);
      var i :| 0 <= i < |s.rows| && s.rows[i].path == s.handles[j].path;
      assert s.rows[i] in s'.rows;
    }
    forall i | 0 <= i < |s'.rows|
      ensures HasHandle(s', s'.rows[i].path)
    {
      assert s'.rows[i] in s'.rows;
      var m :| 0 <= m < |s.rows| && s.rows[m] == s'.rows[i];
      assert HasHandle(s, s.rows[m].path);
      var j :| Live(s, j) && s.handles[j].path == s.rows[m].path;
      assert Live(s', j);
    }
  }

  lemma {:induction false} ActKeeps(s: State, a: Action)
    requires Sound(s)
    ensures Sound(Act(s, a))
    ensures a.Release? && Live(s, a.lock) ==> !Live(Act(s, a), a.lock)
  {
    match a {
      case Acquire(path, levels) =>
        var row := Row(path, levels);
        if forall i :: 0 <= i < |s.rows| ==> Apart(s.rows[i], row) {
          AcquireKeeps(s, row);
        }
      case Release(k) =>
        if Live(s, k) {
          ReleaseKeeps(s, k);
        }
    }
  }

  /** In every state that acquiring and releasing can lead to, no path is covered by two live
      locks, and the live locks are exactly those handed out and not yet released, so that
      releasing one of them never fails. */
  lemma {:induction false} LocksExclude(actions: seq<Action>, n: nat)
    requires n <= |actions|
    ensures Sound(After(actions, n))
    ensures var rows := After(actions, n).rows;
            forall i, j, p :: 0 <= i < j < |rows| ==> !(Covers(rows[i], p) && Covers(rows[j], p))
  {
    if n > 0 {
      LocksExclude(actions, n - 1);
      ActKeeps(After(actions, n - 1), actions[n - 1]);
    }
    ExclusiveExactly(After(actions, n).rows);
  }
}
