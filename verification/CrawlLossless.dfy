/** The crawl's report is lossless (wc/crawl.go): from the entries alone a reader recovers every
    node of the BASE layer that is in scope. */
module CrawlLossless {
  import opened Common
  import opened Decimal
  import opened Paths
  import opened PathDriver
  import opened PathDriverOrder
  import opened Crawl

  /** The parent of a present row is a present directory. */
  ghost predicate HasParent(base: seq<Row>, row: Row) {
    exists j :: 0 <= j < |base| && IsParent(base[j], row)
  }

  predicate IsParent(parent: Row, row: Row) {
    parent.relpath == Dirname(row.relpath) && Present(parent) && parent.isDir
  }

  /** What the tables of a working copy guarantee, and the query's ORDER BY: one row for each
      place, in the order of the bytes of the paths, and a tree of present nodes. */
  ghost predicate Layered(base: seq<Row>) {
    && (forall i :: 0 <= i < |base| ==> IsPath(base[i].relpath))
    && (forall i, j :: 0 <= i < j < |base| ==> Before(base[i].relpath, base[j].relpath))
    && (forall i :: 0 <= i < |base| && Present(base[i]) ==>
          0 <= base[i].revision && (base[i].relpath != [] ==> HasParent(base, base[i])))
  }

  predicate Scoped(q: Request, row: Row) {
    WithinDepth(q.target, row.relpath, q.depth, !row.isDir)
  }

  /** The nodes come from the first n rows. */
  ghost predicate From(base: seq<Row>, q: Request, nodes: seq<Row>, n: nat)
    requires n <= |base|
  {
    forall k :: 0 <= k < |nodes| ==> FromAt(base, q, nodes[k], n)
  }

  ghost predicate FromAt(base: seq<Row>, q: Request, row: Row, n: nat)
    requires n <= |base|
  {
    Scoped(q, row) && exists i :: 0 <= i < n && base[i] == row
  }

  ghost predicate Ordered(nodes: seq<Row>) {
    forall j, k :: 0 <= j < k < |nodes| ==> Before(nodes[j].relpath, nodes[k].relpath)
  }

  ghost predicate Complete(base: seq<Row>, q: Request, nodes: seq<Row>, n: nat)
    requires n <= |base|
  {
    forall i :: 0 <= i < n && Scoped(q, base[i]) ==> base[i] in nodes
  }

  ghost predicate Kept(base: seq<Row>, q: Request, nodes: seq<Row>, n: nat)
    requires n <= |base|
  {
    From(base, q, nodes, n) && Ordered(nodes) && Complete(base, q, nodes, n)
  }

  lemma {:induction false} KeepsFrom(base: seq<Row>, q: Request, before: seq<Row>, after: seq<Row>, n: nat)
    requires n < |base| && From(base, q, before, n)
    requires after == if Scoped(q, base[n]) then before + [base[n]] else before
    ensures From(base, q, after, n + 1)
  {
    forall k | 0 <= k < |after|
      ensures FromAt(base, q, after[k], n + 1)
    {
      if k < |before| {
        assert FromAt(base, q, before[k], n);
      }
    }
  }

  lemma {:induction false} KeepsOrder(base: seq<Row>, q: Request, before: seq<Row>, after: seq<Row>, n: nat)
    requires n < |base| && Layered(base) && From(base, q, before, n) && Ordered(before)
    requires after == if Scoped(q, base[n]) then before + [base[n]] else before
    ensures Ordered(after)
  {
    forall k | 0 <= k < |before|
      ensures Before(before[k].relpath, base[n].relpath)
    {
      assert FromAt(base, q, before[k], n);
    }
  }

  lemma {:induction false} KeepsOne(base: seq<Row>, q: Request, before: seq<Row>, n: nat)
    requires n < |base| && Layered(base) && Kept(base, q, before, n)
    ensures Kept(base, q, if Scoped(q, base[n]) then before + [base[n]] else before, n + 1)
  {
    var after := if Scoped(q, base[n]) then before + [base[n]] else before;
    KeepsFrom(base, q, before, after, n);
    KeepsOrder(base, q, before, after, n);
  }

  lemma {:induction false} KeepsNothing(base: seq<Row>, q: Request)
    ensures Kept(base, q, [], 0)
  {
  }

  lemma {:induction false} ScopeStep(base: seq<Row>, q: Request, n: nat)
    requires n < |base| && Layered(base) && Kept(base, q, InScope(base, q, n), n)
    ensures Kept(base, q, InScope(base, q, n + 1), n + 1)
  {
    var before, after := InScope(base, q, n), InScope(base, q, n + 1);
    assert after == if Scoped(q, base[n]) then before + [base[n]] else before;
    KeepsOne(base, q, before, n);
  }

  /** The filter keeps the rows in scope and their order. */
  lemma {:induction false} ScopeKeeps(base: seq<Row>, q: Request, n: nat)
    requires n <= |base| && Layered(base)
    ensures Kept(base, q, InScope(base, q, n), n)
  {
    if n > 0 {
      ScopeKeeps(base, q, n - 1);
      ScopeStep(base, q, n - 1);
    } else {
      KeepsNothing(base, q);
    }
  }

  /** The nodes in scope, as the crawl visits them. */
  ghost predicate Visits(base: seq<Row>, q: Request, nodes: seq<Row>) {
    Layered(base) && nodes == InScope(base, q, |base|) && Kept(base, q, nodes, |base|)
  }

  lemma {:induction false} NodeIsRow(base: seq<Row>, q: Request, nodes: seq<Row>, k: nat)
    requires Visits(base, q, nodes) && k < |nodes|
    ensures Scoped(q, nodes[k]) && nodes[k] in base && IsPath(nodes[k].relpath)
    ensures Present(nodes[k]) ==> 0 <= nodes[k].revision
  {
    assert FromAt(base, q, nodes[k], |base|);
  }

  lemma {:induction false} OnePlace(base: seq<Row>, q: Request, nodes: seq<Row>, j: nat, k: nat)
    requires Visits(base, q, nodes) && j < |nodes| && k < |nodes|
    ensures j < k <==> Before(nodes[j].relpath, nodes[k].relpath)
    ensures nodes[j].relpath == nodes[k].relpath ==> j == k
  {
    NodeIsRow(base, q, nodes, j);
    NodeIsRow(base, q, nodes, k);
    BeforeTotal(nodes[j].relpath, nodes[k].relpath);
    BeforeTotal(nodes[j].relpath, nodes[j].relpath);
  }

  lemma {:induction false} ParentScoped(q: Request, parent: Row, row: Row)
    requires Scoped(q, row) && row.relpath != q.target && row.relpath != [] && IsParent(parent, row)
    ensures q.target < row.relpath && q.target <= parent.relpath && Scoped(q, parent)
  {
    assert Dirname(row.relpath)[..|q.target|] == row.relpath[..|q.target|] == q.target;
    assert parent.relpath == q.target || q.target < parent.relpath;
  }

  lemma {:induction false} ParentInBase(base: seq<Row>, row: Row) returns (m: nat)
    requires Layered(base) && row in base && Present(row) && row.relpath != []
    ensures m < |base| && IsParent(base[m], row) && IsPath(base[m].relpath) && IsPath(row.relpath)
  {
    var i :| 0 <= i < |base| && base[i] == row;
    assert HasParent(base, row);
    m :| 0 <= m < |base| && IsParent(base[m], row);
  }

  /** The parent of a present node below the target has been visited before it. */
  lemma {:induction false} ParentVisited(base: seq<Row>, q: Request, nodes: seq<Row>, k: nat) returns (j: nat)
    requires Visits(base, q, nodes) && k < |nodes| && Present(nodes[k]) && nodes[k].relpath != q.target
    ensures nodes[k].relpath != [] && j < k && IsParent(nodes[j], nodes[k])
    ensures q.target <= nodes[j].relpath && q.target < nodes[k].relpath
  {
    var row := nodes[k];
    NodeIsRow(base, q, nodes, k);
    var m := ParentInBase(base, row);
    ParentScoped(q, base[m], row);
    j :| 0 <= j < |nodes| && nodes[j] == base[m];
    UnderIsBehind(base[m].relpath, row.relpath);
    OnePlace(base, q, nodes, j, k);
  }

  lemma {:induction false} ReposPathFound(rows: seq<Row>, j: nat, i: nat)
    requires i <= j < |rows| && forall k :: i <= k < j ==> rows[k].relpath != rows[j].relpath
    ensures ReposPathAt(rows, rows[j].relpath, i) == Some(rows[j].reposPath)
    decreases j - i
  {
    if i < j { ReposPathFound(rows, j, i + 1); }
  }

  lemma {:induction false} FirstInBase(base: seq<Row>, m: nat)
    requires Layered(base) && m < |base|
    ensures ReposPathAt(base, base[m].relpath, 0) == Some(base[m].reposPath)
  {
    forall i | 0 <= i < m
      ensures base[i].relpath != base[m].relpath
    {
      BeforeTotal(base[m].relpath, base[m].relpath);
    }
    ReposPathFound(base, m, 0);
  }

  lemma {:induction false} ParentPathFound(base: seq<Row>, q: Request, nodes: seq<Row>, j: nat, k: nat)
    requires Visits(base, q, nodes) && j < k < |nodes| && IsParent(nodes[j], nodes[k])
    ensures ParentReposPath(base, nodes, nodes[k]) == Some(nodes[j].reposPath)
  {
    forall i | 0 <= i < j
      ensures nodes[i].relpath != nodes[j].relpath
    {
      OnePlace(base, q, nodes, i, j);
    }
    ReposPathFound(nodes, j, 0);
    NodeIsRow(base, q, nodes, j);
    var m :| 0 <= m < |base| && base[m] == nodes[j];
    FirstInBase(base, m);
  }

  lemma {:induction false} LastRemembered(nodes: seq<Row>, j: nat, k: nat)
    requires j < k <= |nodes| && Present(nodes[j])
    requires forall i :: j < i < k ==> nodes[i].relpath != nodes[j].relpath
    ensures Remembered(nodes, k, nodes[j].relpath) == Some(nodes[j].revision)
  {
    if j < k - 1 { LastRemembered(nodes, j, k - 1); }
  }

  lemma {:induction false} RevisionRemembered(base: seq<Row>, q: Request, nodes: seq<Row>, j: nat, k: nat)
    requires Visits(base, q, nodes) && j < k <= |nodes| && Present(nodes[j])
    ensures Remembered(nodes, k, nodes[j].relpath) == Some(nodes[j].revision)
  {
    forall i | j < i < k
      ensures nodes[i].relpath != nodes[j].relpath
    {
      OnePlace(base, q, nodes, i, j);
    }
    LastRemembered(nodes, j, k);
  }

  // ----- finding a node's entry -----

  lemma {:induction false} FindPrefix(a: seq<Entry>, b: seq<Entry>, p: Path, n: nat)
    requires n <= |a| && n <= |b| && forall i :: 0 <= i < n ==> a[i] == b[i]
    ensures Find(a, p, n) == Find(b, p, n)
  {
    if n > 0 { FindPrefix(a, b, p, n - 1); }
  }

  lemma {:induction false} EntryIsAbout(base: seq<Row>, nodes: seq<Row>, q: Request, locks: map<Path, Text>, k: nat)
    requires k < |nodes|
    ensures var e := NodeEntry(base, nodes, q, locks, k);
            e.Some? && e.value.Some? ==> e.value.value.path == ReportPath(q, nodes[k])
  {
  }

  lemma {:induction false} PlacesDiffer(base: seq<Row>, q: Request, nodes: seq<Row>, j: nat, k: nat)
    requires Visits(base, q, nodes) && j < |nodes| && k < |nodes|
    ensures ReportPath(q, nodes[j]) == ReportPath(q, nodes[k]) ==> j == k
  {
    var (a, b) := (nodes[j].relpath, nodes[k].relpath);
    NodeIsRow(base, q, nodes, j);
    NodeIsRow(base, q, nodes, k);
    assert q.target <= a && q.target <= b;
    assert a == q.target + a[|q.target|..] && b == q.target + b[|q.target|..];
    OnePlace(base, q, nodes, j, k);
  }

  /** No node's parent is missing. */
  lemma {:induction false} NoError(base: seq<Row>, q: Request, nodes: seq<Row>, locks: map<Path, Text>, k: nat)
    requires Visits(base, q, nodes) && k < |nodes|
    ensures NodeEntry(base, nodes, q, locks, k).Some?
  {
    var row := nodes[k];
    if Present(row) && row.relpath != [] {
      if row.relpath == q.target {
        NodeIsRow(base, q, nodes, k);
        var m := ParentInBase(base, row);
        FirstInBase(base, m);
      } else {
        var j := ParentVisited(base, q, nodes, k);
        ParentPathFound(base, q, nodes, j, k);
      }
    }
  }

  /** Where every node is told of at its own place, its entry is what is found there. */
  lemma {:induction false} CollectedFound(told: seq<Option<Option<Entry>>>, places: seq<Path>, n: nat, k: nat)
    requires n <= |told| == |places| && k < |told|
    requires forall i :: 0 <= i < |told| ==> told[i].Some?
    requires forall i :: 0 <= i < |told| ==> told[i].Some? && (told[i].value.Some? ==> told[i].value.value.path == places[i])
    requires forall i :: 0 <= i < |told| && places[i] == places[k] ==> i == k
    ensures Collect(told, n).Some?
    ensures Find(Collect(told, n).value, places[k], |Collect(told, n).value|) == if k < n then told[k].value else None
  {
    if n > 0 {
      CollectedFound(told, places, n - 1, k);
      var before, entries := Collect(told, n - 1).value, Collect(told, n).value;
      FindPrefix(before, entries, places[k], |before|);
    }
  }

  lemma {:induction false} ToldAbout(base: seq<Row>, q: Request, nodes: seq<Row>, locks: map<Path, Text>, k: nat)
    requires Visits(base, q, nodes) && k < |nodes|
    ensures var told := Told(base, nodes, q, locks);
            told[k].Some? && (told[k].value.Some? ==> told[k].value.value.path == ReportPath(q, nodes[k]))
  {
    NoError(base, q, nodes, locks, k);
    EntryIsAbout(base, nodes, q, locks, k);
  }

  function Places(q: Request, nodes: seq<Row>): (places: seq<Path>)
    ensures |places| == |nodes|
  {
    seq(|nodes|, k requires 0 <= k < |nodes| => ReportPath(q, nodes[k]))
  }

  /** A node's own entry is found in the report. */
  lemma {:induction false} OwnEntry(base: seq<Row>, q: Request, nodes: seq<Row>, locks: map<Path, Text>, k: nat)
      returns (entries: seq<Entry>)
    requires Visits(base, q, nodes) && k < |nodes|
    ensures Report(base, q, locks) == Some(entries)
    ensures NodeEntry(base, nodes, q, locks, k) == Some(Find(entries, ReportPath(q, nodes[k]), |entries|))
  {
    var told, places := Told(base, nodes, q, locks), Places(q, nodes);
    forall i | 0 <= i < |nodes|
      ensures told[i].Some? && (told[i].value.Some? ==> told[i].value.value.path == places[i])
      ensures places[i] == places[k] ==> i == k
    {
      ToldAbout(base, q, nodes, locks, i);
      PlacesDiffer(base, q, nodes, i, k);
    }
    CollectedFound(told, places, |nodes|, k);
    entries := Collect(told, |nodes|).value;
    assert told[k] == NodeEntry(base, nodes, q, locks, k);
  }

  // ----- reading a node back -----

  /** What the reader knows: the repository path of the target, unless the target is reported
      with its own. */
  predicate Anchored(base: seq<Row>, q: Request, nodes: seq<Row>, anchor: Path) {
    nodes != [] && nodes[0].relpath == q.target && Present(nodes[0]) &&
    var parent := ParentReposPath(base, nodes, nodes[0]);
    parent.Some? && (Switched(parent.value, nodes[0], q) || anchor == nodes[0].reposPath)
  }

  /** The place above a node's place is the place of its parent. */
  lemma {:induction false} PlaceAbove(q: Request, parent: Row, row: Row)
    requires IsParent(parent, row) && q.target <= parent.relpath && q.target < row.relpath
    ensures var p := ReportPath(q, row);
            p != [] && Dirname(p) == ReportPath(q, parent) && p[|p| - 1] == row.relpath[|row.relpath| - 1]
  {
    var p := ReportPath(q, row);
    assert p == row.relpath[|q.target|..];
    assert Dirname(p) == Dirname(row.relpath)[|q.target|..];
  }

  predicate ReadsAs(node: Option<Node>, row: Row, locks: map<Path, Text>) {
    if Present(row) then node.Some? && Same(node.value, Actual(row, locks), row.isDir) else node == None
  }

  lemma {:induction false} ExcludedReads(q: Request, row: Row, above: Option<Node>, anchor: Path)
    requires !Present(row)
    ensures Reading(Some(Excluding(q, row)), above, anchor, ReportPath(q, row)) == None
  {
  }

  lemma {:induction false} TargetReads(q: Request, row: Row, parentReposPath: Path, remembered: Option<int>,
                                       locks: map<Path, Text>, anchor: Path)
    requires Present(row) && 0 <= row.revision && row.relpath == q.target
    requires Switched(parentReposPath, row, q) || anchor == row.reposPath
    ensures var own := Reporting(q, row, true, Switched(parentReposPath, row, q), remembered, LockOf(locks, row));
            ReadsAs(Reading(own, None, anchor, []), row, locks)
  {
  }

  lemma {:induction false} BelowReads(q: Request, row: Row, parent: Row, above: Node, first: bool,
                                      locks: map<Path, Text>, anchor: Path, p: Path)
    requires Present(row) && 0 <= row.revision && row.relpath != [] && IsParent(parent, row)
    requires above.revision == parent.revision && above.reposPath == parent.reposPath
    requires p != [] && p[|p| - 1] == row.relpath[|row.relpath| - 1] && row.relpath != q.target
    ensures var own := Reporting(q, row, first, Switched(parent.reposPath, row, q), Some(parent.revision), LockOf(locks, row));
            ReadsAs(Reading(own, Some(above), anchor, p), row, locks)
  {
  }

  lemma {:induction false} TargetReadBack(base: seq<Row>, q: Request, nodes: seq<Row>, locks: map<Path, Text>,
                                          anchor: Path, entries: seq<Entry>, k: nat)
    requires Visits(base, q, nodes) && Anchored(base, q, nodes, anchor) && k < |nodes|
    requires Report(base, q, locks) == Some(entries) && Present(nodes[k]) && nodes[k].relpath == q.target
    ensures ReadsAs(Read(entries, anchor, ReportPath(q, nodes[k])), nodes[k], locks)
  {
    var row := nodes[k];
    NodeIsRow(base, q, nodes, k);
    var _ := OwnEntry(base, q, nodes, locks, k);
    OnePlace(base, q, nodes, 0, k);
    TargetReads(q, row, ParentReposPath(base, nodes, row).value, Remembered(nodes, k, Dirname(row.relpath)), locks, anchor);
  }

  lemma {:induction false} BelowEntry(base: seq<Row>, q: Request, nodes: seq<Row>, locks: map<Path, Text>,
                                      entries: seq<Entry>, j: nat, k: nat)
    requires Visits(base, q, nodes) && j < k < |nodes|
    requires Report(base, q, locks) == Some(entries) && Present(nodes[k]) && nodes[k].relpath != q.target
    requires nodes[k].relpath != [] && IsParent(nodes[j], nodes[k])
    requires q.target <= nodes[j].relpath && q.target < nodes[k].relpath
    ensures Find(entries, ReportPath(q, nodes[k]), |entries|) ==
            Reporting(q, nodes[k], false, Switched(nodes[j].reposPath, nodes[k], q), Some(nodes[j].revision), LockOf(locks, nodes[k]))
  {
    var _ := OwnEntry(base, q, nodes, locks, k);
    ParentPathFound(base, q, nodes, j, k);
    RevisionRemembered(base, q, nodes, j, k);
  }

  lemma {:induction false} BelowReadBack(base: seq<Row>, q: Request, nodes: seq<Row>, locks: map<Path, Text>,
                                         anchor: Path, entries: seq<Entry>, j: nat, k: nat)
    requires Visits(base, q, nodes) && j < k < |nodes|
    requires Report(base, q, locks) == Some(entries) && Present(nodes[k]) && nodes[k].relpath != q.target
    requires nodes[k].relpath != [] && IsParent(nodes[j], nodes[k])
    requires q.target <= nodes[j].relpath && q.target < nodes[k].relpath
    requires ReadsAs(Read(entries, anchor, ReportPath(q, nodes[j])), nodes[j], locks)
    ensures ReadsAs(Read(entries, anchor, ReportPath(q, nodes[k])), nodes[k], locks)
  {
    NodeIsRow(base, q, nodes, k);
    BelowEntry(base, q, nodes, locks, entries, j, k);
    RowReadBack(q, nodes[k], nodes[j], locks, anchor, entries);
  }

  lemma {:induction false} RowReadBack(q: Request, row: Row, parent: Row, locks: map<Path, Text>, anchor: Path, entries: seq<Entry>)
    requires Present(row) && 0 <= row.revision && row.relpath != [] && IsParent(parent, row)
    requires row.relpath != q.target && q.target <= parent.relpath && q.target < row.relpath
    requires Find(entries, ReportPath(q, row), |entries|) ==
             Reporting(q, row, false, Switched(parent.reposPath, row, q), Some(parent.revision), LockOf(locks, row))
    requires ReadsAs(Read(entries, anchor, ReportPath(q, parent)), parent, locks)
    ensures ReadsAs(Read(entries, anchor, ReportPath(q, row)), row, locks)
  {
    PlaceAbove(q, parent, row);
    var above := Read(entries, anchor, ReportPath(q, parent)).value;
    BelowReads(q, row, parent, above, false, locks, anchor, ReportPath(q, row));
    ReadBelow(entries, anchor, ReportPath(q, row), above);
  }

  lemma {:induction false} ReadBelow(entries: seq<Entry>, anchor: Path, p: Path, above: Node)
    requires p != [] && Read(entries, anchor, Dirname(p)) == Some(above)
    ensures Read(entries, anchor, p) == Reading(Find(entries, p, |entries|), Some(above), anchor, p)
  {
  }

  /** Every present node in scope is read back as it is: its revision, its repository path, its
      lock token, whether it is incomplete, and for a directory its depth. Every other node in
      scope is read back as missing. */
  lemma {:induction false} NodeReadBack(base: seq<Row>, q: Request, nodes: seq<Row>, locks: map<Path, Text>,
                                        anchor: Path, entries: seq<Entry>, k: nat)
    requires Visits(base, q, nodes) && Anchored(base, q, nodes, anchor) && k < |nodes|
    requires Report(base, q, locks) == Some(entries)
    ensures ReadsAs(Read(entries, anchor, ReportPath(q, nodes[k])), nodes[k], locks)
    decreases k
  {
    var row := nodes[k];
    var p := ReportPath(q, row);
    if !Present(row) {
      var _ := OwnEntry(base, q, nodes, locks, k);
      ExcludedReads(q, row, if p == [] then None else Read(entries, anchor, Dirname(p)), anchor);
    } else if row.relpath == q.target {
      TargetReadBack(base, q, nodes, locks, anchor, entries, k);
    } else {
      var j := ParentVisited(base, q, nodes, k);
      NodeReadBack(base, q, nodes, locks, anchor, entries, j);
      BelowReadBack(base, q, nodes, locks, anchor, entries, j, k);
    }
  }

  /** The report is lossless for the whole scope. */
  lemma {:induction false} CrawlIsLossless(base: seq<Row>, q: Request, locks: map<Path, Text>, anchor: Path)
    requires Layered(base) && Anchored(base, q, InScope(base, q, |base|), anchor)
    ensures Report(base, q, locks).Some?
    ensures forall i :: 0 <= i < |base| && Scoped(q, base[i]) ==>
              ReadsAs(Read(Report(base, q, locks).value, anchor, ReportPath(q, base[i])), base[i], locks)
  {
    var nodes := InScope(base, q, |base|);
    ScopeKeeps(base, q, |base|);
    var entries := OwnEntry(base, q, nodes, locks, 0);
    forall i | 0 <= i < |base| && Scoped(q, base[i])
      ensures ReadsAs(Read(entries, anchor, ReportPath(q, base[i])), base[i], locks)
    {
      var k :| 0 <= k < |nodes| && nodes[k] == base[i];
      NodeReadBack(base, q, nodes, locks, anchor, entries, k);
    }
  }
}
