/** What a report is about (wc/crawl.go): which places it mentions, which rows it leaves out because
    a reader infers them, and what it says when there is nothing to report. */
module CrawlScope {
  import opened Common
  import opened Decimal
  import opened Paths
  import opened PathDriver
  import opened PathDriverOrder
  import opened Crawl
  import opened CrawlLossless

  /** The request is about the target; at depth files also about its files, at depth immediates
      about all its children, and at depth infinity, or with no depth given, about everything below. */
  ghost predicate Asked(q: Request, row: Row) {
    || row.relpath == q.target
    || (q.depth == Files && !row.isDir && exists name :: row.relpath == q.target + [name])
    || (q.depth == Immediates && exists name :: row.relpath == q.target + [name])
    || ((q.depth == Infinity || q.depth == Unknown) && exists rest :: row.relpath == q.target + rest)
  }

  lemma {:induction false} AskedIsScoped(q: Request, row: Row)
    ensures Asked(q, row) <==> Scoped(q, row)
  {
    var p := row.relpath;
    if q.target <= p {
      assert p == q.target + p[|q.target|..];
      if |p| == |q.target| + 1 {
        assert p == q.target + [p[|q.target|]];
      }
    }
  }

  lemma {:induction false} ScopeIsEmpty(base: seq<Row>, q: Request, n: nat)
    requires n <= |base| && forall i :: 0 <= i < n ==> !Asked(q, base[i])
    ensures InScope(base, q, n) == []
  {
    if n > 0 {
      AskedIsScoped(q, base[n - 1]);
      ScopeIsEmpty(base, q, n - 1);
    }
  }

  /** Every entry among the first n is about one of the nodes. */
  lemma {:induction false} CollectedFrom(base: seq<Row>, nodes: seq<Row>, q: Request, locks: map<Path, Text>, n: nat)
    requires n <= |nodes| && Collect(Told(base, nodes, q, locks), n).Some?
    ensures forall e :: e in Collect(Told(base, nodes, q, locks), n).value ==>
              exists k :: 0 <= k < |nodes| && e.path == ReportPath(q, nodes[k])
  {
    if n > 0 {
      CollectedFrom(base, nodes, q, locks, n - 1);
      EntryIsAbout(base, nodes, q, locks, n - 1);
    }
  }

  /** A row that is asked for has this place below the target. */
  ghost predicate AskedAt(base: seq<Row>, q: Request, i: int, place: Path) {
    0 <= i < |base| && Asked(q, base[i]) && base[i].relpath == q.target + place
  }

  lemma {:induction false} NodeIsAsked(base: seq<Row>, q: Request, nodes: seq<Row>, k: nat)
    requires Visits(base, q, nodes) && k < |nodes|
    ensures exists i :: AskedAt(base, q, i, ReportPath(q, nodes[k]))
  {
    var row := nodes[k];
    NodeIsRow(base, q, nodes, k);
    AskedIsScoped(q, row);
    var i :| 0 <= i < |base| && base[i] == row;
    assert q.target <= row.relpath && row.relpath == q.target + row.relpath[|q.target|..];
    assert AskedAt(base, q, i, ReportPath(q, row));
  }

  /** Every entry is about a row that is asked for. */
  lemma {:induction false} EntriesAreAsked(base: seq<Row>, q: Request, locks: map<Path, Text>, nodes: seq<Row>, entries: seq<Entry>)
    requires Visits(base, q, nodes) && Collect(Told(base, nodes, q, locks), |nodes|) == Some(entries)
    ensures forall e :: e in entries ==> exists i :: AskedAt(base, q, i, e.path)
  {
    CollectedFrom(base, nodes, q, locks, |nodes|);
    forall e | e in entries
      ensures exists i :: AskedAt(base, q, i, e.path)
    {
      var k :| 0 <= k < |nodes| && e.path == ReportPath(q, nodes[k]);
      NodeIsAsked(base, q, nodes, k);
    }
  }

  /** The report of a table with a row that is asked for: every entry is about such a row, and every
      such row is read back, present or missing. */
  lemma {:induction false} ReportIsAboutScope(base: seq<Row>, q: Request, locks: map<Path, Text>, anchor: Path)
      returns (entries: seq<Entry>)
    requires Layered(base) && Anchored(base, q, InScope(base, q, |base|), anchor)
    ensures Report(base, q, locks) == Some(entries)
    ensures forall e :: e in entries ==> exists i :: AskedAt(base, q, i, e.path)
    ensures forall i, place :: AskedAt(base, q, i, place) ==> ReadsAs(Read(entries, anchor, place), base[i], locks)
  {
    var nodes := InScope(base, q, |base|);
    ScopeKeeps(base, q, |base|);
    CrawlIsLossless(base, q, locks, anchor);
    entries := OwnEntry(base, q, nodes, locks, 0);
    EntriesAreAsked(base, q, locks, nodes, entries);
    forall i, place | AskedAt(base, q, i, place)
      ensures ReadsAs(Read(entries, anchor, place), base[i], locks)
    {
      AskedIsScoped(q, base[i]);
      assert base[i].relpath[|q.target|..] == place;
      assert ReportPath(q, base[i]) == place;
    }
  }

  /** The report of a table with no such row: an empty directory at revision 0 to be filled, where
      the target is to be created, and otherwise the target's deletion. */
  lemma {:induction false} NothingToReport(base: seq<Row>, q: Request, locks: map<Path, Text>, anchor: Path)
    requires forall i :: 0 <= i < |base| ==> !Asked(q, base[i])
    ensures Report(base, q, locks).Some?
    ensures var entries := Report(base, q, locks).value;
            if q.emptyRoot then
              |entries| == 1 && entries[0].path == [] && Read(entries, anchor, []) == Some(Node(0, anchor, q.depth, true, []))
            else entries == [DeletePath([])]
  {
    ScopeIsEmpty(base, q, |base|);
    var entries := Report(base, q, locks).value;
    assert Find(entries, [], 1) == Some(entries[0]);
  }

  /** What a reader infers about a row from the row above it. */
  predicate Inferred(row: Row, parent: Row, locks: map<Path, Text>) {
    && row.revision == parent.revision
    && row.relpath != [] && row.reposPath == parent.reposPath + [row.relpath[|row.relpath| - 1]]
    && LockOf(locks, row) == [] && row.presence == Normal
    && (row.isDir ==> row.depth == None || row.depth == Some(Infinity))
  }

  /** A row below the target is left out exactly when a reader infers it from the row above it: the
      same revision, the place that follows from the parent's, no lock, not incomplete, and if it is
      a directory, of infinite depth. */
  lemma {:induction false} LeftOutExactly(base: seq<Row>, q: Request, locks: map<Path, Text>, nodes: seq<Row>, j: nat, k: nat)
      returns (entries: seq<Entry>)
    requires Visits(base, q, nodes) && j < k < |nodes|
    requires Present(nodes[k]) && nodes[k].relpath != q.target && IsParent(nodes[j], nodes[k])
    ensures Report(base, q, locks) == Some(entries)
    ensures Find(entries, ReportPath(q, nodes[k]), |entries|) == None <==> Inferred(nodes[k], nodes[j], locks)
  {
    entries := OwnEntry(base, q, nodes, locks, k);
    ParentPathFound(base, q, nodes, j, k);
    RevisionRemembered(base, q, nodes, j, k);
    var _ := ParentVisited(base, q, nodes, k);
    assert NodeEntry(base, nodes, q, locks, k) ==
           Some(Reporting(q, nodes[k], false, Switched(nodes[j].reposPath, nodes[k], q), Some(nodes[j].revision), LockOf(locks, nodes[k])));
  }

  /** A missing node is never left out, nor is the first. */
  lemma {:induction false} NeverLeftOut(base: seq<Row>, q: Request, locks: map<Path, Text>, nodes: seq<Row>, k: nat)
      returns (entries: seq<Entry>)
    requires Visits(base, q, nodes) && k < |nodes| && (k == 0 || !Present(nodes[k]))
    ensures Report(base, q, locks) == Some(entries) && Find(entries, ReportPath(q, nodes[k]), |entries|).Some?
  {
    entries := OwnEntry(base, q, nodes, locks, k);
  }
}
