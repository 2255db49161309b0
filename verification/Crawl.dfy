/** The crawl of the working copy's BASE layer (wc/crawl.go): what is reported to the server about
    each node, and that nothing is lost by what is not reported. */
module Crawl {
  import opened Common
  import opened Decimal
  import opened Paths

  const INVALID_REVNUM := -1

  datatype Depth = Unknown | Exclude | Empty | Files | Immediates | Infinity

  datatype Presence = Normal | Incomplete | Excluded | ServerExcluded | NotPresent

  /** A row of NODES_BASE. */
  datatype Row = Row(relpath: Path, reposPath: Path, revision: int, presence: Presence, isDir: bool, depth: Option<Depth>)

  /** The calls on the reporter. */
  datatype Entry =
    | SetPath(path: Path, revision: int, depth: Depth, startEmpty: bool, lock: Text)
    | LinkPath(path: Path, reposPath: Path, revision: int, depth: Depth, startEmpty: bool, lock: Text)
    | DeletePath(path: Path)

  predicate Present(row: Row) {
    row.presence == Normal || row.presence == Incomplete
  }

  /** withinDepth: the candidate is the target, or lies as far below it as the depth allows. */
  predicate WithinDepth(target: Path, candidate: Path, depth: Depth, file: bool) {
    candidate == target ||
    (target < candidate &&
     var level := |candidate| - |target|;
     match depth
     case Empty => false
     case Exclude => false
     case Files => level == 1 && file
     case Immediates => level == 1
     case _ => true)
  }

  /** What the crawl is asked for. */
  datatype Request = Request(target: Path, depth: Depth, emptyRoot: bool, suppressRootLink: bool)

  /** The rows among the first n that are in scope. */
  function InScope(base: seq<Row>, q: Request, n: nat): seq<Row>
    requires n <= |base|
  {
    if n == 0 then []
    else if WithinDepth(q.target, base[n - 1].relpath, q.depth, !base[n - 1].isDir)
    then InScope(base, q, n - 1) + [base[n - 1]]
    else InScope(base, q, n - 1)
  }

  /** The repository path of the first row at this place. */
  function ReposPathAt(rows: seq<Row>, relpath: Path, i: nat): Option<Path>
    requires i <= |rows|
    decreases |rows| - i
  {
    if i == |rows| then None
    else if rows[i].relpath == relpath then Some(rows[i].reposPath)
    else ReposPathAt(rows, relpath, i + 1)
  }

  /** The parent's repository path: among the nodes in scope, or where that says nothing, in the
      table, where it must be found for all but the root. */
  function ParentReposPath(base: seq<Row>, nodes: seq<Row>, row: Row): Option<Path> {
    var parent := Dirname(row.relpath);
    var near := ReposPathAt(nodes, parent, 0);
    if near.Some? && near.value != [] then near
    else if row.relpath == [] then Some([])
    else ReposPathAt(base, parent, 0)
  }

  /** The row is not where its parent's repository path would have it. */
  predicate Switched(parentReposPath: Path, row: Row, q: Request) {
    && row.relpath != []
    && parentReposPath + [row.relpath[|row.relpath| - 1]] != row.reposPath
    && !(q.suppressRootLink && row.relpath == q.target)
  }

  function NodeDepth(row: Row): Depth {
    if row.depth.Some? then row.depth.value else Infinity
  }

  /** No lock is an empty token. */
  function LockOf(locks: map<Path, Text>, row: Row): Text {
    if row.reposPath in locks then locks[row.reposPath] else []
  }

  predicate MustReport(first: bool, switched: bool, parentRevision: Option<int>, row: Row, lock: Text) {
    || first || switched || parentRevision != Some(row.revision) || lock != []
    || row.presence == Incomplete || (row.isDir && NodeDepth(row) != Infinity)
  }

  /** The path below the target. */
  function ReportPath(q: Request, row: Row): Path {
    if |q.target| <= |row.relpath| then row.relpath[|q.target|..] else []
  }

  function Excluding(q: Request, row: Row): Entry {
    SetPath(ReportPath(q, row), INVALID_REVNUM, Exclude, false, [])
  }

  /** What is reported about a present row, if anything. */
  function Reporting(q: Request, row: Row, first: bool, switched: bool, parentRevision: Option<int>, lock: Text): Option<Entry> {
    if !MustReport(first, switched, parentRevision, row, lock) then None
    else if switched then
      Some(LinkPath(ReportPath(q, row), row.reposPath, row.revision, NodeDepth(row), row.presence == Incomplete, lock))
    else
      Some(SetPath(ReportPath(q, row), row.revision, NodeDepth(row), row.presence == Incomplete, lock))
  }

  /** The revision remembered for a place when k nodes have been visited: that of the last
      present row there. */
  function Remembered(nodes: seq<Row>, k: nat, relpath: Path): Option<int>
    requires k <= |nodes|
  {
    if k == 0 then None
    else if Present(nodes[k - 1]) && nodes[k - 1].relpath == relpath then Some(nodes[k - 1].revision)
    else Remembered(nodes, k - 1, relpath)
  }

  /** What is reported about node k; an error where its parent is missing from the table. */
  function NodeEntry(base: seq<Row>, nodes: seq<Row>, q: Request, locks: map<Path, Text>, k: nat): Option<Option<Entry>>
    requires k < |nodes|
  {
    var row := nodes[k];
    if !Present(row) then Some(Some(Excluding(q, row)))
    else match ParentReposPath(base, nodes, row)
      case None => None
      case Some(parentReposPath) =>
        Some(Reporting(q, row, k == 0, Switched(parentReposPath, row, q),
                       Remembered(nodes, k, Dirname(row.relpath)), LockOf(locks, row)))
  }

  /** What is reported about each node. */
  function Told(base: seq<Row>, nodes: seq<Row>, q: Request, locks: map<Path, Text>): (told: seq<Option<Option<Entry>>>)
    ensures |told| == |nodes|
  {
    seq(|nodes|, k requires 0 <= k < |nodes| => NodeEntry(base, nodes, q, locks, k))
  }

  /** The entries about the first n nodes, up to the first error. */
  function Collect(told: seq<Option<Option<Entry>>>, n: nat): Option<seq<Entry>>
    requires n <= |told|
  {
    if n == 0 then Some([])
    else match Collect(told, n - 1)
      case None => None
      case Some(before) =>
        match told[n - 1]
        case None => None
        case Some(None) => Some(before)
        case Some(Some(e)) => Some(before + [e])
  }

  function Report(base: seq<Row>, q: Request, locks: map<Path, Text>): Option<seq<Entry>> {
    var nodes := InScope(base, q, |base|);
    if nodes == [] then Some([if q.emptyRoot then SetPath([], 0, q.depth, true, []) else DeletePath([])])
    else Collect(Told(base, nodes, q, locks), |nodes|)
  }

  // ----- the crawl -----

  lemma {:induction false} CollectFails(told: seq<Option<Option<Entry>>>, m: nat, n: nat)
    requires m <= n <= |told| && Collect(told, m) == None
    ensures Collect(told, n) == None
  {
    if m < n { CollectFails(told, m, n - 1); }
  }

  /** The body of the loop over the nodes. */
  method ReportNode(base: seq<Row>, nodes: seq<Row>, q: Request, locks: map<Path, Text>, k: nat, revisions: map<Path, int>)
      returns (e: Option<Option<Entry>>)
    requires k < |nodes|
    requires forall p :: Remembered(nodes, k, p) == if p in revisions then Some(revisions[p]) else None
    ensures e == NodeEntry(base, nodes, q, locks, k)
  {
    var row := nodes[k];
    if row.presence == Excluded || row.presence == ServerExcluded || row.presence == NotPresent {
      return Some(Some(Excluding(q, row)));
    }
    var parent := Dirname(row.relpath);
    var parentReposPath := ParentReposPath(base, nodes, row);
    if parentReposPath == None {
      return None;
    }
    var switched := Switched(parentReposPath.value, row, q);
    var parentRevision := if parent in revisions then Some(revisions[parent]) else None;
    return Some(Reporting(q, row, k == 0, switched, parentRevision, LockOf(locks, row)));
  }

  method ReportNodes(base: seq<Row>, nodes: seq<Row>, q: Request, locks: map<Path, Text>,
                     ghost told: seq<Option<Option<Entry>>>) returns (r: Option<seq<Entry>>)
    requires AreTold(base, nodes, q, locks, told)
    ensures r == Collect(told, |nodes|)
  {
    var entries := [];
    var revisions: map<Path, int> := map[];
    for k := 0 to |nodes|
      invariant Collect(told, k) == Some(entries)
      invariant forall p :: Remembered(nodes, k, p) == if p in revisions then Some(revisions[p]) else None
    {
      var e := ReportNode(base, nodes, q, locks, k, revisions);
      if e == None {
        CollectFails(told, k + 1, |nodes|);
        return None;
      }
      if e.value.Some? {
        entries := entries + [e.value.value];
      }
      if Present(nodes[k]) {
        revisions := revisions[nodes[k].relpath := nodes[k].revision];
      }
    }
    return Some(entries);
  }

  ghost predicate AreTold(base: seq<Row>, nodes: seq<Row>, q: Request, locks: map<Path, Text>,
                          told: seq<Option<Option<Entry>>>) {
    && |told| == |nodes|
    && forall k {:trigger NodeEntry(base, nodes, q, locks, k)} :: 0 <= k < |nodes| ==>
         told[k] == NodeEntry(base, nodes, q, locks, k)
  }

  method Crawl(base: seq<Row>, q: Request, locks: map<Path, Text>) returns (r: Option<seq<Entry>>)
    ensures r == Report(base, q, locks)
  {
    var nodes := [];
    for n := 0 to |base|
      invariant nodes == InScope(base, q, n)
    {
      if !WithinDepth(q.target, base[n].relpath, q.depth, !base[n].isDir) {
        continue;
      }
      nodes := nodes + [base[n]];
    }
    if |nodes| == 0 {
      if q.emptyRoot {
        return Some([SetPath([], 0, q.depth, true, [])]);
      }
      return Some([DeletePath([])]);
    }
    r := ReportNodes(base, nodes, q, locks, Told(base, nodes, q, locks));
  }

  // ----- reading a report back -----

  /** What a report says about one node. */
  datatype Node = Node(revision: int, reposPath: Path, depth: Depth, startEmpty: bool, lock: Text)

  /** The last of the first n entries that is about this place. */
  function Find(entries: seq<Entry>, p: Path, n: nat): Option<Entry>
    requires n <= |entries|
  {
    if n == 0 then None else if entries[n - 1].path == p then Some(entries[n - 1]) else Find(entries, p, n - 1)
  }

  predicate Excludes(e: Entry) {
    e.SetPath? && e.revision == INVALID_REVNUM && e.depth == Exclude
  }

  /** What a place's own entry and the node above make of it; `anchor` is the repository path the
      reader is talking to. */
  function Reading(own: Option<Entry>, above: Option<Node>, anchor: Path, p: Path): Option<Node> {
    var inherited := if p == [] then Some(anchor)
                     else if above.Some? then Some(above.value.reposPath + [p[|p| - 1]]) else None;
    match own
    case Some(LinkPath(_, reposPath, revision, depth, startEmpty, lock)) =>
      Some(Node(revision, reposPath, depth, startEmpty, lock))
    case Some(SetPath(_, revision, depth, startEmpty, lock)) =>
      if Excludes(own.value) || inherited == None then None
      else Some(Node(revision, inherited.value, depth, startEmpty, lock))
    case _ =>
      if above.Some? && p != [] then Some(Node(above.value.revision, inherited.value, Infinity, false, [])) else None
  }

  /** The node at a place, as a reader of the report alone finds it. */
  function Read(entries: seq<Entry>, anchor: Path, p: Path): Option<Node>
    decreases |p|
  {
    Reading(Find(entries, p, |entries|), if p == [] then None else Read(entries, anchor, Dirname(p)), anchor, p)
  }

  /** The node as the table has it. */
  function Actual(row: Row, locks: map<Path, Text>): Node {
    Node(row.revision, row.reposPath, NodeDepth(row), row.presence == Incomplete, LockOf(locks, row))
  }

  /** The depth is only told for directories. */
  predicate Same(a: Node, b: Node, isDir: bool) {
    a.(depth := Infinity) == b.(depth := Infinity) && (isDir ==> a.depth == b.depth)
  }
}
