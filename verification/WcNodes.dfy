/** The layered NODES table of a working copy (wc/schema.go, wc/local.go): what each local operation
    makes of its rows. */
module WcNodes {
  import opened Common
  import opened Decimal
  import opened Paths

  datatype Kind = File | Dir

  datatype Presence = Normal | Incomplete | BaseDeleted | NotPresent | Excluded | ServerExcluded

  /** The primary key: a place, and the depth of the operation that put the row there; 0 is BASE. */
  datatype Key = Key(path: Path, opDepth: nat)

  datatype Node = Node(presence: Presence, kind: Kind, reposPath: Option<Path>, revision: int, checksum: Option<Text>,
                       properties: Text, movedHere: bool, movedTo: Option<Path>)

  type Table = map<Key, Node>

  /** relpathDepth. */
  function Depth(p: Path): nat {
    |p|
  }

  // ----- the layers -----

  /** No operation reaches higher than the place it is made at. */
  ghost predicate Bounded(nodes: Table) {
    forall k :: k in nodes ==> k.opDepth <= Depth(k.path)
  }

  /** NODES_BASE. */
  ghost function Base(nodes: Table): Table {
    map k | k in nodes && k.opDepth == 0 :: nodes[k]
  }

  /** The highest layer with a row at the place, from a depth downward. */
  function TopFrom(nodes: Table, p: Path, n: nat): Option<Key> {
    if Key(p, n) in nodes then Some(Key(p, n)) else if n == 0 then None else TopFrom(nodes, p, n - 1)
  }

  /** NODES_CURRENT: the row of the highest layer. */
  function Top(nodes: Table, p: Path): Option<Key> {
    TopFrom(nodes, p, Depth(p))
  }

  lemma {:induction false} TopFromIs(nodes: Table, p: Path, n: nat)
    ensures match TopFrom(nodes, p, n)
            case Some(k) => k in nodes && k.path == p && k.opDepth <= n && forall d :: k.opDepth < d <= n ==> Key(p, d) !in nodes
            case None => forall d :: 0 <= d <= n ==> Key(p, d) !in nodes
  {
    if Key(p, n) !in nodes && n > 0 {
      TopFromIs(nodes, p, n - 1);
    }
  }

  /** In a bounded table it is the row with the largest op_depth. */
  lemma {:induction false} TopIsMax(nodes: Table, p: Path)
    requires Bounded(nodes)
    ensures match Top(nodes, p)
            case Some(k) => k in nodes && k.path == p && forall m :: m in nodes && m.path == p ==> m.opDepth <= k.opDepth
            case None => forall m :: m in nodes ==> m.path != p
  {
    TopFromIs(nodes, p, Depth(p));
    forall m | m in nodes && m.path == p
      ensures Top(nodes, p).Some? && m.opDepth <= Top(nodes, p).value.opDepth
    {
      assert m == Key(p, m.opDepth);
    }
  }

  /** The places with a row at or below a place. */
  function Subtree(nodes: Table, root: Path): set<Path> {
    set k | k in nodes && root <= k.path :: k.path
  }

  function Upper(nodes: Table, root: Path): set<Key> {
    set k | k in nodes && root <= k.path && k.opDepth > 0
  }

  // ----- what the operations do to the rows -----

  /** addPath's row. */
  function AddedNode(kind: Kind, properties: Text): Node {
    Node(Normal, kind, None, -1, None, properties, false, None)
  }

  /** The upsert of addPath: an existing row only changes presence, kind and properties. */
  function Upserted(nodes: Table, k: Key, kind: Kind, properties: Text): Node {
    if k in nodes then nodes[k].(presence := Normal, kind := kind, properties := properties)
    else AddedNode(kind, properties)
  }

  /** Copy's row for a current row of the source. */
  function CopyOf(n: Node): Node {
    Node(Normal, n.kind, n.reposPath, n.revision, n.checksum, n.properties, false, None)
  }

  /** Where the copy of a place lies, and the layer it is put in. */
  function Target(source: Path, destination: Path, p: Path): Key
    requires source <= p
  {
    Key(destination + p[|source|..], Depth(destination))
  }

  /** The place that a row of the copy stands for. */
  function Origin(source: Path, destination: Path, k: Key): Path {
    if destination <= k.path then source + k.path[|destination|..] else source
  }

  lemma {:induction false} OriginOfTarget(source: Path, destination: Path, p: Path)
    requires source <= p
    ensures Origin(source, destination, Target(source, destination, p)) == p
  {
    var s := p[|source|..];
    assert (destination + s)[|destination|..] == s;
    assert p == source + s;
  }

  function CopyKeys(nodes: Table, source: Path, destination: Path): set<Key> {
    set p | p in Subtree(nodes, source) :: Target(source, destination, p)
  }

  /** The rows that a copy inserts: one for the current row of every place of the source. */
  function Copies(nodes: Table, source: Path, destination: Path): Table {
    map k | k in CopyKeys(nodes, source, destination) && HasTop(nodes, Origin(source, destination, k))
      :: CopyOf(nodes[Top(nodes, Origin(source, destination, k)).value])
  }

  predicate HasTop(nodes: Table, p: Path) {
    Top(nodes, p).Some? && Top(nodes, p).value in nodes
  }

  function DeletedNode(n: Node): Node {
    Node(BaseDeleted, n.kind, None, -1, None, [], false, None)
  }

  /** The rows of the layer that marks the BASE rows at and below a place as deleted. */
  function DeleteLayer(nodes: Table, root: Path): Table {
    map p | p in Subtree(nodes, root) && Key(p, 0) in nodes :: Key(p, Depth(root)) := DeletedNode(nodes[Key(p, 0)])
  }

  // ----- the operations on the whole table -----

  /** insertDeleteLayer: the layers above BASE at and below the place go, and a layer of deletions
      comes. */
  function WithDeleteLayer(nodes: Table, root: Path): Table {
    (nodes - Upper(nodes, root)) + DeleteLayer(nodes, root)
  }

  /** Delete: what is only added is unscheduled; anything with a BASE row is marked as deleted. */
  function Deleted(nodes: Table, root: Path): Table {
    if Key(root, 0) !in nodes && HasTop(nodes, root) then nodes - Upper(nodes, root) else WithDeleteLayer(nodes, root)
  }

  /** The places that a revert visits. */
  datatype RevertDepth = DepthEmpty | DepthFiles | DepthImmediates | DepthInfinity

  function RevertPaths(nodes: Table, root: Path, depth: RevertDepth): set<Path> {
    set p | p in Subtree(nodes, root) && HasTop(nodes, p) && Reverts(nodes, root, depth, p)
  }

  predicate Reverts(nodes: Table, root: Path, depth: RevertDepth, p: Path)
    requires HasTop(nodes, p)
  {
    p == root ||
    match depth
    case DepthEmpty => false
    case DepthFiles => p != [] && Dirname(p) == root && nodes[Top(nodes, p).value].kind != Dir
    case DepthImmediates => p != [] && Dirname(p) == root
    case DepthInfinity => root <= p
  }

  function RevertKeys(nodes: Table, paths: set<Path>): set<Key> {
    set k | k in nodes && k.path in paths && k.opDepth > 0
  }

  function Reverted(nodes: Table, root: Path, depth: RevertDepth): Table {
    nodes - RevertKeys(nodes, RevertPaths(nodes, root, depth))
  }

  // ----- BASE stays, and no layer is too high -----

  lemma {:induction false} UpperKeepsBase(nodes: Table, keys: set<Key>)
    requires forall k :: k in keys ==> k.opDepth > 0
    ensures Base(nodes - keys) == Base(nodes)
  {
  }

  lemma {:induction false} LayerKeepsBase(nodes: Table, more: Table)
    requires forall k :: k in more ==> k.opDepth > 0
    ensures Base(nodes + more) == Base(nodes)
  {
  }

  lemma {:induction false} DeletedKeeps(nodes: Table, root: Path)
    requires root != [] && Bounded(nodes)
    ensures Base(Deleted(nodes, root)) == Base(nodes) && Bounded(Deleted(nodes, root))
  {
    UpperKeepsBase(nodes, Upper(nodes, root));
    LayerKeepsBase(nodes - Upper(nodes, root), DeleteLayer(nodes, root));
  }

  lemma {:induction false} CopiesAre(nodes: Table, source: Path, destination: Path)
    ensures forall k :: k in Copies(nodes, source, destination) ==>
              destination <= k.path && k.opDepth == Depth(destination)
  {
  }

  lemma {:induction false} CopiedKeeps(nodes: Table, source: Path, destination: Path)
    requires destination != [] && Bounded(nodes)
    ensures Base(nodes + Copies(nodes, source, destination)) == Base(nodes)
    ensures Bounded(nodes + Copies(nodes, source, destination))
  {
    CopiesAre(nodes, source, destination);
    LayerKeepsBase(nodes, Copies(nodes, source, destination));
  }

  lemma {:induction false} RevertedKeeps(nodes: Table, root: Path, depth: RevertDepth)
    requires Bounded(nodes)
    ensures Base(Reverted(nodes, root, depth)) == Base(nodes) && Bounded(Reverted(nodes, root, depth))
  {
    UpperKeepsBase(nodes, RevertKeys(nodes, RevertPaths(nodes, root, depth)));
  }

  /** The current row of every place at or below the root is its BASE row. */
  ghost predicate CurrentIsBase(nodes: Table, root: Path) {
    forall p :: root <= p ==> Top(nodes, p) == if Key(p, 0) in nodes then Some(Key(p, 0)) else None
  }

  /** Reverting at depth infinity makes what is current what is in BASE, on the whole subtree, and
      leaves everything outside it alone. */
  lemma {:induction false} RevertRestores(nodes: Table, root: Path)
    requires Bounded(nodes)
    ensures CurrentIsBase(Reverted(nodes, root, DepthInfinity), root)
    ensures forall k: Key :: !(root <= k.path) ==> (k in Reverted(nodes, root, DepthInfinity) <==> k in nodes)
  {
    var after := Reverted(nodes, root, DepthInfinity);
    RevertedKeeps(nodes, root, DepthInfinity);
    forall p | root <= p
      ensures Top(after, p) == if Key(p, 0) in nodes then Some(Key(p, 0)) else None
    {
      forall k | k in after && k.path == p
        ensures k == Key(p, 0)
      {
        TopIsMax(nodes, p);
        assert p in Subtree(nodes, root);
        assert p in RevertPaths(nodes, root, DepthInfinity);
      }
      TopIsMax(after, p);
      assert Key(p, 0) in nodes ==> Key(p, 0) in after;
    }
  }

  /** After a delete every place at or below it is either not versioned at all or marked as deleted
      in the layer of the operation, over an untouched BASE row. */
  lemma {:induction false} DeleteHides(nodes: Table, root: Path, p: Path)
    requires root != [] && Bounded(nodes) && root <= p && Key(root, 0) in nodes
    ensures var after := Deleted(nodes, root);
            Top(after, p) == if Key(p, 0) in nodes then Some(Key(p, Depth(root))) else None
    ensures Key(p, 0) in nodes ==> Deleted(nodes, root)[Key(p, Depth(root))].presence == BaseDeleted
  {
    var after := Deleted(nodes, root);
    DeletedKeeps(nodes, root);
    TopIsMax(after, p);
    if Key(p, 0) in nodes {
      assert p in Subtree(nodes, root);
      assert Key(p, Depth(root)) in DeleteLayer(nodes, root);
    }
    forall k | k in after && k.path == p && k.opDepth > 0
      ensures k == Key(p, Depth(root)) && Key(p, 0) in nodes
    {
      assert k in DeleteLayer(nodes, root);
    }
  }

  /** A copy has at each place the current row of the place it was copied from, made normal. */
  lemma {:induction false} CopyMirrors(nodes: Table, source: Path, destination: Path, p: Path)
    requires Bounded(nodes) && source <= p
    ensures var k := Target(source, destination, p);
            && (k in Copies(nodes, source, destination) <==> HasTop(nodes, p))
            && (HasTop(nodes, p) <==> Top(nodes, p).Some?)
            && (HasTop(nodes, p) ==> Copies(nodes, source, destination)[k] == CopyOf(nodes[Top(nodes, p).value]))
  {
    OriginOfTarget(source, destination, p);
    TopIsMax(nodes, p);
    var k := Target(source, destination, p);
    if Top(nodes, p).Some? {
      assert p in Subtree(nodes, source);
      assert k in CopyKeys(nodes, source, destination);
    }
  }

  // ----- adding a tree -----

  /** What lies on the disk: the properties that an unversioned file would get, or the entries of a
      directory, of which some are ignored. */
  datatype Disk = DiskFile(properties: Text) | DiskDir(properties: Text, entries: seq<DiskEntry>)

  datatype DiskEntry = DiskEntry(name: Text, node: Disk, ignored: bool)

  datatype AddDepth = AddEmpty | AddFiles | AddImmediates | AddInfinity

  function KindOf(disk: Disk): Kind {
    if disk.DiskDir? then Dir else File
  }

  function ChildDepth(depth: AddDepth): AddDepth {
    if depth.AddFiles? || depth.AddImmediates? then AddEmpty else depth
  }

  predicate Adds(depth: AddDepth, entry: DiskEntry) {
    !(depth.AddFiles? && entry.node.DiskDir?) && !entry.ignored
  }

  /** addPath: the place itself, and below a directory what the depth asks for; all in one layer. */
  function AddedTree(nodes: Table, p: Path, disk: Disk, opDepth: nat, depth: AddDepth): Table
    decreases disk, 1, 0
  {
    var k := Key(p, opDepth);
    var added := nodes[k := Upserted(nodes, k, KindOf(disk), disk.properties)];
    if disk.DiskFile? || depth.AddEmpty? then added else AddedEntries(added, p, disk, opDepth, depth, |disk.entries|)
  }

  function AddedEntries(nodes: Table, p: Path, disk: Disk, opDepth: nat, depth: AddDepth, n: nat): Table
    requires disk.DiskDir? && n <= |disk.entries|
    decreases disk, 0, n
  {
    if n == 0 then nodes
    else
      var before := AddedEntries(nodes, p, disk, opDepth, depth, n - 1);
      var entry := disk.entries[n - 1];
      if Adds(depth, entry) then AddedTree(before, p + [entry.name], entry.node, opDepth, ChildDepth(depth)) else before
  }

  lemma {:induction false} AddedTreeKeeps(nodes: Table, p: Path, disk: Disk, opDepth: nat, depth: AddDepth)
    requires 0 < opDepth <= Depth(p) && Bounded(nodes)
    ensures Base(AddedTree(nodes, p, disk, opDepth, depth)) == Base(nodes)
    ensures Bounded(AddedTree(nodes, p, disk, opDepth, depth))
    decreases disk, 1, 0
  {
    var k := Key(p, opDepth);
    var added := nodes[k := Upserted(nodes, k, KindOf(disk), disk.properties)];
    assert Base(added) == Base(nodes);
    if disk.DiskDir? && !depth.AddEmpty? {
      AddedEntriesKeep(added, p, disk, opDepth, depth, |disk.entries|);
    }
  }

  lemma {:induction false} AddedEntriesKeep(nodes: Table, p: Path, disk: Disk, opDepth: nat, depth: AddDepth, n: nat)
    requires disk.DiskDir? && n <= |disk.entries| && 0 < opDepth <= Depth(p) && Bounded(nodes)
    ensures Base(AddedEntries(nodes, p, disk, opDepth, depth, n)) == Base(nodes)
    ensures Bounded(AddedEntries(nodes, p, disk, opDepth, depth, n))
    decreases disk, 0, n
  {
    if n > 0 {
      AddedEntriesKeep(nodes, p, disk, opDepth, depth, n - 1);
      var entry := disk.entries[n - 1];
      if Adds(depth, entry) {
        AddedTreeKeeps(AddedEntries(nodes, p, disk, opDepth, depth, n - 1), p + [entry.name], entry.node, opDepth,
                       ChildDepth(depth));
      }
    }
  }

  // ----- moving a tree -----

  /** A copy is refused at the root, below the source, where something lies on the disk, as it does
      at the source and above it, and where a row is in the way. */
  predicate CanCopy(nodes: Table, source: Path, destination: Path) {
    && source != [] && destination != [] && !(source <= destination) && !(destination <= source)
    && HasTop(nodes, source)
    && Copies(nodes, source, destination).Keys !! nodes.Keys
  }

  function Copied(nodes: Table, source: Path, destination: Path): Table {
    nodes + Copies(nodes, source, destination)
  }

  /** A row marked as moved here. */
  function MarkedHere(nodes: Table, destination: Path): Table {
    var k := Key(destination, Depth(destination));
    if k in nodes then nodes[k := nodes[k].(movedHere := true)] else nodes
  }

  /** No two rows of a layer are moved to one place. */
  predicate MoveFree(nodes: Table, source: Path, destination: Path) {
    forall k :: k in nodes && k.opDepth == Depth(source) && k.path != source ==> nodes[k].movedTo != Some(destination)
  }

  function MarkedMoved(nodes: Table, source: Path, destination: Path): Table {
    var k := Key(source, Depth(source));
    if k in nodes && MoveFree(nodes, source, destination) then nodes[k := nodes[k].(movedTo := Some(destination))]
    else nodes
  }

  /** Move: a copy, a delete, and for a source with a revision the two marks. */
  function Moved(nodes: Table, source: Path, destination: Path): Table
    requires HasTop(nodes, source)
  {
    var after := Deleted(Copied(nodes, source, destination), source);
    if nodes[Top(nodes, source).value].revision < 0 then after
    else MarkedMoved(MarkedHere(after, destination), source, destination)
  }

  lemma {:induction false} MarksKeep(nodes: Table, k: Key, n: Node)
    requires k in nodes && k.opDepth > 0 && Bounded(nodes)
    ensures Base(nodes[k := n]) == Base(nodes) && Bounded(nodes[k := n])
  {
  }

  lemma {:induction false} MovedKeeps(nodes: Table, source: Path, destination: Path)
    requires CanCopy(nodes, source, destination) && Bounded(nodes)
    ensures Base(Moved(nodes, source, destination)) == Base(nodes) && Bounded(Moved(nodes, source, destination))
  {
    var copied := Copied(nodes, source, destination);
    CopiedKeeps(nodes, source, destination);
    DeletedKeeps(copied, source);
    var after := Deleted(copied, source);
    var here := MarkedHere(after, destination);
    if here != after {
      var k := Key(destination, Depth(destination));
      MarksKeep(after, k, after[k].(movedHere := true));
    }
    var moved := MarkedMoved(here, source, destination);
    if moved != here {
      var k := Key(source, Depth(source));
      MarksKeep(here, k, here[k].(movedTo := Some(destination)));
    }
  }

  /** Neither of two places lies at or below the other, so nothing lies below both. */
  lemma {:induction false} Disjoint(source: Path, destination: Path, p: Path)
    requires !(source <= destination) && !(destination <= source)
    ensures !(source <= p && destination <= p)
  {
  }

  /** The marks of a move are all that is different about a row. */
  lemma {:induction false} OnlyMarked(nodes: Table, source: Path, destination: Path, k: Key)
    requires k in nodes
    ensures var marked := MarkedMoved(MarkedHere(nodes, destination), source, destination);
            k in marked
            && marked[k].(movedHere := false, movedTo := None) == nodes[k].(movedHere := false, movedTo := None)
            && (k.path != source ==> marked[k].movedTo == nodes[k].movedTo)
  {
  }

  lemma {:induction false} CopySurvives(nodes: Table, source: Path, destination: Path, p: Path)
    requires CanCopy(nodes, source, destination) && Bounded(nodes) && source <= p && HasTop(nodes, p)
    ensures var (after, k) := (Deleted(Copied(nodes, source, destination), source), Target(source, destination, p));
            k.path != source && k in after && after[k] == CopyOf(nodes[Top(nodes, p).value])
  {
    var k := Target(source, destination, p);
    CopyMirrors(nodes, source, destination, p);
    assert destination <= k.path;
    Disjoint(source, destination, k.path);
  }

  lemma {:induction false} SourceHidden(nodes: Table, source: Path, destination: Path, p: Path)
    requires CanCopy(nodes, source, destination) && Bounded(nodes) && source <= p
    requires Key(source, 0) in nodes && Key(p, 0) in nodes
    ensures var (after, k) := (Deleted(Copied(nodes, source, destination), source), Key(p, Depth(source)));
            k in after && after[k].presence == BaseDeleted
  {
    var copied := Copied(nodes, source, destination);
    CopiedKeeps(nodes, source, destination);
    DeleteHides(copied, source, p);
    TopFromIs(Deleted(copied, source), p, Depth(p));
  }

  /** After a move, what was current at a place of the source is found at the corresponding place
      of the destination. */
  lemma {:induction false} MoveCarries(nodes: Table, source: Path, destination: Path, p: Path)
    requires CanCopy(nodes, source, destination) && Bounded(nodes) && source <= p && HasTop(nodes, p)
    ensures var (after, k) := (Moved(nodes, source, destination), Target(source, destination, p));
            k in after && after[k].(movedHere := false) == CopyOf(nodes[Top(nodes, p).value])
  {
    CopySurvives(nodes, source, destination, p);
    OnlyMarked(Deleted(Copied(nodes, source, destination), source), source, destination, Target(source, destination, p));
  }

  lemma {:induction false} MoveHides(nodes: Table, source: Path, destination: Path, p: Path)
    requires CanCopy(nodes, source, destination) && Bounded(nodes) && source <= p
    requires Key(source, 0) in nodes && Key(p, 0) in nodes
    ensures var (after, k) := (Moved(nodes, source, destination), Key(p, Depth(source)));
            k in after && after[k].presence == BaseDeleted
  {
    SourceHidden(nodes, source, destination, p);
    MovedKeepsPresence(nodes, source, destination, Deleted(Copied(nodes, source, destination), source), Key(p, Depth(source)));
  }

  lemma {:induction false} MovedKeepsPresence(nodes: Table, source: Path, destination: Path, unmarked: Table, k: Key)
    requires HasTop(nodes, source) && unmarked == Deleted(Copied(nodes, source, destination), source) && k in unmarked
    ensures k in Moved(nodes, source, destination) && Moved(nodes, source, destination)[k].presence == unmarked[k].presence
  {
    OnlyMarked(unmarked, source, destination, k);
  }

  /** That, and a source with a BASE row is marked as deleted at every place it had in BASE. */
  lemma {:induction false} MoveRelocates(nodes: Table, source: Path, destination: Path, p: Path)
    requires CanCopy(nodes, source, destination) && Bounded(nodes) && source <= p && HasTop(nodes, p)
    ensures var (after, k) := (Moved(nodes, source, destination), Target(source, destination, p));
            k in after && after[k].(movedHere := false) == CopyOf(nodes[Top(nodes, p).value])
    ensures Key(source, 0) in nodes && Key(p, 0) in nodes ==>
              var k := Key(p, Depth(source));
              k in Moved(nodes, source, destination) && Moved(nodes, source, destination)[k].presence == BaseDeleted
  {
    MoveCarries(nodes, source, destination, p);
    if Key(source, 0) in nodes && Key(p, 0) in nodes {
      MoveHides(nodes, source, destination, p);
    }
  }

  // ----- runs of local operations -----

  datatype Action =
    | Add(path: Path, disk: Disk, depth: AddDepth)
    | Copy(source: Path, destination: Path)
    | Move(source: Path, destination: Path)
    | Delete(path: Path)
    | Revert(path: Path, revertDepth: RevertDepth)

  /** What an operation makes of the table; one that is refused leaves it as it is. */
  ghost function Act(nodes: Table, a: Action): Table {
    match a
    case Add(path, disk, depth) => if path == [] then nodes else AddedTree(nodes, path, disk, Depth(path), depth)
    case Copy(source, destination) =>
      if CanCopy(nodes, source, destination) then Copied(nodes, source, destination) else nodes
    case Move(source, destination) =>
      if CanCopy(nodes, source, destination) then Moved(nodes, source, destination) else nodes
    case Delete(path) => if path == [] || !HasTop(nodes, path) then nodes else Deleted(nodes, path)
    case Revert(path, depth) => Reverted(nodes, path, depth)
  }

  ghost function After(nodes: Table, actions: seq<Action>, n: nat): Table
    requires n <= |actions|
  {
    if n == 0 then nodes else Act(After(nodes, actions, n - 1), actions[n - 1])
  }

  lemma {:induction false} ActKeeps(nodes: Table, a: Action)
    requires Bounded(nodes)
    ensures Base(Act(nodes, a)) == Base(nodes) && Bounded(Act(nodes, a))
  {
    match a {
      case Add(path, disk, depth) => if path != [] { AddedTreeKeeps(nodes, path, disk, Depth(path), depth); }
      case Copy(source, destination) =>
        if CanCopy(nodes, source, destination) { CopiedKeeps(nodes, source, destination); }
      case Move(source, destination) =>
        if CanCopy(nodes, source, destination) { MovedKeeps(nodes, source, destination); }
      case Delete(path) => if path != [] && HasTop(nodes, path) { DeletedKeeps(nodes, path); }
      case Revert(path, depth) => RevertedKeeps(nodes, path, depth);
    }
  }

  /** No sequence of adding, copying, moving, deleting and reverting touches a row of the BASE
      layer, or puts a row in a layer above the depth of its place. */
  lemma {:induction false} LocalOperationsKeepBase(nodes: Table, actions: seq<Action>, n: nat)
    requires n <= |actions| && Bounded(nodes)
    ensures Base(After(nodes, actions, n)) == Base(nodes) && Bounded(After(nodes, actions, n))
  {
    if n > 0 {
      LocalOperationsKeepBase(nodes, actions, n - 1);
      ActKeeps(After(nodes, actions, n - 1), actions[n - 1]);
    }
  }

  /** Whatever was done, reverting everything brings back the BASE layer, and nothing else. */
  lemma {:induction false} RevertUndoesAll(nodes: Table, actions: seq<Action>)
    requires Bounded(nodes)
    ensures Reverted(After(nodes, actions, |actions|), [], DepthInfinity) == Base(nodes)
  {
    var after := After(nodes, actions, |actions|);
    LocalOperationsKeepBase(nodes, actions, |actions|);
    forall k | k in after && k.opDepth > 0
      ensures k in RevertKeys(after, RevertPaths(after, [], DepthInfinity))
    {
      TopIsMax(after, k.path);
      assert k.path in Subtree(after, []);
    }
    assert Reverted(after, [], DepthInfinity) == Base(after);
  }
}
