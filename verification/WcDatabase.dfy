/** The working-copy database as it runs (wc/schema.go, wc/local.go, wc/commit.go, wc/workqueue.go,
    wc/update_editor.go): every change of a NODES row fires the triggers that keep the reference
    counts of the pristine texts. */
module WcDatabase {
  import opened Common
  import opened Decimal
  import opened Paths
  import opened WcNodes

  /** The rows that hold a text. */
  function Holders(nodes: Table, c: Text): set<Key> {
    set k | k in nodes && nodes[k].checksum == Some(c)
  }

  /** Every reference count is the number of rows that hold the text. */
  ghost predicate Counted(nodes: Table, pristine: map<Text, int>) {
    forall c :: c in pristine ==> pristine[c] == |Holders(nodes, c)|
  }

  ghost predicate InstalledIn(n: Node, pristine: map<Text, int>) {
    n.checksum.Some? ==> n.checksum.value in pristine
  }

  /** No row holds a text that is not installed. */
  ghost predicate Referenced(nodes: Table, pristine: map<Text, int>) {
    forall k :: k in nodes ==> InstalledIn(nodes[k], pristine)
  }

  function Holds(n: Node, c: Text): int {
    if n.checksum == Some(c) then 1 else 0
  }

  lemma {:induction false} PutHolders(nodes: Table, k: Key, n: Node, c: Text)
    ensures Holders(nodes[k := n], c) == (Holders(nodes, c) - {k}) + if n.checksum == Some(c) then {k} else {}
  {
  }

  lemma {:induction false} CountApart(s: set<Key>, k: Key)
    ensures |s - {k}| == |s| - if k in s then 1 else 0
    ensures |(s - {k}) + {k}| == |s - {k}| + 1
  {
    if k in s {
      assert s == (s - {k}) + {k};
    } else {
      assert s - {k} == s;
    }
  }

  lemma {:induction false} HoldersPut(nodes: Table, k: Key, n: Node, c: Text)
    ensures |Holders(nodes[k := n], c)| ==
            |Holders(nodes, c)| - (if k in nodes then Holds(nodes[k], c) else 0) + Holds(n, c)
  {
    PutHolders(nodes, k, n, c);
    CountApart(Holders(nodes, c), k);
    assert (Holders(nodes, c) - {k}) + {} == Holders(nodes, c) - {k};
  }

  lemma {:induction false} HoldersDrop(nodes: Table, k: Key, c: Text)
    requires k in nodes
    ensures |Holders(nodes - {k}, c)| == |Holders(nodes, c)| - Holds(nodes[k], c)
  {
    var rest := Holders(nodes, c) - {k};
    assert Holders(nodes - {k}, c) == rest;
    assert Holders(nodes, c) == if k in Holders(nodes, c) then rest + {k} else rest;
  }

  /** UPDATE pristine SET refcount = refcount + change WHERE checksum = c. */
  function Bumped(pristine: map<Text, int>, c: Option<Text>, change: int): (r: map<Text, int>)
    ensures r.Keys == pristine.Keys
  {
    if c.Some? && c.value in pristine then pristine[c.value := pristine[c.value] + change] else pristine
  }

  class Database {
    var nodes: Table
    /** The reference counts of PRISTINE. */
    var pristine: map<Text, int>
    /** The texts in the pristine store on disk. */
    var files: set<Text>

    constructor ()
      ensures Valid() && nodes == map[] && pristine == map[]
    {
      nodes, pristine, files := map[], map[], {};
    }

    /** Counts are right, no row's text is missing from the table or the store, and no layer is too high. */
    ghost predicate Valid()
      reads this
    {
      Counted(nodes, pristine) && Referenced(nodes, pristine) && pristine.Keys <= files && Bounded(nodes)
    }

    // ----- statements, with their triggers -----

    method InsertRow(k: Key, n: Node)
      requires Valid() && k !in nodes && InstalledIn(n, pristine) && k.opDepth <= Depth(k.path)
      modifies this
      ensures Valid() && nodes == old(nodes)[k := n] && pristine.Keys == old(pristine.Keys) && files == old(files)
    {
      forall c ensures |Holders(nodes[k := n], c)| == |Holders(nodes, c)| + Holds(n, c) {
        HoldersPut(nodes, k, n, c);
      }
      nodes := nodes[k := n];
      pristine := Bumped(pristine, n.checksum, 1);
    }

    method UpdateRow(k: Key, n: Node)
      requires Valid() && k in nodes && InstalledIn(n, pristine)
      modifies this
      ensures Valid() && nodes == old(nodes)[k := n] && pristine.Keys == old(pristine.Keys) && files == old(files)
    {
      var before := nodes[k];
      forall c ensures |Holders(nodes[k := n], c)| == |Holders(nodes, c)| - Holds(before, c) + Holds(n, c) {
        HoldersPut(nodes, k, n, c);
      }
      nodes := nodes[k := n];
      if n.checksum != before.checksum {
        pristine := Bumped(pristine, n.checksum, 1);
        pristine := Bumped(pristine, before.checksum, -1);
      }
    }

    method DeleteRow(k: Key)
      requires Valid() && k in nodes
      modifies this
      ensures Valid() && nodes == old(nodes) - {k} && pristine.Keys == old(pristine.Keys) && files == old(files)
    {
      var before := nodes[k];
      forall c ensures |Holders(nodes - {k}, c)| == |Holders(nodes, c)| - Holds(before, c) {
        HoldersDrop(nodes, k, c);
      }
      nodes := nodes - {k};
      pristine := Bumped(pristine, before.checksum, -1);
    }

    /** DELETE with a condition: the rows that meet it, one after the other. */
    method DeleteRows(keys: set<Key>)
      requires Valid() && keys <= nodes.Keys
      modifies this
      ensures Valid() && nodes == old(nodes) - keys && pristine.Keys == old(pristine.Keys) && files == old(files)
    {
      var todo := keys;
      while todo != {}
        invariant todo <= keys && Valid() && nodes == old(nodes) - (keys - todo)
        invariant pristine.Keys == old(pristine.Keys) && files == old(files)
        decreases |todo|
      {
        var k :| k in todo;
        DeleteRow(k);
        todo := todo - {k};
      }
    }

    /** INSERT of several rows. */
    method InsertRows(rows: Table)
      requires Valid() && rows.Keys !! nodes.Keys && Referenced(rows, pristine) && Bounded(rows)
      modifies this
      ensures Valid() && nodes == old(nodes) + rows && pristine.Keys == old(pristine.Keys) && files == old(files)
    {
      var todo := rows.Keys;
      while todo != {}
        invariant todo <= rows.Keys && Valid() && nodes == old(nodes) + (rows - todo)
        invariant pristine.Keys == old(pristine.Keys) && files == old(files)
        decreases |todo|
      {
        var k :| k in todo;
        OneMoreRow(old(nodes), rows, todo, k);
        assert InstalledIn(rows[k], pristine);
        InsertRow(k, rows[k]);
        todo := todo - {k};
      }
    }

    /** installPristine: INSERT OR IGNORE with no references yet. */
    method InstallPristine(c: Text)
      requires Valid()
      modifies this
      ensures Valid() && nodes == old(nodes) && pristine.Keys == old(pristine.Keys) + {c} && files == old(files) + {c}
    {
      files := files + {c};
      if c !in pristine {
        assert Holders(nodes, c) == {} by {
          forall k | k in nodes
            ensures nodes[k].checksum != Some(c)
          {
            assert InstalledIn(nodes[k], pristine);
          }
        }
        pristine := pristine[c := 0];
      }
    }

    // ----- local operations -----

    /** addPath. */
    method AddPath(p: Path, disk: Disk, opDepth: nat, depth: AddDepth)
      requires Valid() && 0 < opDepth <= Depth(p)
      modifies this
      ensures Valid() && nodes == AddedTree(old(nodes), p, disk, opDepth, depth) && pristine.Keys == old(pristine.Keys)
      decreases disk
    {
      var k := Key(p, opDepth);
      var n := Upserted(nodes, k, KindOf(disk), disk.properties);
      if k in nodes {
        assert InstalledIn(nodes[k], pristine);
        UpdateRow(k, n);
      } else {
        InsertRow(k, n);
      }
      if disk.DiskFile? || depth.AddEmpty? {
        return;
      }
      ghost var added := nodes;
      for n := 0 to |disk.entries|
        invariant Valid() && nodes == AddedEntries(added, p, disk, opDepth, depth, n)
        invariant pristine.Keys == old(pristine.Keys)
      {
        var entry := disk.entries[n];
        if depth.AddFiles? && entry.node.DiskDir? {
          continue;
        }
        if entry.ignored {
          continue;
        }
        AddPath(p + [entry.name], entry.node, opDepth, ChildDepth(depth));
      }
    }

    method Add(p: Path, disk: Disk, depth: AddDepth) returns (ok: bool)
      requires Valid()
      modifies this
      ensures Valid() && pristine.Keys == old(pristine.Keys)
      ensures ok == (p != []) && nodes == Act(old(nodes), Action.Add(p, disk, depth))
    {
      if p == [] {
        return false;
      }
      AddPath(p, disk, Depth(p), depth);
      return true;
    }

    method Copy(source: Path, destination: Path) returns (ok: bool)
      requires Valid()
      modifies this
      ensures Valid() && pristine.Keys == old(pristine.Keys)
      ensures ok == CanCopy(old(nodes), source, destination)
      ensures nodes == if ok then Copied(old(nodes), source, destination) else old(nodes)
    {
      ok := CanCopy(nodes, source, destination);
      if ok {
        var rows := Copies(nodes, source, destination);
        CopiesAre(nodes, source, destination);
        forall k | k in rows
          ensures InstalledIn(rows[k], pristine)
        {
          assert InstalledIn(nodes[Top(nodes, Origin(source, destination, k)).value], pristine);
        }
        InsertRows(rows);
      }
    }

    /** insertDeleteLayer. */
    method InsertDeleteLayer(root: Path)
      requires Valid() && root != []
      modifies this
      ensures Valid() && pristine.Keys == old(pristine.Keys) && nodes == WithDeleteLayer(old(nodes), root)
    {
      ghost var before := nodes;
      DeleteRows(Upper(nodes, root));
      var rows := DeleteLayer(nodes, root);
      assert rows == DeleteLayer(before, root) by {
        SameLayer(before, root);
      }
      InsertRows(rows);
    }

    method Delete(p: Path) returns (ok: bool)
      requires Valid()
      modifies this
      ensures Valid() && pristine.Keys == old(pristine.Keys)
      ensures ok == (p != [] && HasTop(old(nodes), p)) && nodes == Act(old(nodes), Action.Delete(p))
    {
      ok := p != [] && HasTop(nodes, p);
      if ok {
        if Top(nodes, p).value.opDepth > 0 && Key(p, 0) !in nodes {
          DeleteRows(Upper(nodes, p));
        } else {
          TopFromIs(nodes, p, Depth(p));
          assert Top(nodes, p).value == Key(p, Top(nodes, p).value.opDepth);
          InsertDeleteLayer(p);
        }
      }
    }

    method Move(source: Path, destination: Path) returns (ok: bool)
      requires Valid()
      modifies this
      ensures Valid() && pristine.Keys == old(pristine.Keys)
      ensures ok == CanCopy(old(nodes), source, destination) && nodes == Act(old(nodes), Action.Move(source, destination))
    {
      ghost var before := nodes;
      if source == [] || !HasTop(nodes, source) {
        return false;
      }
      var revision := nodes[Top(nodes, source).value].revision;
      ok := Copy(source, destination);
      if !ok {
        return;
      }
      StillTop(before, source, destination);
      var _ := Delete(source);
      assert nodes == Deleted(Copied(before, source, destination), source);
      if revision < 0 {
        return;
      }
      var here, gone := Key(destination, Depth(destination)), Key(source, Depth(source));
      if here in nodes {
        assert InstalledIn(nodes[here], pristine);
        UpdateRow(here, nodes[here].(movedHere := true));
      }
      if gone in nodes && MoveFree(nodes, source, destination) {
        assert InstalledIn(nodes[gone], pristine);
        UpdateRow(gone, nodes[gone].(movedTo := Some(destination)));
      }
    }

    method Revert(root: Path, depth: RevertDepth)
      requires Valid()
      modifies this
      ensures Valid() && pristine.Keys == old(pristine.Keys) && nodes == Reverted(old(nodes), root, depth)
    {
      var paths := RevertPaths(nodes, root, depth);
      var todo := paths;
      while todo != {}
        invariant todo <= paths && Valid() && pristine.Keys == old(pristine.Keys)
        invariant nodes == old(nodes) - RevertKeys(old(nodes), paths - todo)
        decreases |todo|
      {
        var p :| p in todo;
        OneMorePath(old(nodes), paths, todo, p);
        DeleteRows(set k | k in nodes && k.path == p && k.opDepth > 0);
        todo := todo - {p};
      }
    }

    // ----- after a commit -----

    /** preparePostCommit: what was deleted goes with all its layers, what was changed loses the
        layers above BASE. */
    method PreparePostCommit(committed: seq<Committed>)
      requires Valid()
      modifies this
      ensures Valid() && pristine.Keys == old(pristine.Keys)
      ensures nodes == Prepared(old(nodes), committed, |committed|)
      ensures forall k :: k in nodes <==> k in old(nodes) && forall i :: 0 <= i < |committed| ==>
                !(if committed[i].deleted then committed[i].path <= k.path else k.path == committed[i].path && k.opDepth > 0)
      ensures forall k :: k in nodes ==> nodes[k] == old(nodes)[k]
    {
      PreparedAre(nodes, committed, |committed|);
      for n := 0 to |committed|
        invariant Valid() && pristine.Keys == old(pristine.Keys) && nodes == Prepared(old(nodes), committed, n)
      {
        DeleteRows(CommittedKeys(nodes, committed[n]));
      }
    }

    /** finalizeCommittedMetadata: the new texts are installed, and then the BASE rows get the new
        revision and checksum. */
    method Finalize(committed: seq<Committed>, revision: int)
      requires Valid()
      modifies this
      ensures Valid()
      ensures nodes == Finalized(old(nodes), committed, revision, |committed|)
      ensures nodes.Keys == old(nodes).Keys
      ensures forall k :: k in nodes && (k.opDepth > 0 || forall i :: 0 <= i < |committed| ==> committed[i].path != k.path) ==>
                nodes[k] == old(nodes)[k]
      ensures DistinctPaths(committed) ==> forall i :: 0 <= i < |committed| && Key(committed[i].path, 0) in old(nodes) ==>
                nodes[Key(committed[i].path, 0)] ==
                var was := old(nodes)[Key(committed[i].path, 0)];
                if committed[i].deleted then was
                else if committed[i].text.Some? then was.(revision := revision, checksum := committed[i].text)
                else was.(revision := revision)
    {
      FinalizedAre(nodes, committed, revision, |committed|);
      for n := 0 to |committed|
        invariant Valid() && nodes == old(nodes)
        invariant forall i :: 0 <= i < n && !committed[i].deleted && committed[i].text.Some? ==> committed[i].text.value in pristine
      {
        if !committed[n].deleted && committed[n].text.Some? {
          InstallPristine(committed[n].text.value);
        }
      }
      for n := 0 to |committed|
        invariant Valid() && nodes == Finalized(old(nodes), committed, revision, n)
        invariant forall i :: 0 <= i < |committed| && !committed[i].deleted && committed[i].text.Some? ==> committed[i].text.value in pristine
      {
        var k := Key(committed[n].path, 0);
        if !committed[n].deleted && k in nodes {
          assert InstalledIn(nodes[k], pristine);
          UpdateRow(k, FinalNode(nodes[k], committed[n], revision));
        }
      }
    }

    // ----- the update editor -----

    /** writeNode for a file: an upsert into BASE, of a text that has been installed. */
    method WriteBaseFile(p: Path, n: Node)
      requires Valid() && InstalledIn(n, pristine)
      modifies this
      ensures Valid() && pristine.Keys == old(pristine.Keys) && nodes == old(nodes)[Key(p, 0) := n]
    {
      if Key(p, 0) in nodes {
        UpdateRow(Key(p, 0), n);
      } else {
        InsertRow(Key(p, 0), n);
      }
    }

    // ----- vacuum -----

    /** The vacuum of CleanupWithOptions: every text without references goes, and no other. */
    method Vacuum()
      requires Valid()
      modifies this
      ensures Valid() && nodes == old(nodes)
      ensures forall c :: c in pristine <==> c in old(pristine) && Holders(nodes, c) != {}
      ensures forall c :: c in files <==> c in old(files) && (c in old(pristine) ==> Holders(nodes, c) != {})
    {
      var unused := set c | c in pristine && pristine[c] <= 0;
      var todo := unused;
      while todo != {}
        invariant todo <= unused && nodes == old(nodes)
        invariant pristine == old(pristine) - (unused - todo) && files == old(files) - (unused - todo)
        decreases |todo|
      {
        var c :| c in todo;
        files := files - {c};
        if c in pristine && pristine[c] <= 0 {
          pristine := pristine - {c};
        }
        todo := todo - {c};
      }
      forall c | c in old(pristine)
        ensures c in unused <==> Holders(nodes, c) == {}
      {
      }
      forall k | k in nodes
        ensures InstalledIn(nodes[k], pristine)
      {
        if nodes[k].checksum.Some? {
          assert InstalledIn(nodes[k], old(pristine));
          assert k in Holders(nodes, nodes[k].checksum.value);
        }
      }
    }
  }

  lemma {:induction false} OneMoreRow(nodes: Table, rows: Table, todo: set<Key>, k: Key)
    requires rows.Keys !! nodes.Keys && k in todo && todo <= rows.Keys
    ensures k !in nodes + (rows - todo)
    ensures (nodes + (rows - todo))[k := rows[k]] == nodes + (rows - (todo - {k}))
  {
  }

  lemma {:induction false} OneMorePath(nodes: Table, paths: set<Path>, todo: set<Path>, p: Path)
    requires p in todo && todo <= paths
    ensures var now := nodes - RevertKeys(nodes, paths - todo);
            now - (set k | k in now && k.path == p && k.opDepth > 0) == nodes - RevertKeys(nodes, paths - (todo - {p}))
  {
  }

  lemma {:induction false} SameLayer(nodes: Table, root: Path)
    ensures DeleteLayer(nodes - Upper(nodes, root), root) == DeleteLayer(nodes, root)
  {
  }

  /** A copy elsewhere leaves the source's current row where it was. */
  lemma {:induction false} StillTop(nodes: Table, source: Path, destination: Path)
    requires CanCopy(nodes, source, destination)
    ensures HasTop(Copied(nodes, source, destination), source)
  {
    var copied := Copied(nodes, source, destination);
    TopFromIs(nodes, source, Depth(source));
    TopFromIs(copied, source, Depth(source));
    var k := Top(nodes, source).value;
    assert k in copied && k == Key(source, k.opDepth);
  }

  // ----- committed nodes -----

  /** A committed node; a file that was sent has its new text. */
  datatype Committed = Committed(path: Path, deleted: bool, text: Option<Text>)

  function CommittedKeys(nodes: Table, c: Committed): set<Key> {
    if c.deleted then set k | k in nodes && c.path <= k.path
    else set k | k in nodes && k.path == c.path && k.opDepth > 0
  }

  function Prepared(nodes: Table, committed: seq<Committed>, n: nat): Table
    requires n <= |committed|
  {
    if n == 0 then nodes
    else
      var before := Prepared(nodes, committed, n - 1);
      before - CommittedKeys(before, committed[n - 1])
  }

  function FinalNode(n: Node, c: Committed, revision: int): Node {
    if c.text.Some? then n.(revision := revision, checksum := c.text) else n.(revision := revision)
  }

  function Finalized(nodes: Table, committed: seq<Committed>, revision: int, n: nat): Table
    requires n <= |committed|
  {
    if n == 0 then nodes
    else
      var before := Finalized(nodes, committed, revision, n - 1);
      var k := Key(committed[n - 1].path, 0);
      if !committed[n - 1].deleted && k in before
      then before[k := FinalNode(before[k], committed[n - 1], revision)] else before
  }

  ghost predicate DistinctPaths(committed: seq<Committed>) {
    forall i, j :: 0 <= i < j < |committed| ==> committed[i].path != committed[j].path
  }

  lemma {:induction false} PreparedAre(nodes: Table, committed: seq<Committed>, n: nat)
    requires n <= |committed|
    ensures var after := Prepared(nodes, committed, n);
            && (forall k :: k in after <==> k in nodes && forall i :: 0 <= i < n ==>
                  !(if committed[i].deleted then committed[i].path <= k.path else k.path == committed[i].path && k.opDepth > 0))
            && forall k :: k in after ==> after[k] == nodes[k]
  {
    if n > 0 { PreparedAre(nodes, committed, n - 1); }
  }

  lemma {:induction false} FinalizedAre(nodes: Table, committed: seq<Committed>, revision: int, n: nat)
    requires n <= |committed|
    ensures var after := Finalized(nodes, committed, revision, n);
            && after.Keys == nodes.Keys
            && (forall k :: k in after && (k.opDepth > 0 || forall i :: 0 <= i < n ==> committed[i].path != k.path) ==>
                  after[k] == nodes[k])
            && (DistinctPaths(committed) ==> forall i :: 0 <= i < n && Key(committed[i].path, 0) in nodes ==>
                  after[Key(committed[i].path, 0)] ==
                  var was := nodes[Key(committed[i].path, 0)];
                  if committed[i].deleted then was
                  else if committed[i].text.Some? then was.(revision := revision, checksum := committed[i].text)
                  else was.(revision := revision))
  {
    if n > 0 { FinalizedAre(nodes, committed, revision, n - 1); }
  }

  /** Once a commit has been prepared and finalized, the current row of every committed place that
      has a BASE row and does not lie below a deleted one is that row, at the new revision. */
  lemma {:induction false} CommittedIsCurrent(nodes: Table, committed: seq<Committed>, revision: int, i: nat)
    requires Bounded(nodes) && DistinctPaths(committed) && i < |committed| && !committed[i].deleted
    requires Key(committed[i].path, 0) in nodes
    requires forall j :: 0 <= j < |committed| && committed[j].deleted ==> !(committed[j].path <= committed[i].path)
    ensures var after := Finalized(Prepared(nodes, committed, |committed|), committed, revision, |committed|);
            var k := Key(committed[i].path, 0);
            && Top(after, k.path) == Some(k) && k in after && after[k].revision == revision
            && after[k].checksum == (if committed[i].text.Some? then committed[i].text else nodes[k].checksum)
  {
    var prepared := Prepared(nodes, committed, |committed|);
    var k := Key(committed[i].path, 0);
    PreparedAre(nodes, committed, |committed|);
    FinalizedAre(prepared, committed, revision, |committed|);
    var after := Finalized(prepared, committed, revision, |committed|);
    assert k in prepared;
    assert Bounded(after) by {
      forall m | m in after
        ensures m.opDepth <= Depth(m.path)
      {
        assert m in prepared && m in nodes;
      }
    }
    TopIsMax(after, k.path);
    forall m | m in after && m.path == k.path
      ensures m == k
    {
      assert m in prepared;
    }
  }
}
