/** What each local operation does to every single row (wc/local.go): which rows it touches, what
    they become, and that it touches no others. */
module WcEffects {
  import opened Common
  import opened Decimal
  import opened Paths
  import opened WcNodes

  /** Some layer has a row at the place. */
  ghost predicate Versioned(nodes: Table, p: Path) {
    exists k :: k in nodes && k.path == p
  }

  lemma {:induction false} VersionedIsTop(nodes: Table, p: Path)
    requires Bounded(nodes)
    ensures Versioned(nodes, p) <==> HasTop(nodes, p)
  {
    TopIsMax(nodes, p);
  }

  /** The same row, or none, before and after. */
  ghost predicate SameRow(before: Table, after: Table, k: Key) {
    (k in before <==> k in after) && (k in before ==> before[k] == after[k])
  }

  // ----- copy -----

  /** A copy is made exactly between two places below the root of which neither contains the other,
      from a versioned source, and to where no row of the new layer is in the way. */
  lemma {:induction false} CopyIsMadeExactly(nodes: Table, source: Path, destination: Path)
    requires Bounded(nodes)
    ensures CanCopy(nodes, source, destination) <==>
            && source != [] && destination != [] && !(source <= destination) && !(destination <= source)
            && Versioned(nodes, source)
            && forall suffix: Path :: Versioned(nodes, source + suffix) ==> Key(destination + suffix, |destination|) !in nodes
  {
    VersionedIsTop(nodes, source);
    var copies := Copies(nodes, source, destination);
    forall suffix: Path
      ensures Versioned(nodes, source + suffix) <==> Key(destination + suffix, |destination|) in copies
    {
      VersionedIsTop(nodes, source + suffix);
      CopyMirrors(nodes, source, destination, source + suffix);
      assert (source + suffix)[|source|..] == suffix;
    }
    forall k | k in copies
      ensures k == Key(destination + k.path[|destination|..], |destination|)
    {
      CopiesAre(nodes, source, destination);
    }
  }

  /** A copy inserts the current rows of the source in the layer of the destination and changes no
      other row. */
  lemma {:induction false} CopyEffect(nodes: Table, source: Path, destination: Path, k: Key)
    requires Bounded(nodes) && CanCopy(nodes, source, destination)
    ensures if destination <= k.path && k.opDepth == |destination| && Versioned(nodes, source + k.path[|destination|..])
            then
              var p := source + k.path[|destination|..];
              && k in Copied(nodes, source, destination) && k !in nodes && HasTop(nodes, p)
              && Copied(nodes, source, destination)[k] ==
                 nodes[Top(nodes, p).value].(presence := Normal, movedHere := false, movedTo := None)
            else SameRow(nodes, Copied(nodes, source, destination), k)
  {
    CopiesAre(nodes, source, destination);
    if destination <= k.path && k.opDepth == |destination| {
      var suffix := k.path[|destination|..];
      VersionedIsTop(nodes, source + suffix);
      CopyMirrors(nodes, source, destination, source + suffix);
      assert (source + suffix)[|source|..] == suffix;
      assert k == Target(source, destination, source + suffix);
    }
  }

  // ----- delete -----

  /** A delete of something in BASE marks every BASE place at or below it, and takes away every
      other row above BASE there; a delete of something that is only added takes away the rows. */
  lemma {:induction false} DeleteEffect(nodes: Table, root: Path, k: Key)
    requires root != [] && Bounded(nodes) && Versioned(nodes, root)
    ensures var after := Deleted(nodes, root);
            if !(root <= k.path) || k.opDepth == 0 then SameRow(nodes, after, k)
            else if Key(root, 0) in nodes && Key(k.path, 0) in nodes && k.opDepth == |root| then
              k in after && after[k] == Node(BaseDeleted, nodes[Key(k.path, 0)].kind, None, -1, None, [], false, None)
            else k !in after
  {
    VersionedIsTop(nodes, root);
    var layer := DeleteLayer(nodes, root);
    assert forall m :: m in layer ==> root <= m.path && m.opDepth == |root| && Key(m.path, 0) in nodes;
    if root <= k.path && Key(k.path, 0) in nodes {
      assert k.path in Subtree(nodes, root);
    }
  }

  // ----- move -----

  /** The marks: moved here at the destination, moved to at the source where that is still free. */
  lemma {:induction false} MarksEffect(nodes: Table, source: Path, destination: Path, k: Key)
    requires source != destination && k in nodes
    ensures var marked := MarkedMoved(MarkedHere(nodes, destination), source, destination);
            && k in marked
            && marked[k].(movedHere := false, movedTo := None) == nodes[k].(movedHere := false, movedTo := None)
            && marked[k].movedHere == (nodes[k].movedHere || k == Key(destination, |destination|))
            && marked[k].movedTo ==
               if k == Key(source, |source|)
                  && forall m :: m in nodes && m.opDepth == |source| && m.path != source ==> nodes[m].movedTo != Some(destination)
               then Some(destination) else nodes[k].movedTo
  {
    var here := MarkedHere(nodes, destination);
    assert here.Keys == nodes.Keys;
    assert forall m :: m in nodes ==> here[m].movedTo == nodes[m].movedTo;
    assert MoveFree(here, source, destination) <==>
           forall m :: m in nodes && m.opDepth == |source| && m.path != source ==> nodes[m].movedTo != Some(destination);
  }

  /** A move is a copy and a delete, and for a source with a revision the two marks. */
  lemma {:induction false} MoveEffect(nodes: Table, source: Path, destination: Path, copied: Table, k: Key)
    requires CanCopy(nodes, source, destination) && copied == Copied(nodes, source, destination)
    ensures var after := Moved(nodes, source, destination);
            var unmarked := Deleted(copied, source);
            && (k in after <==> k in unmarked)
            && (k in after && nodes[Top(nodes, source).value].revision < 0 ==> after[k] == unmarked[k])
            && (k in after && nodes[Top(nodes, source).value].revision >= 0 ==>
                  && after[k].(movedHere := false, movedTo := None) == unmarked[k].(movedHere := false, movedTo := None)
                  && after[k].movedHere == (unmarked[k].movedHere || k == Key(destination, |destination|))
                  && after[k].movedTo ==
                     if k == Key(source, |source|)
                        && forall m :: m in unmarked && m.opDepth == |source| && m.path != source ==> unmarked[m].movedTo != Some(destination)
                     then Some(destination) else unmarked[k].movedTo)
  {
    var unmarked := Deleted(copied, source);
    if k in unmarked {
      MarksEffect(unmarked, source, destination, k);
    } else {
      assert MarkedHere(unmarked, destination).Keys == unmarked.Keys;
    }
  }

  // ----- revert -----

  /** The places that a revert of this depth is about. */
  ghost predicate InReach(nodes: Table, root: Path, depth: RevertDepth, p: Path) {
    || p == root
    || (depth.DepthInfinity? && root <= p)
    || (!depth.DepthEmpty? && |p| == |root| + 1 && root <= p
        && (depth.DepthFiles? ==> HasTop(nodes, p) && nodes[Top(nodes, p).value].kind == File))
  }

  /** A revert takes away the rows above BASE at the places of its depth, and changes nothing else. */
  lemma {:induction false} RevertEffect(nodes: Table, root: Path, depth: RevertDepth, k: Key)
    requires Bounded(nodes)
    ensures if k.opDepth > 0 && InReach(nodes, root, depth, k.path) then k !in Reverted(nodes, root, depth)
            else SameRow(nodes, Reverted(nodes, root, depth), k)
  {
    if k in nodes {
      TopIsMax(nodes, k.path);
      if root <= k.path { assert k.path in Subtree(nodes, root); }
      if k.path != [] && Dirname(k.path) == root {
        assert k.path == root + [k.path[|k.path| - 1]];
      }
      if |k.path| == |root| + 1 && root <= k.path {
        assert Dirname(k.path) == root;
      }
    }
  }

  // ----- add -----

  /** Following the names down from what lies on the disk, past nothing that is ignored, leads to
      this file or directory. */
  ghost predicate Reached(disk: Disk, names: Path, node: Disk)
    decreases |names|
  {
    if names == [] then node == disk
    else disk.DiskDir? && exists i :: 0 <= i < |disk.entries| && Leads(disk.entries[i], names, node)
  }

  ghost predicate Leads(entry: DiskEntry, names: Path, node: Disk)
    requires names != []
    decreases |names|, 0
  {
    !entry.ignored && entry.name == names[0] && Reached(entry.node, names[1..], node)
  }

  /** A depth other than infinity ends at the children, and depth files at those that are files. */
  ghost predicate WithinReach(depth: AddDepth, names: Path, node: Disk) {
    match depth
    case AddEmpty => names == []
    case AddFiles => names == [] || (|names| == 1 && node.DiskFile?)
    case AddImmediates => |names| <= 1
    case AddInfinity => true
  }

  /** The row is upserted for this file or directory: an existing row keeps its other columns. */
  ghost predicate AddedAs(before: Table, after: Table, k: Key, node: Disk) {
    && k in after
    && after[k].presence == Normal && after[k].kind == (if node.DiskDir? then Dir else File)
    && after[k].properties == node.properties
    && after[k] == (if k in before then before[k] else Node(Normal, File, None, -1, None, [], false, None))
                     .(presence := Normal, kind := after[k].kind, properties := after[k].properties)
  }

  /** The names lead to something that an add of this depth is about. */
  ghost predicate Scheduled(disk: Disk, depth: AddDepth, names: Path, node: Disk) {
    Reached(disk, names, node) && WithinReach(depth, names, node)
  }

  /** What adding leaves at a key: a row for one of the nodes that lead there, or what was there. */
  ghost predicate AddOutcome(before: Table, after: Table, p: Path, disk: Disk, opDepth: nat, depth: AddDepth, k: Key) {
    if k.opDepth == opDepth && p <= k.path && exists node :: Scheduled(disk, depth, k.path[|p|..], node)
    then exists node :: Scheduled(disk, depth, k.path[|p|..], node) && AddedAs(before, after, k, node)
    else SameRow(before, after, k)
  }

  /** The same through one entry of a directory. */
  ghost predicate Through(entry: DiskEntry, depth: AddDepth, names: Path, node: Disk) {
    names != [] && Adds(depth, entry) && entry.name == names[0] && Scheduled(entry.node, ChildDepth(depth), names[1..], node)
  }

  ghost predicate ThroughSome(disk: Disk, n: nat, depth: AddDepth, names: Path, node: Disk)
    requires disk.DiskDir? && n <= |disk.entries|
  {
    exists i :: 0 <= i < n && Through(disk.entries[i], depth, names, node)
  }

  ghost predicate EntriesOutcome(before: Table, after: Table, p: Path, disk: Disk, n: nat, opDepth: nat, depth: AddDepth, k: Key)
    requires disk.DiskDir? && n <= |disk.entries|
  {
    if k.opDepth == opDepth && p <= k.path && exists node :: ThroughSome(disk, n, depth, k.path[|p|..], node)
    then exists node :: ThroughSome(disk, n, depth, k.path[|p|..], node) && AddedAs(before, after, k, node)
    else SameRow(before, after, k)
  }

  lemma {:induction false} ScheduledBelow(disk: Disk, depth: AddDepth, names: Path, node: Disk)
    requires names != []
    ensures Scheduled(disk, depth, names, node) <==>
            disk.DiskDir? && !depth.AddEmpty? && ThroughSome(disk, |disk.entries|, depth, names, node)
  {
    assert |names| == 1 ==> names[1..] == [];
    if Scheduled(disk, depth, names, node) {
      var i :| 0 <= i < |disk.entries| && Leads(disk.entries[i], names, node);
      assert Reached(disk.entries[i].node, names[1..], node);
      assert WithinReach(ChildDepth(depth), names[1..], node);
      assert depth.AddFiles? ==> disk.entries[i].node == node;
      assert Through(disk.entries[i], depth, names, node);
    }
    if disk.DiskDir? && !depth.AddEmpty? && ThroughSome(disk, |disk.entries|, depth, names, node) {
      var i :| 0 <= i < |disk.entries| && Through(disk.entries[i], depth, names, node);
      assert Leads(disk.entries[i], names, node);
    }
  }

  lemma {:induction false} AddedAgain(a: Table, b: Table, c: Table, k: Key, node: Disk)
    requires AddedAs(b, c, k, node) && (SameRow(a, b, k) || exists other :: AddedAs(a, b, k, other))
    ensures AddedAs(a, c, k, node)
  {
  }

  /** Exactly the places of what the add is about get a row in its layer. */
  lemma {:induction false} AddEffect(nodes: Table, p: Path, disk: Disk, opDepth: nat, depth: AddDepth, k: Key)
    ensures AddOutcome(nodes, AddedTree(nodes, p, disk, opDepth, depth), p, disk, opDepth, depth, k)
    decreases disk, 1, 0
  {
    var own := Key(p, opDepth);
    var added := nodes[own := Upserted(nodes, own, KindOf(disk), disk.properties)];
    var after := AddedTree(nodes, p, disk, opDepth, depth);
    if disk.DiskDir? && !depth.AddEmpty? {
      AddEntriesEffect(added, p, disk, |disk.entries|, opDepth, depth, k);
    }
    if k.opDepth == opDepth && p <= k.path {
      var names := k.path[|p|..];
      if names == [] {
        assert k == own && AddedAs(nodes, added, k, disk);
        assert Scheduled(disk, depth, names, disk);
      } else {
        assert k != own;
        forall node
          ensures Scheduled(disk, depth, names, node) <==>
                  disk.DiskDir? && !depth.AddEmpty? && ThroughSome(disk, |disk.entries|, depth, names, node)
        {
          ScheduledBelow(disk, depth, names, node);
        }
      }
    }
  }

  lemma {:induction false} AddEntriesEffect(nodes: Table, p: Path, disk: Disk, n: nat, opDepth: nat, depth: AddDepth, k: Key)
    requires disk.DiskDir? && n <= |disk.entries|
    ensures EntriesOutcome(nodes, AddedEntries(nodes, p, disk, opDepth, depth, n), p, disk, n, opDepth, depth, k)
    decreases disk, 0, n
  {
    if n > 0 {
      var entry := disk.entries[n - 1];
      var before := AddedEntries(nodes, p, disk, opDepth, depth, n - 1);
      AddEntriesEffect(nodes, p, disk, n - 1, opDepth, depth, k);
      if Adds(depth, entry) {
        AddEffect(before, p + [entry.name], entry.node, opDepth, ChildDepth(depth), k);
      }
      OneMoreEntry(nodes, before, AddedEntries(nodes, p, disk, opDepth, depth, n), p, disk, n, opDepth, depth, k);
    }
  }

  lemma {:induction false} OneMoreEntry(nodes: Table, before: Table, after: Table, p: Path, disk: Disk, n: nat,
                                        opDepth: nat, depth: AddDepth, k: Key)
    requires disk.DiskDir? && 0 < n <= |disk.entries|
    requires EntriesOutcome(nodes, before, p, disk, n - 1, opDepth, depth, k)
    requires var entry := disk.entries[n - 1];
             if Adds(depth, entry)
             then AddOutcome(before, after, p + [entry.name], entry.node, opDepth, ChildDepth(depth), k)
             else after == before
    ensures EntriesOutcome(nodes, after, p, disk, n, opDepth, depth, k)
  {
    var entry := disk.entries[n - 1];
    if k.opDepth == opDepth && p <= k.path {
      var names := k.path[|p|..];
      assert p + [entry.name] <= k.path <==> names != [] && names[0] == entry.name;
      if p + [entry.name] <= k.path {
        assert k.path[|p + [entry.name]|..] == names[1..];
      }
      forall node
        ensures ThroughSome(disk, n, depth, names, node) <==>
                ThroughSome(disk, n - 1, depth, names, node) || Through(entry, depth, names, node)
      {
      }
      if Adds(depth, entry) && p + [entry.name] <= k.path
         && exists node :: Scheduled(entry.node, ChildDepth(depth), names[1..], node) {
        var node :| Scheduled(entry.node, ChildDepth(depth), names[1..], node) && AddedAs(before, after, k, node);
        assert Through(entry, depth, names, node);
        AddedAgain(nodes, before, after, k, node);
      } else {
        assert SameRow(before, after, k);
        var m := n - 1;
        if exists node :: ThroughSome(disk, m, depth, names, node) {
          var node :| ThroughSome(disk, m, depth, names, node) && AddedAs(nodes, before, k, node);
          assert ThroughSome(disk, n, depth, names, node) && AddedAs(nodes, after, k, node);
        }
      }
    } else {
      assert !(p + [entry.name] <= k.path && k.opDepth == opDepth);
    }
  }
}
