/** Algebraic laws of rangelists and mergeinfo, proved revision by revision and lifted to equality of lists
    because every result is the canonical list of its meaning. */
module MergeinfoLaws {
  import opened Common
  import opened Decimal
  import opened Rangelists
  import opened Mergeinfo

  // ----- what each operation says of a revision -----

  /** What an operation takes a list to say: by NormalizePreserves this is what the list does say,
      unless it has a range that starts below zero. */
  ghost function Said(list: Rangelist, r: Revnum): Meaning {
    At(Normalized(list), r)
  }

  lemma {:induction false} SaidIsAt(list: Rangelist, r: Revnum)
    ensures SoundStarts(list) ==> Said(list, r) == At(list, r)
    ensures Canonical(list) ==> Said(list, r) == At(list, r)
    ensures Clip(Said(list, r)) == Said(list, r)
  {
    if SoundStarts(list) {
      NormalizedAt(list, r);
    }
    if Canonical(list) {
      FixedPoint(list);
    }
  }

  /** Present if either list has the revision, inheritable if either has it inheritable. */
  lemma {:induction false} MergeAt(a: Rangelist, b: Rangelist, r: Revnum)
    ensures Said(MergeRangelists(a, b), r) == At(MergeRangelists(a, b), r)
    ensures At(MergeRangelists(a, b), r) ==
            Meaning(Said(a, r).present || Said(b, r).present, Said(a, r).inheritable || Said(b, r).inheritable)
  {
    Pointwise(a, b, Either, r);
    SaidIsAt(a, r);
    SaidIsAt(b, r);
    SaidIsAt(MergeRangelists(a, b), r);
  }

  lemma {:induction false} IntersectAt(a: Rangelist, b: Rangelist, considerInheritance: bool, r: Revnum)
    ensures Said(IntersectRangelists(a, b, considerInheritance), r) ==
            At(IntersectRangelists(a, b, considerInheritance), r)
    ensures At(IntersectRangelists(a, b, considerInheritance), r) ==
            var (x, y) := (Said(a, r), Said(b, r));
            if x.present && y.present && !(considerInheritance && x.inheritable != y.inheritable)
            then Meaning(true, x.inheritable || y.inheritable) else ABSENT
  {
    Pointwise(a, b, Both(considerInheritance), r);
    SaidIsAt(IntersectRangelists(a, b, considerInheritance), r);
  }

  /** What is on the whiteboard stays unless it is erased; erasing needs equal inheritance
      where inheritance is considered. */
  lemma {:induction false} RemoveAt(eraser: Rangelist, whiteboard: Rangelist, considerInheritance: bool, r: Revnum)
    ensures Said(RemoveRangelist(eraser, whiteboard, considerInheritance), r) ==
            At(RemoveRangelist(eraser, whiteboard, considerInheritance), r)
    ensures At(RemoveRangelist(eraser, whiteboard, considerInheritance), r) ==
            var (x, w) := (Said(eraser, r), Said(whiteboard, r));
            if x.present && (considerInheritance ==> x.inheritable == w.inheritable) then ABSENT else w
  {
    Pointwise(eraser, whiteboard, Rest(considerInheritance), r);
    SaidIsAt(whiteboard, r);
    SaidIsAt(RemoveRangelist(eraser, whiteboard, considerInheritance), r);
  }

  /** Every operation returns the canonical list of its meaning. */
  lemma {:induction false} OperationsCanonical(a: Rangelist, b: Rangelist, considerInheritance: bool)
    ensures Canonical(MergeRangelists(a, b))
    ensures Canonical(IntersectRangelists(a, b, considerInheritance))
    ensures Canonical(RemoveRangelist(a, b, considerInheritance))
  {
    Pointwise(a, b, Either, 0);
    Pointwise(a, b, Both(considerInheritance), 0);
    Pointwise(a, b, Rest(considerInheritance), 0);
  }

  // ----- merge -----

  lemma {:induction false} MergeCommutes(a: Rangelist, b: Rangelist)
    ensures MergeRangelists(a, b) == MergeRangelists(b, a)
  {
    forall r ensures At(MergeRangelists(a, b), r) == At(MergeRangelists(b, a), r) {
      MergeAt(a, b, r);
      MergeAt(b, a, r);
    }
    OperationsCanonical(a, b, true);
    OperationsCanonical(b, a, true);
    CanonicalUnique(MergeRangelists(a, b), MergeRangelists(b, a));
  }

  lemma {:induction false} MergeAssociates(a: Rangelist, b: Rangelist, c: Rangelist)
    ensures MergeRangelists(MergeRangelists(a, b), c) == MergeRangelists(a, MergeRangelists(b, c))
  {
    var (ab, bc) := (MergeRangelists(a, b), MergeRangelists(b, c));
    forall r ensures At(MergeRangelists(ab, c), r) == At(MergeRangelists(a, bc), r) {
      MergeAt(a, b, r);
      MergeAt(b, c, r);
      MergeAt(ab, c, r);
      MergeAt(a, bc, r);
    }
    OperationsCanonical(ab, c, true);
    OperationsCanonical(a, bc, true);
    CanonicalUnique(MergeRangelists(ab, c), MergeRangelists(a, bc));
  }

  /** Merging a list with itself only normalizes it. */
  lemma {:induction false} MergeIdempotent(a: Rangelist)
    ensures MergeRangelists(a, a) == Normalized(a)
  {
    NormalizedCanonical(a);
    Pointwise(a, a, Either, 0);
    forall r ensures At(MergeRangelists(a, a), r) == At(Normalized(a), r) {
      MergeAt(a, a, r);
    }
    CanonicalUnique(MergeRangelists(a, a), Normalized(a));
  }

  /** So does merging it with a list that says nothing. */
  lemma {:induction false} MergeWithNothing(a: Rangelist, nothing: Rangelist)
    requires Normalized(nothing) == []
    ensures MergeRangelists(a, nothing) == Normalized(a)
  {
    NormalizedCanonical(a);
    Pointwise(a, nothing, Either, 0);
    forall r ensures At(MergeRangelists(a, nothing), r) == At(Normalized(a), r) {
      MergeAt(a, nothing, r);
      assert Said(nothing, r) == ABSENT;
    }
    CanonicalUnique(MergeRangelists(a, nothing), Normalized(a));
  }

  // ----- splitting a list into what it shares with another and what it does not -----

  /** Somewhere a has a revision without inheritance that b has with it. */
  ghost predicate GainsInheritance(a: Rangelist, b: Rangelist) {
    exists r :: Gains(a, b, r)
  }

  ghost predicate Gains(a: Rangelist, b: Rangelist, r: Revnum) {
    Said(a, r).present && !Said(a, r).inheritable && Said(b, r).inheritable
  }

  function Resplit(a: Rangelist, b: Rangelist, considerInheritance: bool): Rangelist {
    MergeRangelists(RemoveRangelist(b, a, considerInheritance), IntersectRangelists(a, b, considerInheritance))
  }

  lemma {:induction false} ResplitAt(a: Rangelist, b: Rangelist, considerInheritance: bool, r: Revnum)
    ensures Canonical(Resplit(a, b, considerInheritance))
    ensures At(Resplit(a, b, considerInheritance), r) ==
            if !considerInheritance && Gains(a, b, r) then Meaning(true, true) else Said(a, r)
  {
    var (removed, shared) := (RemoveRangelist(b, a, considerInheritance), IntersectRangelists(a, b, considerInheritance));
    OperationsCanonical(removed, shared, true);
    RemoveAt(b, a, considerInheritance, r);
    IntersectAt(a, b, considerInheritance, r);
    MergeAt(removed, shared, r);
    SaidIsAt(a, r);
    SaidIsAt(b, r);
  }

  /** What remains after removing b, merged with what is shared with b, is the list again: always
      when inheritance is considered, and otherwise exactly when b lends a no inheritance. */
  lemma {:induction false} RemoveAndIntersectSplit(a: Rangelist, b: Rangelist, considerInheritance: bool)
    ensures Resplit(a, b, considerInheritance) == Normalized(a) <==> considerInheritance || !GainsInheritance(a, b)
    ensures forall r :: At(Resplit(a, b, considerInheritance), r).present == Said(a, r).present
  {
    NormalizedCanonical(a);
    forall r
      ensures At(Resplit(a, b, considerInheritance), r) ==
              if !considerInheritance && Gains(a, b, r) then Meaning(true, true) else Said(a, r)
      ensures At(Resplit(a, b, considerInheritance), r).present == Said(a, r).present
    {
      ResplitAt(a, b, considerInheritance, r);
    }
    ResplitAt(a, b, considerInheritance, 0);
    if considerInheritance || !GainsInheritance(a, b) {
      CanonicalUnique(Resplit(a, b, considerInheritance), Normalized(a));
    } else {
      var r :| Gains(a, b, r);
    }
  }

  // ----- a difference is enough to get from one list to the other -----

  /** Somewhere both lists have a revision, but not with the same inheritance. */
  ghost predicate InheritanceDiffers(a: Rangelist, b: Rangelist) {
    exists r :: Differs(a, b, r)
  }

  ghost predicate Differs(a: Rangelist, b: Rangelist, r: Revnum) {
    Said(a, r).present && Said(b, r).present && Said(a, r).inheritable != Said(b, r).inheritable
  }

  function Rebuilt(from: Rangelist, to: Rangelist, considerInheritance: bool): Rangelist {
    var d := DiffRangelists(from, to, considerInheritance);
    MergeRangelists(RemoveRangelist(d.deleted, from, considerInheritance), d.added)
  }

  lemma {:induction false} RebuiltAt(from: Rangelist, to: Rangelist, considerInheritance: bool, r: Revnum)
    ensures Canonical(Rebuilt(from, to, considerInheritance))
    ensures At(Rebuilt(from, to, considerInheritance), r) ==
            if !considerInheritance && Differs(from, to, r) then Said(from, r) else Said(to, r)
  {
    var d := DiffRangelists(from, to, considerInheritance);
    var kept := RemoveRangelist(d.deleted, from, considerInheritance);
    OperationsCanonical(kept, d.added, true);
    RemoveAt(to, from, considerInheritance, r);
    RemoveAt(from, to, considerInheritance, r);
    RemoveAt(d.deleted, from, considerInheritance, r);
    MergeAt(kept, d.added, r);
    SaidIsAt(from, r);
    SaidIsAt(to, r);
  }

  /** Removing what was deleted and merging what was added leads from `from` to `to`: always when
      inheritance is considered, otherwise exactly when no shared revision changes inheritance.
      The revisions themselves are right either way. */
  lemma {:induction false} DiffRebuilds(from: Rangelist, to: Rangelist, considerInheritance: bool)
    ensures Rebuilt(from, to, considerInheritance) == Normalized(to)
            <==> considerInheritance || !InheritanceDiffers(from, to)
    ensures forall r :: At(Rebuilt(from, to, considerInheritance), r).present == Said(to, r).present
  {
    NormalizedCanonical(to);
    forall r
      ensures At(Rebuilt(from, to, considerInheritance), r) ==
              if !considerInheritance && Differs(from, to, r) then Said(from, r) else Said(to, r)
      ensures At(Rebuilt(from, to, considerInheritance), r).present == Said(to, r).present
    {
      RebuiltAt(from, to, considerInheritance, r);
    }
    RebuiltAt(from, to, considerInheritance, 0);
    if considerInheritance || !InheritanceDiffers(from, to) {
      CanonicalUnique(Rebuilt(from, to, considerInheritance), Normalized(to));
    } else {
      var r :| Differs(from, to, r);
    }
  }

  lemma {:induction false} DifferenceAt(from: Rangelist, to: Rangelist, r: Revnum)
    ensures At(RemoveRangelist(to, from, true), r) == if Said(to, r) == Said(from, r) then ABSENT else Said(from, r)
  {
    RemoveAt(to, from, true, r);
    SaidIsAt(from, r);
    SaidIsAt(to, r);
  }

  lemma {:induction false} NothingDeleted(from: Rangelist, to: Rangelist, nothing: Rangelist)
    requires nothing == [] && Normalized(from) == Normalized(to)
    ensures RemoveRangelist(to, from, true) == nothing
  {
    OperationsCanonical(to, from, true);
    forall r ensures At(RemoveRangelist(to, from, true), r) == At(nothing, r) {
      DifferenceAt(from, to, r);
    }
    CanonicalUnique(RemoveRangelist(to, from, true), nothing);
  }

  /** Nothing is deleted or added exactly between lists with one normal form. */
  lemma {:induction false} EmptyDifference(from: Rangelist, to: Rangelist)
    ensures DiffRangelists(from, to, true) == Difference([], []) <==> Normalized(from) == Normalized(to)
  {
    var d := DiffRangelists(from, to, true);
    if Normalized(from) == Normalized(to) {
      NothingDeleted(from, to, []);
      NothingDeleted(to, from, []);
    } else if d.deleted == [] && d.added == [] {
      forall r ensures At(Normalized(from), r) == At(Normalized(to), r) {
        DifferenceAt(from, to, r);
        DifferenceAt(to, from, r);
        assert At(d.deleted, r) == ABSENT && At(d.added, r) == ABSENT;
      }
      NormalizedCanonical(from);
      NormalizedCanonical(to);
      CanonicalUnique(Normalized(from), Normalized(to));
    }
  }

  // ----- the revisions of a list -----

  /** The revisions after start up to end. */
  function Between(start: Revnum, end: Revnum): seq<Revnum>
    decreases end - start
  {
    if end <= start then [] else Between(start, end - 1) + [end]
  }

  function Revisions(list: Rangelist, n: nat): seq<Revnum>
    requires n <= |list|
  {
    if n == 0 then [] else Revisions(list, n - 1) + Between(list[n - 1].start, list[n - 1].end)
  }

  lemma {:induction false} BetweenIs(start: Revnum, end: Revnum)
    ensures Ascending(Between(start, end))
    ensures forall r :: r in Between(start, end) <==> start < r <= end
    decreases end - start
  {
    if start < end {
      BetweenIs(start, end - 1);
      var before := Between(start, end - 1);
      forall i | 0 <= i < |before|
        ensures before[i] < end
      {
        assert before[i] in before;
      }
    }
  }

  lemma {:induction false} RevisionsAre(list: Rangelist, n: nat)
    requires n <= |list| && Canonical(list)
    ensures Ascending(Revisions(list, n))
    ensures forall r :: r in Revisions(list, n) <==> exists i :: 0 <= i < n && Covers(list[i], r)
  {
    if n > 0 {
      RevisionsAre(list, n - 1);
      var (before, item) := (Revisions(list, n - 1), list[n - 1]);
      BetweenIs(item.start, item.end);
      forall i | 0 <= i < |before|
        ensures before[i] <= item.start
      {
        assert before[i] in before;
      }
      forall j | 0 <= j < |Between(item.start, item.end)|
        ensures item.start < Between(item.start, item.end)[j]
      {
        assert Between(item.start, item.end)[j] in Between(item.start, item.end);
      }
    }
  }

  /** The revisions that are present, each once and in ascending order. */
  method ToRevs(list: Rangelist) returns (revisions: seq<Revnum>)
    ensures Ascending(revisions)
    ensures forall r :: r in revisions <==> Said(list, r).present
  {
    var normal := Normalize(list);
    NormalizedCanonical(list);
    revisions := [];
    for n := 0 to |normal|
      invariant revisions == Revisions(normal, n)
    {
      var revision := normal[n].start + 1;
      while revision <= normal[n].end
        invariant normal[n].start < revision <= normal[n].end + 1
        invariant revisions == Revisions(normal, n) + Between(normal[n].start, revision - 1)
      {
        revisions := revisions + [revision];
        revision := revision + 1;
      }
    }
    RevisionsAre(normal, |normal|);
  }

  // ----- mergeinfo: a rangelist for each path -----

  type Info = map<Text, Rangelist>

  function Lookup(info: Info, path: Text): Rangelist {
    if path in info then info[path] else []
  }

  type Operation = (Rangelist, Rangelist) -> Rangelist

  /** The operation on every path of either side; paths left with nothing are dropped. */
  function CombineInfo(first: Info, second: Info, op: Operation): Info {
    map path | path in first.Keys + second.Keys && op(Lookup(first, path), Lookup(second, path)) != []
      :: op(Lookup(first, path), Lookup(second, path))
  }

  function Merge(first: Info, second: Info): Info {
    CombineInfo(first, second, MergeRangelists)
  }

  function Intersect(first: Info, second: Info, considerInheritance: bool): Info {
    CombineInfo(first, second, (a, b) => IntersectRangelists(a, b, considerInheritance))
  }

  function Remove(eraser: Info, whiteboard: Info, considerInheritance: bool): Info {
    CombineInfo(whiteboard, eraser, (a, b) => RemoveRangelist(b, a, considerInheritance))
  }

  datatype InfoDifference = InfoDifference(deleted: Info, added: Info)

  function Diff(from: Info, to: Info, considerInheritance: bool): InfoDifference {
    InfoDifference(Remove(to, from, considerInheritance), Remove(from, to, considerInheritance))
  }

  /** Every list in normal form, and no path with an empty list. */
  function NormalInfo(info: Info): Info {
    map path | path in info && Normalized(info[path]) != [] :: Normalized(info[path])
  }

  lemma {:induction false} NothingFromNothing(considerInheritance: bool)
    ensures Normalized([]) == []
    ensures MergeRangelists([], []) == []
    ensures IntersectRangelists([], [], considerInheritance) == []
    ensures RemoveRangelist([], [], considerInheritance) == []
  {
    NormalizedFixed([]);
    OperationsCanonical([], [], considerInheritance);
    forall r
      ensures At(MergeRangelists([], []), r) == At([], r)
      ensures At(IntersectRangelists([], [], considerInheritance), r) == At([], r)
      ensures At(RemoveRangelist([], [], considerInheritance), r) == At([], r)
    {
      MergeAt([], [], r);
      IntersectAt([], [], considerInheritance, r);
      RemoveAt([], [], considerInheritance, r);
    }
    CanonicalUnique(MergeRangelists([], []), []);
    CanonicalUnique(IntersectRangelists([], [], considerInheritance), []);
    CanonicalUnique(RemoveRangelist([], [], considerInheritance), []);
  }

  lemma {:induction false} CombinedLookup(first: Info, second: Info, op: Operation, path: Text)
    requires op([], []) == []
    ensures Lookup(CombineInfo(first, second, op), path) == op(Lookup(first, path), Lookup(second, path))
    ensures path in CombineInfo(first, second, op) <==> op(Lookup(first, path), Lookup(second, path)) != []
  {
  }

  /** Infos without empty lists are equal when every lookup is. */
  lemma {:induction false} InfoEqual(a: Info, b: Info)
    requires forall path :: path in a ==> a[path] != []
    requires forall path :: path in b ==> b[path] != []
    requires forall path: Text :: Lookup(a, path) == Lookup(b, path)
    ensures a == b
  {
    forall path: Text
      ensures path in a <==> path in b
      ensures path in a && path in b ==> a[path] == b[path]
    {
      assert Lookup(a, path) == Lookup(b, path);
    }
  }

  /** Merging mergeinfo is commutative, associative and idempotent, path by path. */
  lemma {:induction false} MergeInfoLaws(a: Info, b: Info, c: Info)
    ensures Merge(a, b) == Merge(b, a)
    ensures Merge(Merge(a, b), c) == Merge(a, Merge(b, c))
    ensures Merge(a, a) == NormalInfo(a)
  {
    NothingFromNothing(true);
    forall path: Text
      ensures Lookup(Merge(a, b), path) == Lookup(Merge(b, a), path)
      ensures Lookup(Merge(Merge(a, b), c), path) == Lookup(Merge(a, Merge(b, c)), path)
      ensures Lookup(Merge(a, a), path) == Lookup(NormalInfo(a), path)
    {
      var (x, y, z) := (Lookup(a, path), Lookup(b, path), Lookup(c, path));
      CombinedLookup(a, b, MergeRangelists, path);
      CombinedLookup(b, a, MergeRangelists, path);
      CombinedLookup(b, c, MergeRangelists, path);
      CombinedLookup(Merge(a, b), c, MergeRangelists, path);
      CombinedLookup(a, Merge(b, c), MergeRangelists, path);
      CombinedLookup(a, a, MergeRangelists, path);
      MergeCommutes(x, y);
      MergeAssociates(x, y, z);
      MergeIdempotent(x);
    }
    InfoEqual(Merge(a, b), Merge(b, a));
    InfoEqual(Merge(Merge(a, b), c), Merge(a, Merge(b, c)));
    InfoEqual(Merge(a, a), NormalInfo(a));
  }

  /** With inheritance considered, a difference of mergeinfo leads from one to the other. */
  lemma {:induction false} InfoDiffRebuilds(from: Info, to: Info)
    ensures var d := Diff(from, to, true);
            Merge(Remove(d.deleted, from, true), d.added) == NormalInfo(to)
  {
    NothingFromNothing(true);
    var d := Diff(from, to, true);
    var remove: Operation := (a, b) => RemoveRangelist(b, a, true);
    var kept := Remove(d.deleted, from, true);
    forall path: Text
      ensures Lookup(Merge(kept, d.added), path) == Lookup(NormalInfo(to), path)
    {
      CombinedLookup(from, to, remove, path);
      CombinedLookup(to, from, remove, path);
      CombinedLookup(from, d.deleted, remove, path);
      CombinedLookup(kept, d.added, MergeRangelists, path);
      DiffRebuilds(Lookup(from, path), Lookup(to, path), true);
    }
    InfoEqual(Merge(kept, d.added), NormalInfo(to));
  }

  /** Removing and intersecting with b split any mergeinfo. */
  lemma {:induction false} InfoSplits(a: Info, b: Info)
    ensures Merge(Remove(b, a, true), Intersect(a, b, true)) == NormalInfo(a)
  {
    NothingFromNothing(true);
    var remove: Operation := (x, y) => RemoveRangelist(y, x, true);
    var intersect: Operation := (x, y) => IntersectRangelists(x, y, true);
    var (rest, shared) := (Remove(b, a, true), Intersect(a, b, true));
    forall path: Text
      ensures Lookup(Merge(rest, shared), path) == Lookup(NormalInfo(a), path)
    {
      CombinedLookup(a, b, remove, path);
      CombinedLookup(a, b, intersect, path);
      CombinedLookup(rest, shared, MergeRangelists, path);
      RemoveAndIntersectSplit(Lookup(a, path), Lookup(b, path), true);
    }
    InfoEqual(Merge(rest, shared), NormalInfo(a));
  }
}
