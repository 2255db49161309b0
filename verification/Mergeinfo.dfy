/** The set operations on rangelists and mergeinfo (mergeinfo/mergeinfo.go), and their laws. */
module Mergeinfo {
  import opened Common
  import opened Rangelists

  // ----- Normalize -----

  predicate Skipped(item: Range) {
    item.start < 0 || item.end <= item.start
  }

  /** The ends of the first n ranges, but for the ranges Normalize skips. */
  function Boundaries(list: Rangelist, n: nat): seq<Revnum>
    requires n <= |list|
  {
    if n == 0 then []
    else if Skipped(list[n - 1]) then Boundaries(list, n - 1)
    else Boundaries(list, n - 1) + [list[n - 1].start, list[n - 1].end]
  }

  /** What the first n ranges that cover the whole interval say; skipped ranges take part. */
  function Spanned(list: Rangelist, n: nat, start: Revnum, end: Revnum): Meaning
    requires n <= |list|
  {
    if n == 0 then ABSENT
    else
      var m := Spanned(list, n - 1, start, end);
      if list[n - 1].start <= start && end <= list[n - 1].end
      then Meaning(true, m.inheritable || list[n - 1].inheritable) else m
  }

  function Normalized(list: Rangelist): Rangelist {
    Combined(Boundaries(list, |list|), (start, end) => Spanned(list, |list|, start, end))
  }

  method Normalize(list: Rangelist) returns (result: Rangelist)
    ensures result == Normalized(list)
  {
    var boundaries := [];
    for n := 0 to |list|
      invariant boundaries == Boundaries(list, n)
    {
      var item := list[n];
      if item.start < 0 || item.end <= item.start {
        continue;
      }
      boundaries := boundaries + [item.start, item.end];
    }
    result := Combine(boundaries, (start, end) => Spanned(list, |list|, start, end));
  }

  lemma {:induction false} BoundariesAre(list: Rangelist, n: nat)
    requires n <= |list|
    ensures forall i :: 0 <= i < n && !Skipped(list[i]) ==>
              list[i].start in Boundaries(list, n) && list[i].end in Boundaries(list, n)
    ensures forall x :: x in Boundaries(list, n) ==> 0 <= x
  {
    if n > 0 {
      BoundariesAre(list, n - 1);
    }
  }

  lemma {:induction false} SpannedMeans(list: Rangelist, n: nat, s: Revnum, e: Revnum)
    requires n <= |list|
    ensures Spanned(list, n, s, e) ==
            Meaning(exists i :: 0 <= i < n && list[i].start <= s && e <= list[i].end,
                    exists i :: 0 <= i < n && list[i].start <= s && e <= list[i].end && list[i].inheritable)
  {
    if n > 0 {
      SpannedMeans(list, n - 1, s, e);
    }
  }

  /** A range that is neither empty nor starts below zero covers all of a bracket or nothing of it. */
  lemma {:induction false} CoversBracket(list: Rangelist, i: nat, s: Revnum, e: Revnum, r: Revnum)
    requires i < |list| && !BelowZero(list[i])
    requires Brackets(Boundaries(list, |list|), s, e, r)
    ensures Covers(list[i], r) <==> list[i].start <= s && e <= list[i].end
  {
    BoundariesAre(list, |list|);
  }

  lemma {:induction false} NoneOutside(list: Rangelist, r: Revnum)
    requires SoundStarts(list)
    requires Outside(Boundaries(list, |list|), r)
    ensures At(list, r) == ABSENT
  {
    BoundariesAre(list, |list|);
    forall i | 0 <= i < |list|
      ensures !Covers(list[i], r)
    {
      assert !BelowZero(list[i]);
    }
  }

  /** A range whose revisions Normalize would partly see but whose ends it does not sweep. */
  predicate BelowZero(item: Range) {
    item.start < 0 && item.start < item.end
  }

  predicate SoundStarts(list: Rangelist) {
    forall i :: 0 <= i < |list| ==> !BelowZero(list[i])
  }

  /** Whatever the list, its normal form is canonical. */
  lemma {:induction false} NormalizedCanonical(list: Rangelist)
    ensures Canonical(Normalized(list))
  {
    BoundariesAre(list, |list|);
    var _, _, _ := CombinedAt(Boundaries(list, |list|), (start, end) => Spanned(list, |list|, start, end), 0);
  }

  lemma {:induction false} NormalizedAt(list: Rangelist, r: Revnum)
    requires SoundStarts(list)
    ensures At(Normalized(list), r) == At(list, r)
  {
    BoundariesAre(list, |list|);
    var found, s, e := CombinedAt(Boundaries(list, |list|), (start, end) => Spanned(list, |list|, start, end), r);
    if found {
      SpannedMeans(list, |list|, s, e);
      forall i | 0 <= i < |list|
        ensures Covers(list[i], r) <==> list[i].start <= s && e <= list[i].end
      {
        CoversBracket(list, i, s, e, r);
      }
    } else {
      NoneOutside(list, r);
    }
  }

  /** Nothing a canonical list says is about a revision below 1. */
  lemma {:induction false} CanonicalAbove(list: Rangelist, r: Revnum)
    requires Canonical(list) && r <= 0
    ensures At(list, r) == ABSENT
  {
  }

  /** Normalize keeps every revision's meaning exactly when no range that covers anything
      starts below zero. */
  lemma {:induction false} NormalizePreserves(list: Rangelist)
    ensures SameMeaning(Normalized(list), list) <==> SoundStarts(list)
  {
    if SoundStarts(list) {
      forall r ensures At(Normalized(list), r) == At(list, r) {
        NormalizedAt(list, r);
      }
    } else {
      var i :| 0 <= i < |list| && BelowZero(list[i]);
      var r := list[i].start + 1;
      assert Covers(list[i], r);
      assert At(list, r).present;
      NormalizedCanonical(list);
      CanonicalAbove(Normalized(list), r);
      assert At(Normalized(list), r) != At(list, r);
    }
  }

  /** The one range (-1, 5] is lost: its ends are not swept. */
  lemma {:induction false} NegativeStartLost()
    ensures var list := [Range(-1, 5, true)];
            At(list, 3) == Meaning(true, true) && Normalized(list) == []
  {
    var list := [Range(-1, 5, true)];
    assert Covers(list[0], 3);
    assert Boundaries(list, 0) == [];
    assert Boundaries(list, 1) == [];
  }

  lemma {:induction false} CanonicalIsSound(list: Rangelist)
    requires Canonical(list)
    ensures SoundStarts(list)
  {
  }

  /** A canonical list is its own normal form, so normalizing twice is normalizing once. */
  lemma {:induction false} NormalizedFixed(list: Rangelist)
    ensures Canonical(list) <==> Normalized(list) == list
    ensures Normalized(Normalized(list)) == Normalized(list)
  {
    NormalizedCanonical(list);
    if Canonical(list) {
      FixedPoint(list);
    }
    FixedPoint(Normalized(list));
  }

  lemma {:induction false} FixedPoint(list: Rangelist)
    requires Canonical(list)
    ensures Normalized(list) == list
  {
    CanonicalIsSound(list);
    NormalizePreserves(list);
    NormalizedCanonical(list);
    CanonicalUnique(Normalized(list), list);
  }

  /** Two lists of the same meaning have the same normal form, and no others do. */
  lemma {:induction false} SameNormalForm(a: Rangelist, b: Rangelist)
    requires SoundStarts(a) && SoundStarts(b)
    ensures Normalized(a) == Normalized(b) <==> SameMeaning(a, b)
  {
    NormalizePreserves(a);
    NormalizePreserves(b);
    if SameMeaning(a, b) {
      NormalizedCanonical(a);
      NormalizedCanonical(b);
      forall r ensures At(Normalized(a), r) == At(Normalized(b), r) {
        assert At(Normalized(a), r) == At(a, r) && At(Normalized(b), r) == At(b, r) && At(a, r) == At(b, r);
      }
      CanonicalUnique(Normalized(a), Normalized(b));
    } else {
      var r :| At(a, r) != At(b, r);
      assert At(Normalized(a), r) == At(a, r) && At(Normalized(b), r) == At(b, r);
    }
  }

  // ----- covers and the boundaries of two lists -----

  /** The first range from i on that spans the interval decides. */
  function FirstSpanning(list: Rangelist, i: nat, start: Revnum, end: Revnum): Meaning
    requires i <= |list|
    decreases |list| - i
  {
    if i == |list| then ABSENT
    else if list[i].start <= start && end <= list[i].end then Meaning(true, list[i].inheritable)
    else FirstSpanning(list, i + 1, start, end)
  }

  function Covered(list: Rangelist, start: Revnum, end: Revnum): Meaning {
    FirstSpanning(Normalized(list), 0, start, end)
  }

  method CoversInterval(list: Rangelist, start: Revnum, end: Revnum) returns (m: Meaning)
    ensures m == Covered(list, start, end)
  {
    var normal := Normalize(list);
    var i := 0;
    while i < |normal|
      invariant i <= |normal|
      invariant FirstSpanning(normal, 0, start, end) == FirstSpanning(normal, i, start, end)
    {
      if normal[i].start <= start && end <= normal[i].end {
        return Meaning(true, normal[i].inheritable);
      }
      i := i + 1;
    }
    return ABSENT;
  }

  function Ends(list: Rangelist, n: nat): seq<Revnum>
    requires n <= |list|
  {
    if n == 0 then [] else Ends(list, n - 1) + [list[n - 1].start, list[n - 1].end]
  }

  function BothEnds(a: Rangelist, b: Rangelist): seq<Revnum> {
    var (x, y) := (Normalized(a), Normalized(b));
    Ends(x, |x|) + Ends(y, |y|)
  }

  method CollectBoundaries(a: Rangelist, b: Rangelist) returns (values: seq<Revnum>)
    ensures values == BothEnds(a, b)
  {
    values := AddBoundaries([], a);
    values := AddBoundaries(values, b);
  }

  method AddBoundaries(before: seq<Revnum>, list: Rangelist) returns (values: seq<Revnum>)
    ensures values == before + Ends(Normalized(list), |Normalized(list)|)
  {
    var normal := Normalize(list);
    values := before;
    for n := 0 to |normal|
      invariant values == before + Ends(normal, n)
    {
      values := values + [normal[n].start, normal[n].end];
    }
  }

  lemma {:induction false} EndsAre(list: Rangelist, n: nat)
    requires n <= |list| && Canonical(list)
    ensures forall i :: 0 <= i < n ==> list[i].start in Ends(list, n) && list[i].end in Ends(list, n)
    ensures forall x :: x in Ends(list, n) ==> 0 <= x
  {
    if n > 0 {
      EndsAre(list, n - 1);
    }
  }

  /** No boundary of list lies inside the interval. */
  ghost predicate Whole(list: Rangelist, s: Revnum, e: Revnum) {
    forall i :: 0 <= i < |list| ==>
      (list[i].start <= s || e <= list[i].start) && (list[i].end <= s || e <= list[i].end)
  }

  lemma {:induction false} FirstSpanningAt(list: Rangelist, i: nat, s: Revnum, e: Revnum, r: Revnum)
    requires Canonical(list) && i <= |list| && Whole(list, s, e) && s < r <= e
    ensures FirstSpanning(list, i, s, e) == At(list[i..], r)
    decreases |list| - i
  {
    var rest := list[i..];
    if i < |list| {
      FirstSpanningAt(list, i + 1, s, e, r);
      assert list[i + 1..] == rest[1..];
      assert forall j :: 1 <= j < |rest| ==> rest[j] == rest[1..][j - 1];
      assert forall j :: 0 <= j < |rest| - 1 ==> rest[1..][j] == rest[j + 1];
      assert Covers(list[i], r) <==> list[i].start <= s && e <= list[i].end;
      if Covers(rest[0], r) {
        assert forall j :: 1 <= j < |rest| ==> rest[0].end <= list[i + j].start && rest[j] == list[i + j];
      }
    }
  }

  /** Over an interval with none of its boundaries inside, a list says what it says of each of
      the interval's revisions. */
  lemma {:induction false} CoveredAt(list: Rangelist, s: Revnum, e: Revnum, r: Revnum)
    requires Whole(Normalized(list), s, e) && s < r <= e
    ensures Covered(list, s, e) == At(Normalized(list), r)
  {
    NormalizedCanonical(list);
    FirstSpanningAt(Normalized(list), 0, s, e, r);
    assert Normalized(list)[0..] == Normalized(list);
  }

  // ----- the operations -----

  /** An operation decides each interval from what the two lists say about it. */
  type Choice = (Meaning, Meaning) -> Meaning

  function CombineWith(a: Rangelist, b: Rangelist, choose: Choice): Rangelist {
    Combined(BothEnds(a, b), (start, end) => choose(Covered(a, start, end), Covered(b, start, end)))
  }

  const Either: Choice := (a: Meaning, b: Meaning) =>
    Meaning(a.present || b.present, a.inheritable || b.inheritable)

  function Both(considerInheritance: bool): Choice {
    (a: Meaning, b: Meaning) =>
      if considerInheritance && a.inheritable != b.inheritable then ABSENT
      else Meaning(a.present && b.present, a.inheritable || b.inheritable)
  }

  /** What is left of the whiteboard. */
  function Rest(considerInheritance: bool): Choice {
    (erase: Meaning, white: Meaning) =>
      var erased := erase.present && !(considerInheritance && white.inheritable != erase.inheritable);
      Meaning(white.present && !erased, white.inheritable)
  }

  function MergeRangelists(first: Rangelist, second: Rangelist): Rangelist {
    CombineWith(first, second, Either)
  }

  function IntersectRangelists(first: Rangelist, second: Rangelist, considerInheritance: bool): Rangelist {
    CombineWith(first, second, Both(considerInheritance))
  }

  function RemoveRangelist(eraser: Rangelist, whiteboard: Rangelist, considerInheritance: bool): Rangelist {
    CombineWith(eraser, whiteboard, Rest(considerInheritance))
  }

  datatype Difference = Difference(deleted: Rangelist, added: Rangelist)

  function DiffRangelists(from: Rangelist, to: Rangelist, considerInheritance: bool): Difference {
    Difference(RemoveRangelist(to, from, considerInheritance), RemoveRangelist(from, to, considerInheritance))
  }

  lemma {:induction false} BothEndsAre(a: Rangelist, b: Rangelist)
    ensures forall x :: x in BothEnds(a, b) ==> 0 <= x
    ensures forall i :: 0 <= i < |Normalized(a)| ==>
              Normalized(a)[i].start in BothEnds(a, b) && Normalized(a)[i].end in BothEnds(a, b)
    ensures forall i :: 0 <= i < |Normalized(b)| ==>
              Normalized(b)[i].start in BothEnds(a, b) && Normalized(b)[i].end in BothEnds(a, b)
  {
    NormalizedCanonical(a);
    NormalizedCanonical(b);
    EndsAre(Normalized(a), |Normalized(a)|);
    EndsAre(Normalized(b), |Normalized(b)|);
  }

  lemma {:induction false} AbsentOutside(list: Rangelist, boundaries: seq<Revnum>, r: Revnum)
    requires Outside(boundaries, r)
    requires forall i :: 0 <= i < |list| ==> list[i].start in boundaries && list[i].end in boundaries
    ensures At(list, r) == ABSENT
  {
  }

  /** Every operation is pointwise: what its result says of a revision depends only on what the
      two lists' normal forms say of that revision. */
  lemma {:induction false} Pointwise(a: Rangelist, b: Rangelist, choose: Choice, r: Revnum)
    requires !choose(ABSENT, ABSENT).present
    ensures Canonical(CombineWith(a, b, choose))
    ensures At(CombineWith(a, b, choose), r) == Clip(choose(At(Normalized(a), r), At(Normalized(b), r)))
  {
    BothEndsAre(a, b);
    var says := (start, end) => choose(Covered(a, start, end), Covered(b, start, end));
    var found, s, e := CombinedAt(BothEnds(a, b), says, r);
    if found {
      CoveredAt(a, s, e, r);
      CoveredAt(b, s, e, r);
    } else {
      AbsentOutside(Normalized(a), BothEnds(a, b), r);
      AbsentOutside(Normalized(b), BothEnds(a, b), r);
    }
  }
}
