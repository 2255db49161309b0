/** Rangelists (mergeinfo/mergeinfo.go): what a list of revision ranges means, the one canonical
    list for each meaning, and the boundary sweep that every operation is built on. */
module Rangelists {
  import opened Common

  type Revnum = int

  /** The revisions after start, up to and including end. */
  datatype Range = Range(start: Revnum, end: Revnum, inheritable: bool)

  type Rangelist = seq<Range>

  // ----- what a rangelist means -----

  /** What is said about one revision, or about all revisions of an interval. */
  datatype Meaning = Meaning(present: bool, inheritable: bool)

  const ABSENT := Meaning(false, false)

  /** A range list's answer counts for nothing where it says absent. */
  function Clip(m: Meaning): Meaning {
    if m.present then m else ABSENT
  }

  predicate Covers(item: Range, r: Revnum) {
    item.start < r <= item.end
  }

  /** A revision is present if any range covers it, and inheritable if any covering range is. */
  ghost function At(list: Rangelist, r: Revnum): Meaning {
    Meaning(exists i :: 0 <= i < |list| && Covers(list[i], r),
            exists i :: 0 <= i < |list| && Covers(list[i], r) && list[i].inheritable)
  }

  ghost predicate SameMeaning(a: Rangelist, b: Rangelist) {
    forall r :: At(a, r) == At(b, r)
  }

  /** Sorted, disjoint, and joined as far as inheritability allows. */
  ghost predicate Canonical(list: Rangelist) {
    && (forall i :: 0 <= i < |list| ==> 0 <= list[i].start < list[i].end)
    && (forall i, j :: 0 <= i < j < |list| ==> list[i].end <= list[j].start)
    && (forall i, j :: 0 <= i && j == i + 1 && j < |list| && list[i].end == list[j].start ==>
          list[i].inheritable != list[j].inheritable)
  }

  // ----- there is one canonical list for each meaning -----

  lemma {:induction false} AtLast(list: Rangelist, r: Revnum)
    requires list != []
    ensures var (last, rest) := (list[|list| - 1], list[..|list| - 1]);
            At(list, r) == if Covers(last, r)
                           then Meaning(true, last.inheritable || At(rest, r).inheritable)
                           else At(rest, r)
  {
    var n := |list| - 1;
    var rest := list[..n];
    assert forall i :: 0 <= i < n ==> rest[i] == list[i];
  }

  lemma {:induction false} AtBeyond(list: Rangelist, r: Revnum)
    requires forall i :: 0 <= i < |list| ==> list[i].end < r
    ensures At(list, r) == ABSENT
  {
  }

  lemma {:induction false} CanonicalPrefix(list: Rangelist)
    requires Canonical(list) && list != []
    ensures Canonical(list[..|list| - 1])
  {
  }

  /** Around the last range of a canonical list: the revision behind its end is absent, its own
      revisions say what it says, and the revision at its start says something else. */
  lemma {:induction false} LastRange(list: Rangelist)
    requires Canonical(list) && list != []
    ensures var last := list[|list| - 1];
            && (forall r :: r > last.end ==> At(list, r) == ABSENT)
            && (forall r :: last.start < r <= last.end ==> At(list, r) == Meaning(true, last.inheritable))
            && At(list, last.start) != Meaning(true, last.inheritable)
  {
    var n := |list| - 1;
    var last := list[n];
    forall r | r > last.start
      ensures At(list, r) == if r <= last.end then Meaning(true, last.inheritable) else ABSENT
    {
      AtLast(list, r);
      AtBeyond(list[..n], r);
    }
    AtLast(list, last.start);
    if n > 0 {
      AtLast(list[..n], last.start);
      AtBeyond(list[..n][..n - 1], last.start);
    } else {
      AtBeyond(list[..n], last.start);
    }
  }

  lemma {:induction false} SameLast(a: Rangelist, b: Rangelist)
    requires Canonical(a) && Canonical(b) && SameMeaning(a, b) && a != []
    ensures b != [] && a[|a| - 1] == b[|b| - 1]
  {
    var x := a[|a| - 1];
    LastRange(a);
    assert At(a, x.end) == At(b, x.end);
    if b == [] {
      AtBeyond(b, x.end);
    } else {
      var y := b[|b| - 1];
      LastRange(b);
      assert At(a, y.end) == At(b, y.end);
      assert x.end == y.end && x.inheritable == y.inheritable;
      assert At(a, x.start) == At(b, x.start) && At(a, y.start) == At(b, y.start);
    }
  }

  lemma {:induction false} SameRest(a: Rangelist, b: Rangelist)
    requires Canonical(a) && Canonical(b) && SameMeaning(a, b)
    requires a != [] && b != [] && a[|a| - 1] == b[|b| - 1]
    ensures SameMeaning(a[..|a| - 1], b[..|b| - 1])
  {
    var a', b', last := a[..|a| - 1], b[..|b| - 1], a[|a| - 1];
    forall r ensures At(a', r) == At(b', r) {
      assert At(a, r) == At(b, r);
      AtLast(a, r);
      AtLast(b, r);
      if r > last.start {
        AtBeyond(a', r);
        AtBeyond(b', r);
      }
    }
  }

  /** Two canonical lists with the same meaning are the same list. */
  lemma {:induction false} CanonicalUnique(a: Rangelist, b: Rangelist)
    requires Canonical(a) && Canonical(b) && SameMeaning(a, b)
    ensures a == b
    decreases |a|
  {
    if a != [] {
      SameLast(a, b);
      SameRest(a, b);
      CanonicalPrefix(a);
      CanonicalPrefix(b);
      CanonicalUnique(a[..|a| - 1], b[..|b| - 1]);
      assert a == a[..|a| - 1] + [a[|a| - 1]] && b == b[..|b| - 1] + [b[|b| - 1]];
    } else if b != [] {
      SameLast(b, a);
    }
  }

  // ----- the sweep -----

  /** What an operation says about the interval between two boundaries. */
  type Says = (Revnum, Revnum) -> Meaning

  predicate Ascending(u: seq<Revnum>) {
    forall i, j :: 0 <= i < j < |u| ==> u[i] < u[j]
  }

  /** Add one interval to the result, joining it to the last range where they meet and agree. */
  function Extend(result: Rangelist, start: Revnum, end: Revnum, m: Meaning): Rangelist {
    if !m.present then result
    else if |result| > 0 && result[|result| - 1].end == start && result[|result| - 1].inheritable == m.inheritable then
      result[|result| - 1 := result[|result| - 1].(end := end)]
    else result + [Range(start, end, m.inheritable)]
  }

  /** The ranges of the first n intervals between neighbouring boundaries. */
  function Sweep(u: seq<Revnum>, n: nat, says: Says): Rangelist
    requires n == 0 || n < |u|
  {
    if n == 0 then [] else Extend(Sweep(u, n - 1, says), u[n - 1], u[n], says(u[n - 1], u[n]))
  }

  /** What those intervals say about a revision. */
  function SweepAt(u: seq<Revnum>, n: nat, says: Says, r: Revnum): Meaning
    requires n == 0 || n < |u|
  {
    if n == 0 then ABSENT
    else if u[n - 1] < r <= u[n] then Clip(says(u[n - 1], u[n]))
    else SweepAt(u, n - 1, says, r)
  }

  lemma {:induction false} ExtendMeans(result: Rangelist, start: Revnum, end: Revnum, m: Meaning, r: Revnum)
    requires Canonical(result) && start < end
    requires forall i :: 0 <= i < |result| ==> result[i].end <= start
    ensures At(Extend(result, start, end, m), r) == if start < r <= end then Clip(m) else At(result, r)
  {
    var extended := Extend(result, start, end, m);
    if m.present {
      AtLast(extended, r);
      if |extended| == |result| {
        AtLast(result, r);
        assert extended[..|result| - 1] == result[..|result| - 1];
        if r > start { AtBeyond(result[..|result| - 1], r); }
        if r > result[|result| - 1].start { AtBeyond(result[..|result| - 1], r); }
      } else {
        assert extended[..|result|] == result;
        if r > start { AtBeyond(result, r); }
      }
    } else if r > start {
      AtBeyond(result, r);
    }
  }

  lemma {:induction false} ExtendCanonical(result: Rangelist, start: Revnum, end: Revnum, m: Meaning)
    requires Canonical(result) && 0 <= start < end
    requires forall i :: 0 <= i < |result| ==> result[i].end <= start
    ensures Canonical(Extend(result, start, end, m))
    ensures forall i :: 0 <= i < |Extend(result, start, end, m)| ==> Extend(result, start, end, m)[i].end <= end
  {
    var last := |result| - 1;
    var extended := Extend(result, start, end, m);
    if m.present {
      if |extended| == |result| {
        CanonicalPrefix(result);
        CanonicalMore(result[..last], Range(result[last].start, end, m.inheritable));
        assert extended == result[..last] + [Range(result[last].start, end, m.inheritable)];
      } else {
        CanonicalMore(result, Range(start, end, m.inheritable));
      }
    }
  }

  /** A range behind a canonical list, that cannot be joined with its last one. */
  lemma {:induction false} CanonicalMore(list: Rangelist, range: Range)
    requires Canonical(list) && 0 <= range.start < range.end
    requires forall i :: 0 <= i < |list| ==> list[i].end <= range.start
    requires list != [] && list[|list| - 1].end == range.start ==> list[|list| - 1].inheritable != range.inheritable
    ensures Canonical(list + [range])
    ensures forall i :: 0 <= i < |list + [range]| ==> (list + [range])[i].end <= range.end
  {
    assert forall i :: 0 <= i < |list| ==> (list + [range])[i] == list[i];
  }

  lemma {:induction false} SweepCanonical(u: seq<Revnum>, n: nat, says: Says)
    requires Ascending(u) && (n == 0 || (n < |u| && u[0] >= 0))
    ensures Canonical(Sweep(u, n, says))
    ensures n > 0 ==> forall i :: 0 <= i < |Sweep(u, n, says)| ==> Sweep(u, n, says)[i].end <= u[n]
  {
    if n > 0 {
      SweepCanonical(u, n - 1, says);
      ExtendCanonical(Sweep(u, n - 1, says), u[n - 1], u[n], says(u[n - 1], u[n]));
    }
  }

  lemma {:induction false} SweepMeans(u: seq<Revnum>, n: nat, says: Says, r: Revnum)
    requires Ascending(u) && (n == 0 || (n < |u| && u[0] >= 0))
    ensures At(Sweep(u, n, says), r) == SweepAt(u, n, says, r)
  {
    if n > 0 {
      SweepCanonical(u, n - 1, says);
      SweepMeans(u, n - 1, says, r);
      ExtendMeans(Sweep(u, n - 1, says), u[n - 1], u[n], says(u[n - 1], u[n]), r);
    }
  }

  // ----- boundaries -----

  /** The values of b, sorted and each once. */
  function SortUnique(b: seq<Revnum>): (u: seq<Revnum>)
    ensures Ascending(u)
    ensures forall x :: x in u <==> x in b
  {
    if b == [] then [] else Insert(b[0], SortUnique(b[1..]))
  }

  lemma {:induction false} BelowRest(u: seq<Revnum>)
    requires Ascending(u) && u != []
    ensures forall y :: y in u[1..] ==> u[0] < y
  {
    forall y | y in u[1..]
      ensures u[0] < y
    {
      var k :| 0 <= k < |u| - 1 && u[1..][k] == y;
      assert u[k + 1] == y;
    }
  }

  lemma {:induction false} FirstAscends(x: Revnum, rest: seq<Revnum>)
    requires Ascending(rest) && forall y :: y in rest ==> x < y
    ensures Ascending([x] + rest)
  {
    forall i, j | 0 <= i < j < |[x] + rest|
      ensures ([x] + rest)[i] < ([x] + rest)[j]
    {
      assert rest[j - 1] in rest;
    }
  }

  function Insert(x: Revnum, u: seq<Revnum>): (r: seq<Revnum>)
    requires Ascending(u)
    ensures Ascending(r)
    ensures forall y :: y in r <==> y == x || y in u
  {
    if u == [] || x < u[0] then [x] + u
    else if x == u[0] then u
    else
      BelowRest(u);
      var rest := Insert(x, u[1..]);
      FirstAscends(u[0], rest);
      [u[0]] + rest
  }

  lemma {:induction false} SameHead(u: seq<Revnum>, v: seq<Revnum>)
    requires Ascending(u) && Ascending(v) && u != []
    requires forall x :: x in u <==> x in v
    ensures v != [] && u[0] == v[0]
  {
    assert u[0] in u;
    assert u[0] in v;
    assert v[0] in v;
    assert v[0] in u;
  }

  lemma {:induction false} AscendingUnique(u: seq<Revnum>, v: seq<Revnum>)
    requires Ascending(u) && Ascending(v)
    requires forall x :: x in u <==> x in v
    ensures u == v
    decreases |u|
  {
    if u != [] {
      SameHead(u, v);
      forall x ensures x in u[1..] <==> x in v[1..] {
        assert x in u[1..] <==> x in u && x != u[0];
        assert x in v[1..] <==> x in v && x != v[0];
      }
      AscendingUnique(u[1..], v[1..]);
    } else if v != [] {
      SameHead(v, u);
    }
  }

  predicate Sorted(s: seq<Revnum>) {
    forall i, j :: 0 <= i < j < |s| ==> s[i] <= s[j]
  }

  /** What sort.Slice with the order < leaves in the slice. */
  function Sort(b: seq<Revnum>): (s: seq<Revnum>)
    ensures Sorted(s)
    ensures forall x :: x in s <==> x in b
  {
    if b == [] then [] else InsertSorted(b[0], Sort(b[1..]))
  }

  lemma {:induction false} LowerThanRest(s: seq<Revnum>)
    requires Sorted(s) && s != []
    ensures forall y :: y in s[1..] ==> s[0] <= y
  {
    forall y | y in s[1..]
      ensures s[0] <= y
    {
      var k :| 0 <= k < |s| - 1 && s[1..][k] == y;
      assert s[k + 1] == y;
    }
  }

  lemma {:induction false} FirstIsSorted(x: Revnum, rest: seq<Revnum>)
    requires Sorted(rest) && forall y :: y in rest ==> x <= y
    ensures Sorted([x] + rest)
  {
    forall i, j | 0 <= i < j < |[x] + rest|
      ensures ([x] + rest)[i] <= ([x] + rest)[j]
    {
      assert rest[j - 1] in rest;
    }
  }

  function InsertSorted(x: Revnum, s: seq<Revnum>): (r: seq<Revnum>)
    requires Sorted(s)
    ensures Sorted(r)
    ensures forall y :: y in r <==> y == x || y in s
  {
    if s == [] || x <= s[0] then [x] + s else
      LowerThanRest(s);
      var rest := InsertSorted(x, s[1..]);
      FirstIsSorted(s[0], rest);
      [s[0]] + rest
  }

  ghost predicate Deduped(kept: seq<Revnum>, seen: seq<Revnum>) {
    && Ascending(kept)
    && (forall x :: x in kept <==> x in seen)
    && (if seen == [] then kept == [] else kept != [] && kept[|kept| - 1] == seen[|seen| - 1])
  }

  lemma {:induction false} DedupedStep(kept: seq<Revnum>, seen: seq<Revnum>, value: Revnum)
    requires Deduped(kept, seen) && Sorted(seen + [value])
    ensures Deduped(if kept == [] || kept[|kept| - 1] != value then kept + [value] else kept, seen + [value])
  {
    var seen' := seen + [value];
    assert forall x :: x in seen' <==> x in seen || x == value;
    if kept == [] || kept[|kept| - 1] != value {
      if seen != [] {
        assert seen'[|seen| - 1] <= seen'[|seen|];
      }
    }
  }

  lemma {:induction false} DedupedNext(kept: seq<Revnum>, sorted: seq<Revnum>, i: nat)
    requires Sorted(sorted) && i < |sorted| && Deduped(kept, sorted[..i])
    ensures Deduped(if kept == [] || kept[|kept| - 1] != sorted[i] then kept + [sorted[i]] else kept, sorted[..i + 1])
  {
    assert sorted[..i + 1] == sorted[..i] + [sorted[i]];
    DedupedStep(kept, sorted[..i], sorted[i]);
  }

  lemma {:induction false} DedupedIsUnique(kept: seq<Revnum>, sorted: seq<Revnum>)
    requires Deduped(kept, sorted)
    ensures kept == SortUnique(sorted)
  {
    AscendingUnique(kept, SortUnique(sorted));
  }

  /** The in-place removal of repeated values: a[..count] is what `unique` becomes. */
  method RemoveRepeats(a: array<Revnum>) returns (count: nat)
    requires Sorted(a[..])
    modifies a
    ensures count <= a.Length
    ensures a[..count] == SortUnique(old(a[..]))
  {
    count := 0;
    ghost var sorted := a[..];
    for i := 0 to a.Length
      invariant count <= i
      invariant forall k :: i <= k < a.Length ==> a[k] == sorted[k]
      invariant Deduped(a[..count], sorted[..i])
    {
      var value := a[i];
      ghost var kept := a[..count];
      DedupedNext(kept, sorted, i);
      if count == 0 || a[count - 1] != value {
        a[count] := value;
        count := count + 1;
        assert a[..count] == kept + [value];
      }
    }
    assert sorted[..a.Length] == sorted;
    DedupedIsUnique(a[..count], sorted);
  }

  /** Sorts the boundaries and removes the repeated ones. */
  method Unique(boundaries: seq<Revnum>) returns (unique: seq<Revnum>)
    ensures unique == SortUnique(boundaries)
  {
    var sorted := Sort(boundaries);
    var a := new Revnum[|sorted|](i requires 0 <= i < |sorted| => sorted[i]);
    assert a[..] == sorted;
    var count := RemoveRepeats(a);
    unique := a[..count];
    AscendingUnique(unique, SortUnique(boundaries));
  }

  // ----- combine -----

  function Combined(boundaries: seq<Revnum>, says: Says): Rangelist {
    var u := SortUnique(boundaries);
    Sweep(u, if u == [] then 0 else |u| - 1, says)
  }

  method Combine(boundaries: seq<Revnum>, says: Says) returns (result: Rangelist)
    ensures result == Combined(boundaries, says)
  {
    result := [];
    if |boundaries| == 0 {
      return;
    }
    var unique := Unique(boundaries);
    var index := 0;
    while index + 1 < |unique|
      invariant 0 <= index && (index == 0 || index < |unique|)
      invariant result == Sweep(unique, index, says)
    {
      var start, end := unique[index], unique[index + 1];
      var m := says(start, end);
      if m.present {
        if |result| > 0 && result[|result| - 1].end == start && result[|result| - 1].inheritable == m.inheritable {
          result := result[|result| - 1 := result[|result| - 1].(end := end)];
        } else {
          result := result + [Range(start, end, m.inheritable)];
        }
      }
      index := index + 1;
    }
  }

  /** s and e are neighbouring boundaries with r between them. */
  ghost predicate Brackets(boundaries: seq<Revnum>, s: Revnum, e: Revnum, r: Revnum) {
    s in boundaries && e in boundaries && s < r <= e && forall x :: x in boundaries ==> x <= s || e <= x
  }

  /** r lies before or behind all the boundaries. */
  ghost predicate Outside(boundaries: seq<Revnum>, r: Revnum) {
    (forall x :: x in boundaries ==> x < r) || (forall x :: x in boundaries ==> r <= x)
  }

  lemma {:induction false} SweepAtBracket(u: seq<Revnum>, n: nat, says: Says, r: Revnum)
      returns (found: bool, s: Revnum, e: Revnum)
    requires Ascending(u) && (n == 0 || n < |u|)
    ensures found ==> Brackets(u, s, e, r) && SweepAt(u, n, says, r) == Clip(says(s, e))
    ensures !found ==> SweepAt(u, n, says, r) == ABSENT && (n == 0 || r <= u[0] || u[n] < r)
  {
    if n == 0 {
      found, s, e := false, 0, 0;
    } else if u[n - 1] < r <= u[n] {
      found, s, e := true, u[n - 1], u[n];
    } else {
      found, s, e := SweepAtBracket(u, n - 1, says, r);
    }
  }

  /** The sweep's result is canonical, and says of a revision what the closure says of the
      neighbouring boundaries around it, and nothing of a revision outside all boundaries. */
  lemma {:induction false} CombinedAt(boundaries: seq<Revnum>, says: Says, r: Revnum)
      returns (found: bool, s: Revnum, e: Revnum)
    requires forall x :: x in boundaries ==> 0 <= x
    ensures Canonical(Combined(boundaries, says))
    ensures found ==> Brackets(boundaries, s, e, r) && At(Combined(boundaries, says), r) == Clip(says(s, e))
    ensures !found ==> Outside(boundaries, r) && At(Combined(boundaries, says), r) == ABSENT
  {
    var u := SortUnique(boundaries);
    var n := if u == [] then 0 else |u| - 1;
    if u != [] { assert u[0] in boundaries; }
    SweepCanonical(u, n, says);
    SweepMeans(u, n, says, r);
    found, s, e := SweepAtBracket(u, n, says, r);
    if !found {
      AllOnOneSide(u, r);
    }
  }

  lemma {:induction false} AllOnOneSide(u: seq<Revnum>, r: Revnum)
    requires Ascending(u)
    requires |u| <= 1 || r <= u[0] || u[|u| - 1] < r
    ensures Outside(u, r)
  {
  }
}
