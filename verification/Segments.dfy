/** Where a node's history was, revision by revision (repos/repos.go), and where two histories
    last met (client/merge.go). */
module Segments {
  import opened Common
  import opened Paths

  type Revnum = int

  const INVALID_REVNUM: Revnum := -1

  /** The node lay at the path up to the revision, and since the next older entry. */
  datatype HistoryEntry = HistoryEntry(path: Path, revision: Revnum)

  datatype Segment = Segment(path: Path, start: Revnum, end: Revnum)

  type History = seq<HistoryEntry>

  predicate Descending(history: History) {
    forall i, j :: 0 <= i < j < |history| ==> history[i].revision > history[j].revision
  }

  /** nodeHistory: the newest entry reaches up to the revision that was asked about. */
  function NodeHistory(found: History, resolved: Revnum): (history: History)
    ensures Descending(found) ==> Descending(history)
    ensures history != [] ==> history[0].revision >= resolved
  {
    if found != [] && found[0].revision < resolved then found[0 := found[0].(revision := resolved)] else found
  }

  // ----- one revision -----

  predicate Holds(history: History, i: nat, r: Revnum)
    requires i < |history|
  {
    r <= history[i].revision && (i + 1 == |history| || r > history[i + 1].revision)
  }

  /** The first entry from i on that holds the revision. */
  function LocationFrom(history: History, i: nat, r: Revnum): Option<Path>
    requires i <= |history|
    decreases |history| - i
  {
    if i == |history| then None
    else if Holds(history, i, r) then Some(history[i].path)
    else LocationFrom(history, i + 1, r)
  }

  function Location(history: History, r: Revnum): Option<Path> {
    LocationFrom(history, 0, r)
  }

  method HistoryLocation(history: History, r: Revnum) returns (location: Option<Path>)
    ensures location == Location(history, r)
  {
    for i := 0 to |history|
      invariant Location(history, r) == LocationFrom(history, i, r)
    {
      if r <= history[i].revision && (i + 1 == |history| || r > history[i + 1].revision) {
        return Some(history[i].path);
      }
    }
    return None;
  }

  /** A history has a location for exactly the revisions up to its newest entry. */
  lemma {:induction false} LocatedUpToNewest(history: History, r: Revnum)
    requires Descending(history)
    ensures Location(history, r).Some? <==> history != [] && r <= history[0].revision
  {
    if history != [] {
      LocatedFrom(history, 0, r);
    }
  }

  lemma {:induction false} LocatedFrom(history: History, i: nat, r: Revnum)
    requires Descending(history) && i < |history|
    ensures r <= history[i].revision ==> LocationFrom(history, i, r).Some?
    ensures r > history[i].revision ==> LocationFrom(history, i, r) == None
    decreases |history| - i
  {
    if i + 1 < |history| {
      LocatedFrom(history, i + 1, r);
    }
  }

  /** No two entries hold the same revision. */
  lemma {:induction false} HoldsOnce(history: History, i: nat, j: nat, r: Revnum)
    requires Descending(history) && i < |history| && j < |history|
    requires Holds(history, i, r) && Holds(history, j, r)
    ensures i == j
  {
  }

  lemma {:induction false} LocationIs(history: History, i: nat, k: nat, r: Revnum)
    requires Descending(history) && k <= i < |history| && Holds(history, i, r)
    ensures LocationFrom(history, k, r) == Some(history[i].path)
    decreases i - k
  {
    if k < i {
      if Holds(history, k, r) {
        HoldsOnce(history, k, i, r);
      }
      LocationIs(history, i, k + 1, r);
    }
  }

  // ----- segments -----

  function RangeStart(history: History, i: nat, end: Revnum): Revnum
    requires i < |history|
  {
    if i + 1 < |history| then Max(end, history[i + 1].revision + 1) else end
  }

  /** The segment of entry i between the revisions end and start, if there is one. */
  function SegmentOf(history: History, i: nat, start: Revnum, end: Revnum): Option<Segment>
    requires i < |history|
  {
    var (first, last) := (RangeStart(history, i, end), Min(history[i].revision, start));
    if first <= last then Some(Segment(history[i].path, first, last)) else None
  }

  function SegmentsOf(history: History, n: nat, start: Revnum, end: Revnum): seq<Segment>
    requires n <= |history|
  {
    if n == 0 then []
    else match SegmentOf(history, n - 1, start, end)
      case None => SegmentsOf(history, n - 1, start, end)
      case Some(segment) => SegmentsOf(history, n - 1, start, end) + [segment]
  }

  method GetLocationSegments(history: History, start: Revnum, end: Revnum) returns (segments: seq<Segment>)
    ensures segments == SegmentsOf(history, |history|, start, end)
  {
    segments := [];
    for index := 0 to |history|
      invariant segments == SegmentsOf(history, index, start, end)
    {
      var rangeEnd := Min(history[index].revision, start);
      var rangeStart := end;
      if index + 1 < |history| {
        rangeStart := Max(rangeStart, history[index + 1].revision + 1);
      }
      if rangeStart <= rangeEnd {
        segments := segments + [Segment(history[index].path, rangeStart, rangeEnd)];
      }
    }
  }

  predicate Within(segment: Segment, r: Revnum) {
    segment.start <= r <= segment.end
  }

  /** A segment has a revision exactly when its entry holds it and it lies in the range. */
  lemma {:induction false} SegmentHolds(history: History, i: nat, start: Revnum, end: Revnum, r: Revnum)
    requires i < |history|
    ensures (SegmentOf(history, i, start, end).Some? && Within(SegmentOf(history, i, start, end).value, r))
            <==> Holds(history, i, r) && end <= r <= start
  {
  }

  ghost predicate Covers(segments: seq<Segment>, r: Revnum, path: Path) {
    exists k :: 0 <= k < |segments| && Within(segments[k], r) && segments[k].path == path
  }

  /** The segments go down: each lies wholly below those before it. */
  predicate Downward(segments: seq<Segment>) {
    forall j, k :: 0 <= j < k < |segments| ==> segments[j].start > segments[k].end
  }

  /** The segments of the first n entries are disjoint, each non-empty and between end and start,
      and they have the revisions that those entries hold in that range, at the same paths. */
  lemma {:induction false} SegmentsTile(history: History, n: nat, start: Revnum, end: Revnum)
    requires Descending(history) && n <= |history|
    ensures var segments := SegmentsOf(history, n, start, end);
            && Downward(segments)
            && (forall k :: 0 <= k < |segments| ==> end <= segments[k].start <= segments[k].end <= start)
            && (0 < n < |history| ==> forall k :: 0 <= k < |segments| ==> segments[k].start > history[n].revision)
            && forall r, path :: Covers(segments, r, path) <==>
                 exists i :: 0 <= i < n && Holds(history, i, r) && history[i].path == path && end <= r <= start
  {
    var segments := SegmentsOf(history, n, start, end);
    if n > 0 {
      SegmentsTile(history, n - 1, start, end);
      var before := SegmentsOf(history, n - 1, start, end);
      forall r, path
        ensures Covers(segments, r, path) <==>
                  exists i :: 0 <= i < n && Holds(history, i, r) && history[i].path == path && end <= r <= start
      {
        SegmentHolds(history, n - 1, start, end, r);
        CoversMore(before, segments, r, path);
      }
    }
  }

  lemma {:induction false} CoversMore(before: seq<Segment>, after: seq<Segment>, r: Revnum, path: Path)
    requires before <= after && |after| <= |before| + 1
    ensures Covers(after, r, path) <==>
              Covers(before, r, path) ||
              (|after| > |before| && Within(after[|before|], r) && after[|before|].path == path)
  {
    if Covers(before, r, path) {
      var k :| 0 <= k < |before| && Within(before[k], r) && before[k].path == path;
      assert after[k] == before[k];
    }
  }

  /** The segments of a history tile its revisions from end up to start or to its newest entry,
      and agree everywhere with the location of the single revision. */
  lemma {:induction false} SegmentsAgree(history: History, start: Revnum, end: Revnum, r: Revnum)
    requires Descending(history)
    ensures var segments := SegmentsOf(history, |history|, start, end);
            && Downward(segments)
            && ((exists path :: Covers(segments, r, path)) <==>
                  history != [] && end <= r <= Min(start, history[0].revision))
            && forall path :: Covers(segments, r, path) <==> Location(history, r) == Some(path) && end <= r <= start
  {
    var segments := SegmentsOf(history, |history|, start, end);
    SegmentsTile(history, |history|, start, end);
    LocatedUpToNewest(history, r);
    forall path
      ensures Covers(segments, r, path) <==> Location(history, r) == Some(path) && end <= r <= start
    {
      if i :| 0 <= i < |history| && Holds(history, i, r) {
        LocationIs(history, i, 0, r);
        forall j | 0 <= j < |history| && Holds(history, j, r)
          ensures j == i
        {
          HoldsOnce(history, i, j, r);
        }
      } else {
        NowhereHeld(history, 0, r);
      }
    }
    if Location(history, r).Some? && end <= r <= start {
      assert Covers(segments, r, Location(history, r).value);
    }
  }

  lemma {:induction false} NowhereHeld(history: History, i: nat, r: Revnum)
    requires i <= |history| && forall j :: 0 <= j < |history| ==> !Holds(history, j, r)
    ensures LocationFrom(history, i, r) == None
    decreases |history| - i
  {
    if i < |history| { NowhereHeld(history, i + 1, r); }
  }

  // ----- where two histories last met -----

  /** The youngest revision that two segments share at one path, or what was known before. */
  function Meet(left: Segment, right: Segment, common: Revnum): Revnum {
    if left.path != right.path then common
    else
      var (start, end) := (Max(left.start, right.start), Min(left.end, right.end));
      if start <= end && end > common then end else common
  }

  function MeetRow(left: Segment, rights: seq<Segment>, n: nat, common: Revnum): Revnum
    requires n <= |rights|
  {
    if n == 0 then common else Meet(left, rights[n - 1], MeetRow(left, rights, n - 1, common))
  }

  function MeetAll(lefts: seq<Segment>, rights: seq<Segment>, n: nat): Revnum
    requires n <= |lefts|
  {
    if n == 0 then INVALID_REVNUM else MeetRow(lefts[n - 1], rights, |rights|, MeetAll(lefts, rights, n - 1))
  }

  method CommonLocation(lefts: seq<Segment>, rights: seq<Segment>) returns (common: Revnum)
    ensures common == MeetAll(lefts, rights, |lefts|)
  {
    common := INVALID_REVNUM;
    for i := 0 to |lefts|
      invariant common == MeetAll(lefts, rights, i)
    {
      ghost var before := common;
      for j := 0 to |rights|
        invariant common == MeetRow(lefts[i], rights, j, before)
      {
        var left, right := lefts[i], rights[j];
        if left.path != right.path {
          continue;
        }
        var start := left.start;
        if right.start > start {
          start := right.start;
        }
        var end := left.end;
        if right.end < end {
          end := right.end;
        }
        if start <= end && end > common {
          common := end;
        }
      }
    }
  }

  /** A revision at which the two segments are at one path. */
  predicate Shared(left: Segment, right: Segment, r: Revnum) {
    left.path == right.path && Within(left, r) && Within(right, r)
  }

  lemma {:induction false} MeetIs(left: Segment, right: Segment, common: Revnum)
    ensures var r := Meet(left, right, common);
            && r >= common && (r == common || Shared(left, right, r))
            && forall x :: Shared(left, right, x) ==> x <= r
  {
  }

  lemma {:induction false} MeetRowIs(left: Segment, rights: seq<Segment>, n: nat, common: Revnum)
    requires n <= |rights|
    ensures var r := MeetRow(left, rights, n, common);
            && r >= common && (r == common || exists j :: 0 <= j < n && Shared(left, rights[j], r))
            && forall j, x :: 0 <= j < n && Shared(left, rights[j], x) ==> x <= r
  {
    if n > 0 {
      MeetRowIs(left, rights, n - 1, common);
      MeetIs(left, rights[n - 1], MeetRow(left, rights, n - 1, common));
    }
  }

  lemma {:induction false} MeetAllIs(lefts: seq<Segment>, rights: seq<Segment>, n: nat)
    requires n <= |lefts|
    ensures var r := MeetAll(lefts, rights, n);
            && (r == INVALID_REVNUM || exists i, j :: 0 <= i < n && 0 <= j < |rights| && Shared(lefts[i], rights[j], r))
            && forall i, j, x :: 0 <= i < n && 0 <= j < |rights| && Shared(lefts[i], rights[j], x) ==> x <= r
  {
    if n > 0 {
      MeetAllIs(lefts, rights, n - 1);
      MeetRowIs(lefts[n - 1], rights, |rights|, MeetAll(lefts, rights, n - 1));
    }
  }

  /** Both histories were at one path at that revision. */
  predicate Together(a: History, b: History, r: Revnum) {
    Location(a, r).Some? && Location(a, r) == Location(b, r)
  }

  lemma {:induction false} SharedIsTogether(a: History, b: History, m: Revnum, n: Revnum, r: Revnum)
    requires Descending(a) && Descending(b)
    ensures var (lefts, rights) := (SegmentsOf(a, |a|, m, 0), SegmentsOf(b, |b|, n, 0));
            (exists i, j :: 0 <= i < |lefts| && 0 <= j < |rights| && Shared(lefts[i], rights[j], r))
            <==> Together(a, b, r) && 0 <= r <= m && r <= n
  {
    var (lefts, rights) := (SegmentsOf(a, |a|, m, 0), SegmentsOf(b, |b|, n, 0));
    SegmentsAgree(a, m, 0, r);
    SegmentsAgree(b, n, 0, r);
    if i, j :| 0 <= i < |lefts| && 0 <= j < |rights| && Shared(lefts[i], rights[j], r) {
      assert Covers(lefts, r, lefts[i].path) && Covers(rights, r, lefts[i].path);
    }
    if Together(a, b, r) && 0 <= r <= m && r <= n {
      var path := Location(a, r).value;
      assert Covers(lefts, r, path) && Covers(rights, r, path);
      var i :| 0 <= i < |lefts| && Within(lefts[i], r) && lefts[i].path == path;
      var j :| 0 <= j < |rights| && Within(rights[j], r) && rights[j].path == path;
      assert Shared(lefts[i], rights[j], r);
    }
  }

  /** The youngest common location of two nodes, seen from their own revisions, is the largest
      revision at which both histories were at the same path; it is invalid exactly when there
      is none. */
  lemma {:induction false} YoungestCommon(a: History, b: History, m: Revnum, n: Revnum)
    requires Descending(a) && Descending(b)
    ensures var r := MeetAll(SegmentsOf(a, |a|, m, 0), SegmentsOf(b, |b|, n, 0), |SegmentsOf(a, |a|, m, 0)|);
            && (r != INVALID_REVNUM ==> Together(a, b, r) && 0 <= r <= m && r <= n)
            && forall x :: Together(a, b, x) && 0 <= x <= m && x <= n ==> x <= r && r != INVALID_REVNUM
  {
    var (lefts, rights) := (SegmentsOf(a, |a|, m, 0), SegmentsOf(b, |b|, n, 0));
    MeetAllIs(lefts, rights, |lefts|);
    var r := MeetAll(lefts, rights, |lefts|);
    SharedIsTogether(a, b, m, n, r);
    forall x | Together(a, b, x) && 0 <= x <= m && x <= n
      ensures x <= r
    {
      SharedIsTogether(a, b, m, n, x);
    }
  }

  method YoungestCommonLocation(a: History, b: History, m: Revnum, n: Revnum) returns (r: Revnum)
    requires Descending(a) && Descending(b)
    ensures r != INVALID_REVNUM ==> Together(a, b, r) && 0 <= r <= m && r <= n
    ensures forall x :: Together(a, b, x) && 0 <= x <= m && x <= n ==> x <= r
    ensures r == INVALID_REVNUM <==> forall x :: 0 <= x <= m && x <= n ==> !Together(a, b, x)
  {
    var lefts := GetLocationSegments(a, m, 0);
    var rights := GetLocationSegments(b, n, 0);
    r := CommonLocation(lefts, rights);
    YoungestCommon(a, b, m, n);
  }
}
