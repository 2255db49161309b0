/** The log over a range of revisions (repos/repos.go): each revision is handed out at most once,
    and none that matches is missed. */
module Log {
  import opened Common
  import opened Paths
  import opened MergedLog
  import opened MergedTrees
  import S = Segments

  datatype Options = Options(start: Revnum, end: Revnum, histories: seq<S.History>, includeMerged: bool, limit: int)

  predicate Backward(o: Options) {
    o.start > o.end
  }

  /** Where the first n of the asked-for nodes were at that revision, those that were anywhere. */
  function FilterPaths(histories: seq<S.History>, n: nat, r: Revnum): seq<Path>
    requires n <= |histories|
  {
    if n == 0 then []
    else match S.Location(histories[n - 1], r)
      case None => FilterPaths(histories, n - 1, r)
      case Some(path) => FilterPaths(histories, n - 1, r) + [path]
  }

  function Filter(o: Options, r: Revnum): seq<Path> {
    FilterPaths(o.histories, |o.histories|, r)
  }

  /** The revision is one the log asks for. */
  ghost predicate Matches(repo: Repository, o: Options, r: Revnum) {
    (o.histories == [] || Filter(o, r) != []) && ChangesMatch(repo.changed[r], Filter(o, r))
  }

  /** What one revision of the range makes the handler see. */
  ghost function Handle(repo: Repository, o: Options, r: Revnum, delivered: set<Revnum>): Merged {
    if r in delivered || !Matches(repo, o, r) then Merged(false, [], delivered)
    else if !o.includeMerged then Merged(false, [LogEntry(r, false, false)], delivered + {r})
    else
      var m := MergedEntries(repo, Backward(o), r, Filter(o, r), delivered + {r});
      if m.failed then m else m.(entries := [LogEntry(r, m.entries != [], false)] + m.entries)
  }

  /** Whether the log ended in an error, and all that the handler was given. */
  datatype Result = Result(failed: bool, entries: seq<LogEntry>)

  function Distance(o: Options, r: Revnum): int {
    if Backward(o) then r - o.end else o.end - r
  }

  function Next(o: Options, r: Revnum): Revnum {
    if Backward(o) then r - 1 else r + 1
  }

  ghost function LogFrom(repo: Repository, o: Options, r: Revnum, count: nat, delivered: set<Revnum>): Result
    requires 0 <= Distance(o, r)
    decreases Distance(o, r)
  {
    if !Exists(repo, r) then Result(true, [])
    else
      var h := Handle(repo, o, r, delivered);
      var count' := if h.entries == [] then count else count + 1;
      if h.failed then Result(true, [])
      else if (h.entries != [] && 0 < o.limit <= count') || r == o.end then Result(false, h.entries)
      else
        var rest := LogFrom(repo, o, Next(o, r), count', h.delivered);
        rest.(entries := h.entries + rest.entries)
  }

  method FilterOf(histories: seq<S.History>, r: Revnum) returns (paths: seq<Path>)
    ensures paths == FilterPaths(histories, |histories|, r)
  {
    paths := [];
    for n := 0 to |histories|
      invariant paths == FilterPaths(histories, n, r)
    {
      var location := S.HistoryLocation(histories[n], r);
      if location.Some? {
        paths := paths + [location.value];
      }
    }
  }

  /** The body of the loop over the revisions. */
  method HandleOne(repo: Repository, o: Options, r: Revnum, delivered: set<Revnum>) returns (m: Merged)
    ensures m == Handle(repo, o, r, delivered)
  {
    var filter := FilterOf(o.histories, r);
    if r in delivered || (o.histories != [] && filter == []) || !ChangesMatch(repo.changed[r], filter) {
      return Merged(false, [], delivered);
    }
    if !o.includeMerged {
      return Merged(false, [LogEntry(r, false, false)], delivered + {r});
    }
    m := MergedLogEntries(repo, Backward(o), r, filter, delivered + {r});
    if !m.failed {
      m := m.(entries := [LogEntry(r, m.entries != [], false)] + m.entries);
    }
  }

  method Log(repo: Repository, o: Options) returns (result: Result)
    ensures result == LogFrom(repo, o, o.start, 0, {})
  {
    var handed: seq<LogEntry> := [];
    var delivered: set<Revnum> := {};
    var count: nat := 0;
    var r := o.start;
    while true
      invariant 0 <= Distance(o, r)
      invariant LogFrom(repo, o, o.start, 0, {}) ==
                var rest := LogFrom(repo, o, r, count, delivered);
                Result(rest.failed, handed + rest.entries)
      decreases Distance(o, r)
    {
      if !Exists(repo, r) {
        return Result(true, handed);
      }
      var m := HandleOne(repo, o, r, delivered);
      if m.failed {
        return Result(true, handed);
      }
      AppendOnce(handed, m.entries, repo, o, r, if m.entries == [] then count else count + 1, m.delivered);
      handed := handed + m.entries;
      delivered := m.delivered;
      if m.entries != [] {
        count := count + 1;
        if o.limit > 0 && count >= o.limit {
          return Result(false, handed);
        }
      }
      if r == o.end {
        return Result(false, handed);
      }
      r := Next(o, r);
    }
  }

  lemma {:induction false} AppendOnce(handed: seq<LogEntry>, more: seq<LogEntry>, repo: Repository, o: Options, r: Revnum,
                                      count: nat, delivered: set<Revnum>)
    ensures 0 <= Distance(o, Next(o, r)) ==>
              var rest := LogFrom(repo, o, Next(o, r), count, delivered);
              handed + (more + rest.entries) == handed + more + rest.entries
  {
  }

  // ----- what the log is asked for -----

  /** One of the asked-for nodes was then at or above a path that the revision changed. */
  ghost predicate TouchedAt(repo: Repository, o: Options, i: int, r: Revnum) {
    && 0 <= i < |o.histories| && S.Location(o.histories[i], r).Some?
    && exists c :: c in repo.changed[r] && S.Location(o.histories[i], r).value <= c
  }

  /** Every revision, if no nodes are asked for; otherwise those that touched one of them. */
  ghost predicate Wanted(repo: Repository, o: Options, r: Revnum) {
    o.histories == [] || exists i :: TouchedAt(repo, o, i, r)
  }

  /** The places of the asked-for nodes at a revision. */
  ghost predicate ArePlaces(o: Options, r: Revnum, paths: seq<Path>) {
    forall p :: p in paths <==> exists i :: 0 <= i < |o.histories| && S.Location(o.histories[i], r) == Some(p)
  }

  lemma {:induction false} FilterIs(histories: seq<S.History>, n: nat, r: Revnum)
    requires n <= |histories|
    ensures forall p :: p in FilterPaths(histories, n, r) <==> exists i :: 0 <= i < n && S.Location(histories[i], r) == Some(p)
  {
    if n > 0 { FilterIs(histories, n - 1, r); }
  }

  lemma {:induction false} MatchesIsWanted(repo: Repository, o: Options, r: Revnum)
    ensures Matches(repo, o, r) <==> Wanted(repo, o, r)
    ensures ArePlaces(o, r, Filter(o, r))
  {
    var filter := Filter(o, r);
    FilterIs(o.histories, |o.histories|, r);
    if o.histories != [] && Matches(repo, o, r) {
      var c, k :| c in repo.changed[r] && 0 <= k < |filter| && filter[k] <= c;
      assert filter[k] in filter;
      var i :| 0 <= i < |o.histories| && S.Location(o.histories[i], r) == Some(filter[k]);
      assert TouchedAt(repo, o, i, r);
    }
    if o.histories != [] && Wanted(repo, o, r) {
      var i :| TouchedAt(repo, o, i, r);
      assert S.Location(o.histories[i], r).value in filter;
    }
  }

  // ----- what the handler is given -----

  lemma {:induction false} HandleDelivers(repo: Repository, o: Options, r: Revnum, delivered: set<Revnum>)
    requires Exists(repo, r)
    ensures Delivers(repo, delivered, Handle(repo, o, r, delivered))
    ensures var h := Handle(repo, o, r, delivered);
            !h.failed && Matches(repo, o, r) ==> r in h.delivered
  {
    if r in delivered || !Matches(repo, o, r) {
      DeliversNothing(repo, delivered);
    } else if !o.includeMerged {
      DeliversNothing(repo, delivered + {r});
      DeliversParent(repo, delivered, LogEntry(r, false, false), Merged(false, [], delivered + {r}));
      assert [LogEntry(r, false, false)] + [] == [LogEntry(r, false, false)];
    } else {
      var m := MergedEntries(repo, Backward(o), r, Filter(o, r), delivered + {r});
      MergedDelivers(repo, Backward(o), r, Filter(o, r), delivered + {r});
      DeliversParent(repo, delivered, LogEntry(r, m.entries != [], false), m);
    }
  }

  /** A revision of the rest of the range. */
  predicate Ahead(o: Options, r: Revnum, x: Revnum) {
    if Backward(o) then o.end <= x <= r else r <= x <= o.end
  }

  /** Each revision once, none that was delivered before, and, unless the log ends early, every
      revision of the rest of the range that matches and was not delivered. */
  ghost predicate DeliveredFrom(repo: Repository, o: Options, r: Revnum, delivered: set<Revnum>, result: Result) {
    && Once(result.entries)
    && Revisions(result.entries, |result.entries|) !! delivered
    && (forall x :: x in Revisions(result.entries, |result.entries|) ==> Exists(repo, x))
    && (!result.failed && o.limit <= 0 ==> forall x :: Ahead(o, r, x) && Matches(repo, o, x) ==>
          x in delivered || x in Revisions(result.entries, |result.entries|))
  }

  lemma {:induction false} JoinDelivered(repo: Repository, o: Options, r: Revnum, delivered: set<Revnum>, h: Merged, rest: Result)
    requires 0 < Distance(o, r) && !h.failed && Delivers(repo, delivered, h)
    requires Matches(repo, o, r) ==> r in h.delivered
    requires DeliveredFrom(repo, o, Next(o, r), h.delivered, rest)
    ensures DeliveredFrom(repo, o, r, delivered, rest.(entries := h.entries + rest.entries))
  {
    RevisionsJoin(h.entries, rest.entries);
    assert forall x :: Ahead(o, r, x) && x != r ==> Ahead(o, Next(o, r), x);
  }

  /** What is handed out from r on. */
  lemma {:induction false} LogDelivers(repo: Repository, o: Options, r: Revnum, count: nat, delivered: set<Revnum>)
    requires 0 <= Distance(o, r)
    ensures DeliveredFrom(repo, o, r, delivered, LogFrom(repo, o, r, count, delivered))
    decreases Distance(o, r)
  {
    if Exists(repo, r) {
      var h := Handle(repo, o, r, delivered);
      HandleDelivers(repo, o, r, delivered);
      if !h.failed && Distance(o, r) > 0 {
        var count' := if h.entries == [] then count else count + 1;
        LogDelivers(repo, o, Next(o, r), count', h.delivered);
        JoinDelivered(repo, o, r, delivered, h, LogFrom(repo, o, Next(o, r), count', h.delivered));
      }
    }
  }

  /** The whole log: no revision is handed out twice, only revisions that exist are handed out,
      and without a limit and an error none that is wanted is missed. */
  lemma {:induction false} LogOnce(repo: Repository, o: Options)
    ensures var result := LogFrom(repo, o, o.start, 0, {});
            && Once(result.entries)
            && (forall x :: x in Revisions(result.entries, |result.entries|) ==> Exists(repo, x))
            && (!result.failed && o.limit <= 0 ==> forall x :: Ahead(o, o.start, x) && Wanted(repo, o, x) ==>
                  x in Revisions(result.entries, |result.entries|))
  {
    LogDelivers(repo, o, o.start, 0, {});
    forall x
      ensures Matches(repo, o, x) <==> Wanted(repo, o, x)
    {
      MatchesIsWanted(repo, o, x);
    }
  }

  // ----- the forest that the handler sees -----

  /** A revision of the range that is wanted, with what it merged below it if that is asked for. */
  ghost predicate Logged(repo: Repository, o: Options, t: Tree, delivered: set<Revnum>) {
    && Exists(repo, t.revision) && Wanted(repo, o, t.revision) && !t.subtractive
    && if o.includeMerged then exists paths :: LoggedBelow(repo, o, t, paths, delivered) else t.children == []
  }

  ghost predicate LoggedBelow(repo: Repository, o: Options, t: Tree, paths: seq<Path>, delivered: set<Revnum>) {
    ArePlaces(o, t.revision, paths) && Shows(repo, Backward(o), Query(t.revision, paths), t.children, delivered)
  }

  ghost predicate AllLogged(repo: Repository, o: Options, forest: seq<Tree>, delivered: set<Revnum>) {
    forall i :: 0 <= i < |forest| ==> Logged(repo, o, forest[i], delivered)
  }

  lemma {:induction false} LoggedStays(repo: Repository, o: Options, t: Tree, few: set<Revnum>, more: set<Revnum>)
    requires Logged(repo, o, t, few) && few <= more
    ensures Logged(repo, o, t, more)
  {
    if o.includeMerged {
      var paths :| LoggedBelow(repo, o, t, paths, few);
      var changes := repo.merges[Query(t.revision, paths)];
      forall i | 0 <= i < |t.children|
        ensures Shown(repo, Backward(o), changes, t.children[i], more)
      {
        ShownStays(repo, Backward(o), changes, t.children[i], few, more);
      }
      assert LoggedBelow(repo, o, t, paths, more);
    }
  }

  lemma {:induction false} HandleForest(repo: Repository, o: Options, r: Revnum, delivered: set<Revnum>)
      returns (forest: seq<Tree>)
    requires Exists(repo, r)
    ensures var h := Handle(repo, o, r, delivered);
            !h.failed ==> IsForest(h.entries, forest) && |forest| <= 1
                          && (forest != [] ==> forest[0].revision == r)
                          && AllLogged(repo, o, forest, h.delivered)
  {
    MatchesIsWanted(repo, o, r);
    if r in delivered || !Matches(repo, o, r) {
      forest := [];
    } else if !o.includeMerged {
      forest := [Tree(r, false, [])];
      ParentForest(r, false, [], []);
      assert [LogEntry(r, false, false)] + [] == [LogEntry(r, false, false)];
    } else {
      var m := MergedEntries(repo, Backward(o), r, Filter(o, r), delivered + {r});
      var children := MergedForest(repo, Backward(o), r, Filter(o, r), delivered + {r});
      forest := [Tree(r, false, children)];
      if !m.failed {
        ParentForest(r, false, m.entries, children);
        assert LoggedBelow(repo, o, forest[0], Filter(o, r), m.delivered);
      }
    }
  }

  /** Strictly behind a revision in the direction of the log. */
  predicate Behind(o: Options, r: Revnum, x: Revnum) {
    if Backward(o) then x < r else x > r
  }

  /** Every wanted revision from r on has been delivered, unless the limit of roots was reached
      before it. */
  ghost predicate NoneMissed(repo: Repository, o: Options, r: Revnum, count: nat, forest: seq<Tree>, delivered: set<Revnum>) {
    forall x :: Ahead(o, r, x) && Wanted(repo, o, x) ==>
      || x in delivered
      || (0 < o.limit == count + |forest| && forest != [] && Behind(o, forest[|forest| - 1].revision, x))
  }

  /** The roots are wanted revisions of the range, in the direction of the log and no more than the
      limit; below them stands what they merged; and none is missed. */
  ghost predicate LogShown(repo: Repository, o: Options, r: Revnum, count: nat, delivered: set<Revnum>,
                           result: Result, forest: seq<Tree>)
  {
    var all := delivered + Revisions(result.entries, |result.entries|);
    && IsForest(result.entries, forest)
    && AllLogged(repo, o, forest, all)
    && (forall i :: 0 <= i < |forest| ==> Ahead(o, r, forest[i].revision))
    && InOrder(Backward(o), forest)
    && (0 < o.limit ==> count + |forest| <= o.limit)
    && (!result.failed ==> NoneMissed(repo, o, r, count, forest, all))
  }

  /** What one revision makes the handler see. */
  ghost predicate HandleShown(repo: Repository, o: Options, r: Revnum, delivered: set<Revnum>, h: Merged, first: seq<Tree>) {
    && !h.failed && Delivers(repo, delivered, h) && IsForest(h.entries, first) && |first| <= 1
    && (first != [] ==> first[0].revision == r)
    && AllLogged(repo, o, first, h.delivered)
    && (Wanted(repo, o, r) ==> r in h.delivered)
  }

  lemma {:induction false} LastRevision(repo: Repository, o: Options, r: Revnum, count: nat, delivered: set<Revnum>,
                                        h: Merged, first: seq<Tree>)
    requires HandleShown(repo, o, r, delivered, h, first)
    requires 0 <= Distance(o, r) && (o.limit <= 0 || count < o.limit)
    requires r == o.end || (h.entries != [] && 0 < o.limit <= count + 1)
    ensures LogShown(repo, o, r, count, delivered, Result(false, h.entries), first)
  {
    forall x | Ahead(o, r, x) && Wanted(repo, o, x) && x !in h.delivered
      ensures 0 < o.limit == count + |first| && first != [] && Behind(o, first[|first| - 1].revision, x)
    {
      assert x != r;
    }
  }

  lemma {:induction false} OneMoreRevision(repo: Repository, o: Options, r: Revnum, count: nat, delivered: set<Revnum>,
                                           h: Merged, first: seq<Tree>, later: Result, rest: seq<Tree>)
    requires HandleShown(repo, o, r, delivered, h, first) && 0 < Distance(o, r)
    requires LogShown(repo, o, Next(o, r), if h.entries == [] then count else count + 1, h.delivered, later, rest)
    ensures LogShown(repo, o, r, count, delivered, later.(entries := h.entries + later.entries), first + rest)
  {
    var all := h.delivered + Revisions(later.entries, |later.entries|);
    RevisionsJoin(h.entries, later.entries);
    assert all == delivered + Revisions(h.entries + later.entries, |h.entries + later.entries|);
    JoinForests(h.entries, first, later.entries, rest);
    JoinLogged(repo, o, first, rest, h.delivered, all);
    JoinRoots(o, r, first, rest);
    if !later.failed {
      JoinMissed(repo, o, r, count, first, rest, all);
    }
  }

  lemma {:induction false} JoinRoots(o: Options, r: Revnum, first: seq<Tree>, rest: seq<Tree>)
    requires 0 < Distance(o, r) && |first| <= 1 && (first != [] ==> first[0].revision == r)
    requires InOrder(Backward(o), rest) && forall i :: 0 <= i < |rest| ==> Ahead(o, Next(o, r), rest[i].revision)
    ensures InOrder(Backward(o), first + rest) && forall i :: 0 <= i < |first + rest| ==> Ahead(o, r, (first + rest)[i].revision)
  {
    assert forall i :: 0 <= i < |first + rest| ==> (first + rest)[i] == if i < |first| then first[i] else rest[i - |first|];
  }

  lemma {:induction false} JoinMissed(repo: Repository, o: Options, r: Revnum, count: nat, first: seq<Tree>, rest: seq<Tree>,
                                      all: set<Revnum>)
    requires 0 < Distance(o, r) && (Wanted(repo, o, r) ==> r in all)
    requires NoneMissed(repo, o, Next(o, r), count + |first|, rest, all)
    ensures NoneMissed(repo, o, r, count, first + rest, all)
  {
    forall x | Ahead(o, r, x) && Wanted(repo, o, x) && x !in all
      ensures 0 < o.limit == count + |first + rest| && rest != [] && Behind(o, (first + rest)[|first + rest| - 1].revision, x)
    {
      assert x != r && Ahead(o, Next(o, r), x);
    }
  }

  /** The handler sees a forest, parents first, each entry marked exactly when the entries it has
      merged follow it, and the forest shows what the log is asked for. */
  lemma {:induction false} LogForest(repo: Repository, o: Options, r: Revnum, count: nat, delivered: set<Revnum>)
      returns (forest: seq<Tree>)
    requires 0 <= Distance(o, r) && (o.limit <= 0 || count < o.limit)
    ensures LogShown(repo, o, r, count, delivered, LogFrom(repo, o, r, count, delivered), forest)
    decreases Distance(o, r)
  {
    forest := [];
    if Exists(repo, r) {
      var h := Handle(repo, o, r, delivered);
      if !h.failed {
        HandleDelivers(repo, o, r, delivered);
        MatchesIsWanted(repo, o, r);
        forest := HandleForest(repo, o, r, delivered);
        var count' := if h.entries == [] then count else count + 1;
        if (h.entries != [] && 0 < o.limit <= count') || r == o.end {
          LastRevision(repo, o, r, count, delivered, h, forest);
        } else {
          var rest := LogForest(repo, o, Next(o, r), count', h.delivered);
          OneMoreRevision(repo, o, r, count, delivered, h, forest, LogFrom(repo, o, Next(o, r), count', h.delivered), rest);
          forest := forest + rest;
        }
      }
    }
  }

  lemma {:induction false} JoinLogged(repo: Repository, o: Options, first: seq<Tree>, rest: seq<Tree>,
                                      few: set<Revnum>, more: set<Revnum>)
    requires AllLogged(repo, o, first, few) && AllLogged(repo, o, rest, more) && few <= more
    ensures AllLogged(repo, o, first + rest, more)
  {
    forall i | 0 <= i < |first|
      ensures Logged(repo, o, first[i], more)
    {
      LoggedStays(repo, o, first[i], few, more);
    }
  }
}
