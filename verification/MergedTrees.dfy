/** Which revisions a log shows as merged, and where (repos/repos.go): the entries form a forest, and
    the forest is the one that the mergeinfo changes call for. */
module MergedTrees {
  import opened Common
  import opened Paths
  import opened MergedLog
  import R = Rangelists

  // ----- parents before children -----

  /** An entry with the entries merged by it. */
  datatype Tree = Tree(revision: Revnum, subtractive: bool, children: seq<Tree>)

  /** The entry of every tree is marked exactly when children follow, and they follow behind it. */
  function Flat(t: Tree): seq<LogEntry>
    decreases t, 1, 0
  {
    [LogEntry(t.revision, t.children != [], t.subtractive)] + FlatChildren(t, |t.children|)
  }

  function FlatChildren(t: Tree, n: nat): seq<LogEntry>
    requires n <= |t.children|
    decreases t, 0, n
  {
    if n == 0 then [] else FlatChildren(t, n - 1) + Flat(t.children[n - 1])
  }

  function FlatForest(forest: seq<Tree>, n: nat): seq<LogEntry>
    requires n <= |forest|
  {
    if n == 0 then [] else FlatForest(forest, n - 1) + Flat(forest[n - 1])
  }

  ghost predicate IsForest(entries: seq<LogEntry>, forest: seq<Tree>) {
    FlatForest(forest, |forest|) == entries && (entries == [] <==> forest == [])
  }

  lemma {:induction false} ForestPrefix(a: seq<Tree>, b: seq<Tree>, n: nat)
    requires n <= |a| && n <= |b| && forall i :: 0 <= i < n ==> a[i] == b[i]
    ensures FlatForest(a, n) == FlatForest(b, n)
  {
    if n > 0 { ForestPrefix(a, b, n - 1); }
  }

  lemma {:induction false} ForestJoin(a: seq<Tree>, b: seq<Tree>, n: nat)
    requires n <= |b|
    ensures FlatForest(a + b, |a| + n) == FlatForest(a, |a|) + FlatForest(b, n)
  {
    if n == 0 {
      ForestPrefix(a, a + b, |a|);
      assert FlatForest(a, |a|) + [] == FlatForest(a, |a|);
    } else {
      ForestJoin(a, b, n - 1);
      assert (a + b)[|a| + n - 1] == b[n - 1];
      assert FlatForest(a, |a|) + (FlatForest(b, n - 1) + Flat(b[n - 1])) ==
             FlatForest(a, |a|) + FlatForest(b, n - 1) + Flat(b[n - 1]);
    }
  }

  lemma {:induction false} ChildrenAreForest(t: Tree, n: nat)
    requires n <= |t.children|
    ensures FlatChildren(t, n) == FlatForest(t.children, n)
  {
    if n > 0 { ChildrenAreForest(t, n - 1); }
  }

  lemma {:induction false} JoinForests(a: seq<LogEntry>, f: seq<Tree>, b: seq<LogEntry>, g: seq<Tree>)
    requires IsForest(a, f) && IsForest(b, g)
    ensures IsForest(a + b, f + g)
  {
    ForestJoin(f, g, |g|);
  }

  lemma {:induction false} ParentForest(r: Revnum, subtractive: bool, entries: seq<LogEntry>, forest: seq<Tree>)
    requires IsForest(entries, forest)
    ensures IsForest([LogEntry(r, entries != [], subtractive)] + entries, [Tree(r, subtractive, forest)])
  {
    var t := Tree(r, subtractive, forest);
    ChildrenAreForest(t, |forest|);
    assert FlatForest([t], 0) == [];
    assert FlatForest([t], 1) == [] + Flat(t);
  }

  // ----- which revisions are shown -----

  predicate Mentions(change: SourceChange, r: Revnum) {
    r in change.added || r in change.deleted
  }

  ghost predicate MentionedAt(changes: seq<SourceChange>, i: int, r: Revnum) {
    0 <= i < |changes| && Mentions(changes[i], r)
  }

  /** The revision changed a path at or below the source of this change, which mentions it. */
  ghost predicate TouchesAt(repo: Repository, changes: seq<SourceChange>, i: int, r: Revnum) {
    MentionedAt(changes, i, r) && exists c :: c in repo.changed[r] && changes[i].source <= c
  }

  /** The changes call for this revision: they mention it, and it touched a source that does. */
  ghost predicate CalledFor(repo: Repository, changes: seq<SourceChange>, r: Revnum) {
    Exists(repo, r) && exists i :: TouchesAt(repo, changes, i, r)
  }

  /** The first change that mentions the revision only deletes it. */
  ghost predicate TakenBack(changes: seq<SourceChange>, r: Revnum) {
    exists i :: MentionedAt(changes, i, r) && r !in changes[i].added && forall j :: 0 <= j < i ==> !MentionedAt(changes, j, r)
  }

  /** The paths are the sources of the changes that mention the revision. */
  ghost predicate AreSources(changes: seq<SourceChange>, r: Revnum, paths: seq<Path>) {
    forall p :: p in paths <==> exists i :: MentionedAt(changes, i, r) && changes[i].source == p
  }

  ghost predicate InOrder(backward: bool, forest: seq<Tree>) {
    forall i, j :: 0 <= i < j < |forest| ==>
      if backward then forest[i].revision > forest[j].revision else forest[i].revision < forest[j].revision
  }

  /** Everything that the mergeinfo changes of the query call for has been delivered. */
  ghost predicate Complete(repo: Repository, q: Query, delivered: set<Revnum>) {
    forall r :: CalledFor(repo, repo.merges[q], r) ==> r in delivered
  }

  /** The tree stands for a revision that the changes call for; below it stand, in the direction of the
      log, revisions that its own changes to the mergeinfo of those sources call for, and none of
      them is missing. */
  ghost predicate Shown(repo: Repository, backward: bool, changes: seq<SourceChange>, t: Tree, delivered: set<Revnum>)
    decreases t
  {
    && CalledFor(repo, changes, t.revision) && t.revision in delivered
    && (t.subtractive <==> TakenBack(changes, t.revision))
    && InOrder(backward, t.children)
    && exists paths :: ShownBelow(repo, backward, changes, t, paths, delivered)
  }

  ghost predicate ShownBelow(repo: Repository, backward: bool, changes: seq<SourceChange>, t: Tree, paths: seq<Path>,
                             delivered: set<Revnum>)
    decreases t, 0
  {
    && AreSources(changes, t.revision, paths)
    && Complete(repo, Query(t.revision, paths), delivered)
    && forall i :: 0 <= i < |t.children| ==> Shown(repo, backward, repo.merges[Query(t.revision, paths)], t.children[i], delivered)
  }

  ghost predicate AllShown(repo: Repository, backward: bool, changes: seq<SourceChange>, forest: seq<Tree>, delivered: set<Revnum>) {
    forall i :: 0 <= i < |forest| ==> Shown(repo, backward, changes, forest[i], delivered)
  }

  /** The forest shows what the mergeinfo changes of the query call for. */
  ghost predicate Shows(repo: Repository, backward: bool, q: Query, forest: seq<Tree>, delivered: set<Revnum>) {
    Complete(repo, q, delivered) && InOrder(backward, forest) && AllShown(repo, backward, repo.merges[q], forest, delivered)
  }

  // ----- the same in the terms of the recursion -----

  lemma {:induction false} SourcesAre(changes: seq<SourceChange>, n: nat, r: Revnum)
    requires n <= |changes|
    ensures forall p :: p in SourcesOf(changes, n, r) <==> exists i :: 0 <= i < n && Mentions(changes[i], r) && changes[i].source == p
  {
    if n > 0 { SourcesAre(changes, n - 1, r); }
  }

  lemma {:induction false} SourcesAreSources(changes: seq<SourceChange>, r: Revnum)
    ensures AreSources(changes, r, SourcesOf(changes, |changes|, r))
  {
    SourcesAre(changes, |changes|, r);
    forall p
      ensures p in SourcesOf(changes, |changes|, r) <==> exists i :: MentionedAt(changes, i, r) && changes[i].source == p
    {
      if p in SourcesOf(changes, |changes|, r) {
        var i :| 0 <= i < |changes| && Mentions(changes[i], r) && changes[i].source == p;
        assert MentionedAt(changes, i, r);
      }
    }
  }

  lemma {:induction false} MentionedAre(changes: seq<SourceChange>, n: nat)
    requires n <= |changes|
    ensures forall r :: r in Mentioned(changes, n) <==> exists i :: 0 <= i < n && Mentions(changes[i], r)
  {
    if n > 0 { MentionedAre(changes, n - 1); }
  }

  lemma {:induction false} SubtractiveIs(changes: seq<SourceChange>, i: nat, r: Revnum)
    requires i <= |changes| && forall j :: 0 <= j < i ==> !MentionedAt(changes, j, r)
    ensures Subtractive(changes, i, r) <==> TakenBack(changes, r)
    decreases |changes| - i
  {
    if i < |changes| && !Mentions(changes[i], r) {
      SubtractiveIs(changes, i + 1, r);
    } else if i < |changes| {
      assert MentionedAt(changes, i, r);
    }
  }

  /** The candidates are the mentioned revisions, each once, in the direction of the log. */
  ghost predicate Listed(backward: bool, changes: seq<SourceChange>, candidates: seq<Revnum>) {
    && (forall r :: r in candidates <==> exists i :: MentionedAt(changes, i, r))
    && forall i, j :: 0 <= i < j < |candidates| ==>
         if backward then candidates[i] > candidates[j] else candidates[i] < candidates[j]
  }

  lemma {:induction false} ReversedHas(s: seq<Revnum>, r: Revnum)
    ensures r in Reversed(s) <==> r in s
  {
    if r in s {
      var i :| 0 <= i < |s| && s[i] == r;
      assert Reversed(s)[|s| - 1 - i] == r;
    }
  }

  lemma {:induction false} MentionedSomewhere(changes: seq<SourceChange>, r: Revnum)
    ensures r in Mentioned(changes, |changes|) <==> exists i :: MentionedAt(changes, i, r)
  {
    MentionedAre(changes, |changes|);
    if exists i :: MentionedAt(changes, i, r) {
      var i :| MentionedAt(changes, i, r);
      assert Mentions(changes[i], r);
    }
    if r in Mentioned(changes, |changes|) {
      var i :| 0 <= i < |changes| && Mentions(changes[i], r);
      assert MentionedAt(changes, i, r);
    }
  }

  lemma {:induction false} CandidatesAreListed(changes: seq<SourceChange>, backward: bool)
    ensures Listed(backward, changes, Candidates(changes, backward))
  {
    var ascending := R.SortUnique(Mentioned(changes, |changes|));
    forall r
      ensures r in Candidates(changes, backward) <==> exists i :: MentionedAt(changes, i, r)
    {
      ReversedHas(ascending, r);
      MentionedSomewhere(changes, r);
    }
  }

  /** A mentioned revision that exists matches its sources exactly when it is called for. */
  lemma {:induction false} MatchIsCall(repo: Repository, changes: seq<SourceChange>, r: Revnum)
    requires Exists(repo, r) && exists i :: MentionedAt(changes, i, r)
    ensures ChangesMatch(repo.changed[r], SourcesOf(changes, |changes|, r)) <==> CalledFor(repo, changes, r)
  {
    var sources := SourcesOf(changes, |changes|, r);
    SourcesAreSources(changes, r);
    var m :| MentionedAt(changes, m, r);
    assert changes[m].source in sources;
    if CalledFor(repo, changes, r) {
      var i :| TouchesAt(repo, changes, i, r);
      assert changes[i].source in sources;
    }
    if ChangesMatch(repo.changed[r], sources) {
      var c, k :| c in repo.changed[r] && 0 <= k < |sources| && sources[k] <= c;
      assert sources[k] in sources;
      var i :| MentionedAt(changes, i, r) && changes[i].source == sources[k];
      assert TouchesAt(repo, changes, i, r);
    }
  }

  /** What has been shown stays shown when more is delivered. */
  lemma {:induction false} ShownStays(repo: Repository, backward: bool, changes: seq<SourceChange>, t: Tree,
                                      few: set<Revnum>, more: set<Revnum>)
    requires Shown(repo, backward, changes, t, few) && few <= more
    ensures Shown(repo, backward, changes, t, more)
    decreases t
  {
    var paths :| ShownBelow(repo, backward, changes, t, paths, few);
    forall i | 0 <= i < |t.children|
      ensures Shown(repo, backward, repo.merges[Query(t.revision, paths)], t.children[i], more)
    {
      ShownStays(repo, backward, repo.merges[Query(t.revision, paths)], t.children[i], few, more);
    }
    assert ShownBelow(repo, backward, changes, t, paths, more);
  }

  // ----- the entries of a call -----

  /** The entries of a call are a forest written parents first, each marked exactly when children
      follow it; it shows what the mergeinfo changes call for, at every level, and nothing else. */
  lemma {:induction false} MergedForest(repo: Repository, backward: bool, revision: Revnum, paths: seq<Path>,
                                        delivered: set<Revnum>) returns (forest: seq<Tree>)
    ensures var m := MergedEntries(repo, backward, revision, paths, delivered);
            !m.failed ==> IsForest(m.entries, forest) && Shows(repo, backward, Query(revision, paths), forest, m.delivered)
    decreases Remaining(repo, delivered), 1, 0
  {
    var changes := repo.merges[Query(revision, paths)];
    var candidates := Candidates(changes, backward);
    CandidatesAreListed(changes, backward);
    forest := FromForest(repo, backward, changes, candidates, 0, delivered);
    var m := EntriesFrom(repo, backward, changes, candidates, 0, delivered);
    if !m.failed {
      forall r | CalledFor(repo, changes, r)
        ensures r in m.delivered
      {
        var i :| TouchesAt(repo, changes, i, r);
        assert MentionedAt(changes, i, r);
        assert r in candidates;
      }
    }
  }

  lemma {:induction false} OneForest(repo: Repository, backward: bool, changes: seq<SourceChange>, r: Revnum,
                                     delivered: set<Revnum>) returns (forest: seq<Tree>)
    requires exists i :: MentionedAt(changes, i, r)
    ensures var m := EntriesOf(repo, backward, changes, r, delivered);
            !m.failed ==>
              && IsForest(m.entries, forest) && AllShown(repo, backward, changes, forest, m.delivered)
              && |forest| <= 1 && (forest != [] ==> forest[0].revision == r)
              && (CalledFor(repo, changes, r) ==> r in m.delivered)
    decreases Remaining(repo, delivered), 0, 0
  {
    var sources := SourcesOf(changes, |changes|, r);
    if Exists(repo, r) { MatchIsCall(repo, changes, r); }
    if r in delivered || !Exists(repo, r) || !ChangesMatch(repo.changed[r], sources) {
      forest := [];
    } else {
      assert r in Remaining(repo, delivered) && r !in Remaining(repo, delivered + {r});
      var children := MergedForest(repo, backward, r, sources, delivered + {r});
      var m := MergedEntries(repo, backward, r, sources, delivered + {r});
      var t := Tree(r, Subtractive(changes, 0, r), children);
      forest := [t];
      if !m.failed {
        ParentForest(r, Subtractive(changes, 0, r), m.entries, children);
        SubtractiveIs(changes, 0, r);
        SourcesAreSources(changes, r);
        assert ShownBelow(repo, backward, changes, t, sources, m.delivered);
        assert Shown(repo, backward, changes, t, m.delivered);
      }
    }
  }

  ghost predicate CandidateAt(candidates: seq<Revnum>, i: int, j: int, r: Revnum) {
    0 <= i <= j < |candidates| && candidates[j] == r
  }

  /** The roots of the forest are candidates from i on. */
  ghost predicate RootsFrom(forest: seq<Tree>, candidates: seq<Revnum>, i: int) {
    forall k :: 0 <= k < |forest| ==> RootAt(forest, candidates, i, k)
  }

  ghost predicate RootAt(forest: seq<Tree>, candidates: seq<Revnum>, i: int, k: int)
    requires 0 <= k < |forest|
  {
    exists j :: CandidateAt(candidates, i, j, forest[k].revision)
  }

  lemma {:induction false} FromForest(repo: Repository, backward: bool, changes: seq<SourceChange>,
                                      candidates: seq<Revnum>, i: nat, delivered: set<Revnum>) returns (forest: seq<Tree>)
    requires i <= |candidates| && Listed(backward, changes, candidates)
    ensures var m := EntriesFrom(repo, backward, changes, candidates, i, delivered);
            !m.failed ==>
              && IsForest(m.entries, forest) && AllShown(repo, backward, changes, forest, m.delivered)
              && InOrder(backward, forest) && RootsFrom(forest, candidates, i)
              && forall j :: i <= j < |candidates| && CalledFor(repo, changes, candidates[j]) ==> candidates[j] in m.delivered
    decreases Remaining(repo, delivered), 0, |candidates| - i
  {
    if i == |candidates| {
      forest := [];
    } else {
      var one := EntriesOf(repo, backward, changes, candidates[i], delivered);
      assert candidates[i] in candidates;
      var first := OneForest(repo, backward, changes, candidates[i], delivered);
      forest := first;
      if !one.failed {
        assert Remaining(repo, one.delivered) <= Remaining(repo, delivered);
        var rest := FromForest(repo, backward, changes, candidates, i + 1, one.delivered);
        var m := EntriesFrom(repo, backward, changes, candidates, i + 1, one.delivered);
        if !m.failed {
          JoinForests(one.entries, first, m.entries, rest);
          forest := first + rest;
          JoinShown(repo, backward, changes, candidates, i, first, rest, one.delivered, m.delivered);
        }
      }
    }
  }

  lemma {:induction false} JoinShown(repo: Repository, backward: bool, changes: seq<SourceChange>, candidates: seq<Revnum>,
                                     i: nat, first: seq<Tree>, rest: seq<Tree>, few: set<Revnum>, more: set<Revnum>)
    requires i < |candidates| && Listed(backward, changes, candidates) && few <= more
    requires |first| <= 1 && (first != [] ==> first[0].revision == candidates[i])
    requires AllShown(repo, backward, changes, first, few) && AllShown(repo, backward, changes, rest, more)
    requires InOrder(backward, rest) && RootsFrom(rest, candidates, i + 1)
    ensures AllShown(repo, backward, changes, first + rest, more)
    ensures InOrder(backward, first + rest) && RootsFrom(first + rest, candidates, i)
  {
    var forest := first + rest;
    if first != [] { ShownStays(repo, backward, changes, first[0], few, more); }
    forall k | 0 <= k < |rest|
      ensures Shown(repo, backward, changes, rest[k], more)
      ensures RootAt(rest, candidates, i, k)
      ensures if backward then candidates[i] > rest[k].revision else candidates[i] < rest[k].revision
    {
      assert RootAt(rest, candidates, i + 1, k);
      var j :| CandidateAt(candidates, i + 1, j, rest[k].revision);
      assert CandidateAt(candidates, i, j, rest[k].revision);
    }
    assert CandidateAt(candidates, i, i, candidates[i]);
    forall k | 0 <= k < |forest|
      ensures Shown(repo, backward, changes, forest[k], more)
      ensures RootAt(forest, candidates, i, k)
    {
      if k < |first| {
        assert CandidateAt(candidates, i, i, forest[k].revision);
      } else {
        assert forest[k] == rest[k - |first|] && RootAt(rest, candidates, i, k - |first|);
      }
    }
  }
}
