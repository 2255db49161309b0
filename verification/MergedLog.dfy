/** The log with merged revisions (repos/repos.go): a recursion over mergeinfo that may be cyclic. */
module MergedLog {
  import opened Common
  import opened Paths
  import R = Rangelists

  type Revnum = int

  /** The revisions that a change adds to and deletes from the mergeinfo for one source. */
  datatype SourceChange = SourceChange(source: Path, added: seq<Revnum>, deleted: seq<Revnum>)

  datatype Query = Query(revision: Revnum, paths: seq<Path>)

  /** What the log reads: the youngest revision, the paths each revision changed, and the mergeinfo
      changes of a revision on some paths, in the order in which they are visited. */
  datatype Tables = Tables(youngest: Revnum, changed: imap<Revnum, set<Path>>, merges: imap<Query, seq<SourceChange>>)

  ghost predicate Total(t: Tables) {
    (forall r: Revnum :: r in t.changed) && forall q: Query :: q in t.merges
  }

  function NoPaths(r: Revnum): set<Path> { {} }

  function NoSources(q: Query): seq<SourceChange> { [] }

  ghost function NoChanges(): Tables {
    Tables(0, imap r: Revnum :: NoPaths(r), imap q: Query :: NoSources(q))
  }

  type Repository = t: Tables | Total(t) ghost witness NoChanges()

  datatype LogEntry = LogEntry(revision: Revnum, hasChildren: bool, subtractive: bool)

  /** A revision exists; opening any other is an error. */
  predicate Exists(repo: Repository, r: Revnum) {
    0 <= r <= repo.youngest
  }

  /** changesMatch: no filter, or a changed path at or below one of the filter's paths. */
  predicate ChangesMatch(changed: set<Path>, filter: seq<Path>) {
    filter == [] || exists c, i :: c in changed && 0 <= i < |filter| && filter[i] <= c
  }

  // ----- the revisions that a revision merges -----

  /** The first of the changes that mentions the revision decides whether it counts as taken back. */
  function Subtractive(changes: seq<SourceChange>, i: nat, r: Revnum): bool
    requires i <= |changes|
    decreases |changes| - i
  {
    if i == |changes| || r in changes[i].added then false
    else if r in changes[i].deleted then true
    else Subtractive(changes, i + 1, r)
  }

  /** The sources through which it was merged or taken back. */
  function SourcesOf(changes: seq<SourceChange>, n: nat, r: Revnum): seq<Path>
    requires n <= |changes|
  {
    if n == 0 then []
    else
      SourcesOf(changes, n - 1, r)
        + (if r in changes[n - 1].added then [changes[n - 1].source] else [])
        + (if r in changes[n - 1].deleted then [changes[n - 1].source] else [])
  }

  function Mentioned(changes: seq<SourceChange>, n: nat): seq<Revnum>
    requires n <= |changes|
  {
    if n == 0 then [] else Mentioned(changes, n - 1) + changes[n - 1].added + changes[n - 1].deleted
  }

  function Reversed(s: seq<Revnum>): (r: seq<Revnum>)
    ensures |r| == |s|
  {
    seq(|s|, i requires 0 <= i < |s| => s[|s| - 1 - i])
  }

  /** The revisions that the changes mention, each once, in the direction of the log. */
  function Candidates(changes: seq<SourceChange>, backward: bool): seq<Revnum> {
    var ascending := R.SortUnique(Mentioned(changes, |changes|));
    if backward then Reversed(ascending) else ascending
  }

  // ----- mergedLogEntries -----

  /** The entries of a call and the revisions delivered by then, or an error. */
  datatype Merged = Merged(failed: bool, entries: seq<LogEntry>, delivered: set<Revnum>)

  /** The revisions still to be delivered: the measure of the recursion. */
  function Remaining(repo: Repository, delivered: set<Revnum>): set<Revnum> {
    set r | 0 <= r <= repo.youngest && r !in delivered
  }

  /** The merged entries of a revision on some paths. */
  ghost function MergedEntries(repo: Repository, backward: bool, revision: Revnum, paths: seq<Path>,
                               delivered: set<Revnum>): (m: Merged)
    ensures delivered <= m.delivered
    decreases Remaining(repo, delivered), 1, 0
  {
    var changes := repo.merges[Query(revision, paths)];
    EntriesFrom(repo, backward, changes, Candidates(changes, backward), 0, delivered)
  }

  /** Those of one candidate: its own entry and behind it the entries it has merged. */
  ghost function EntriesOf(repo: Repository, backward: bool, changes: seq<SourceChange>, r: Revnum,
                           delivered: set<Revnum>): (m: Merged)
    ensures delivered <= m.delivered
    decreases Remaining(repo, delivered), 0, 0
  {
    var sources := SourcesOf(changes, |changes|, r);
    if r in delivered then Merged(false, [], delivered)
    else if !Exists(repo, r) then Merged(true, [], delivered)
    else if !ChangesMatch(repo.changed[r], sources) then Merged(false, [], delivered)
    else
      assert r in Remaining(repo, delivered) && r !in Remaining(repo, delivered + {r});
      var children := MergedEntries(repo, backward, r, sources, delivered + {r});
      if children.failed then children
      else children.(entries := [LogEntry(r, children.entries != [], Subtractive(changes, 0, r))] + children.entries)
  }

  /** Those of the candidates from i on. */
  ghost function EntriesFrom(repo: Repository, backward: bool, changes: seq<SourceChange>, candidates: seq<Revnum>,
                             i: nat, delivered: set<Revnum>): (m: Merged)
    requires i <= |candidates|
    ensures delivered <= m.delivered
    decreases Remaining(repo, delivered), 0, |candidates| - i
  {
    if i == |candidates| then Merged(false, [], delivered)
    else
      var one := EntriesOf(repo, backward, changes, candidates[i], delivered);
      if one.failed then one
      else
        assert Remaining(repo, one.delivered) <= Remaining(repo, delivered);
        Prefixed(one.entries, EntriesFrom(repo, backward, changes, candidates, i + 1, one.delivered))
  }

  /** A result with more entries in front of it. */
  function Prefixed(entries: seq<LogEntry>, m: Merged): Merged {
    if m.failed then m else m.(entries := entries + m.entries)
  }

  // ----- the loops -----

  /** mergedLogEntries; the method is handed the delivered revisions and hands them back. */
  method MergedLogEntries(repo: Repository, backward: bool, revision: Revnum, paths: seq<Path>, delivered: set<Revnum>)
      returns (m: Merged)
    ensures m == MergedEntries(repo, backward, revision, paths, delivered)
    decreases Remaining(repo, delivered), 1, 0
  {
    var changes := repo.merges[Query(revision, paths)];
    m := CollectEntries(repo, backward, changes, Candidates(changes, backward), delivered);
  }

  /** The body of the loop over the candidates. */
  method DeliverOne(repo: Repository, backward: bool, changes: seq<SourceChange>, r: Revnum, delivered: set<Revnum>)
      returns (m: Merged)
    ensures m == EntriesOf(repo, backward, changes, r, delivered)
    decreases Remaining(repo, delivered), 0, 0
  {
    if r in delivered {
      return Merged(false, [], delivered);
    }
    if !Exists(repo, r) {
      return Merged(true, [], delivered);
    }
    var sources := SourcesOf(changes, |changes|, r);
    if !ChangesMatch(repo.changed[r], sources) {
      return Merged(false, [], delivered);
    }
    assert r in Remaining(repo, delivered) && r !in Remaining(repo, delivered + {r});
    m := MergedLogEntries(repo, backward, r, sources, delivered + {r});
    if !m.failed {
      var entry := LogEntry(r, m.entries != [], Subtractive(changes, 0, r));
      m := m.(entries := [entry] + m.entries);
    }
  }

  method CollectEntries(repo: Repository, backward: bool, changes: seq<SourceChange>, candidates: seq<Revnum>,
                        delivered: set<Revnum>) returns (m: Merged)
    ensures m == EntriesFrom(repo, backward, changes, candidates, 0, delivered)
    decreases Remaining(repo, delivered), 0, |candidates|
  {
    var result: seq<LogEntry> := [];
    var now := delivered;
    var i := 0;
    ghost var whole := EntriesFrom(repo, backward, changes, candidates, 0, delivered);
    while i < |candidates|
      invariant i <= |candidates| && Remaining(repo, now) <= Remaining(repo, delivered)
      invariant Prefixed(result, EntriesFrom(repo, backward, changes, candidates, i, now)) == whole
    {
      var one := DeliverOne(repo, backward, changes, candidates[i], now);
      if one.failed {
        return one;
      }
      PrefixedMore(result, one.entries, EntriesFrom(repo, backward, changes, candidates, i + 1, one.delivered));
      assert Remaining(repo, one.delivered) <= Remaining(repo, now);
      result := result + one.entries;
      now := one.delivered;
      i := i + 1;
    }
    return Merged(false, result, now);
  }

  lemma {:induction false} PrefixedMore(a: seq<LogEntry>, b: seq<LogEntry>, m: Merged)
    ensures Prefixed(a, Prefixed(b, m)) == Prefixed(a + b, m)
  {
    assert a + (b + m.entries) == a + b + m.entries;
  }

  // ----- what is delivered -----

  /** The revisions of the first n entries. */
  function Revisions(entries: seq<LogEntry>, n: nat): set<Revnum>
    requires n <= |entries|
  {
    if n == 0 then {} else Revisions(entries, n - 1) + {entries[n - 1].revision}
  }

  ghost predicate Once(entries: seq<LogEntry>) {
    forall i, j :: 0 <= i < j < |entries| ==> entries[i].revision != entries[j].revision
  }

  lemma {:induction false} RevisionsAre(entries: seq<LogEntry>, n: nat)
    requires n <= |entries|
    ensures forall r :: r in Revisions(entries, n) <==> exists i :: 0 <= i < n && entries[i].revision == r
  {
    if n > 0 { RevisionsAre(entries, n - 1); }
  }

  lemma {:induction false} RevisionsJoin(a: seq<LogEntry>, b: seq<LogEntry>)
    ensures Revisions(a + b, |a| + |b|) == Revisions(a, |a|) + Revisions(b, |b|)
    ensures Once(a) && Once(b) && Revisions(a, |a|) !! Revisions(b, |b|) ==> Once(a + b)
  {
    RevisionsAre(a, |a|);
    RevisionsAre(b, |b|);
    RevisionsAre(a + b, |a| + |b|);
    forall r
      ensures r in Revisions(a + b, |a| + |b|) <==> r in Revisions(a, |a|) || r in Revisions(b, |b|)
    {
      if r in Revisions(b, |b|) {
        var i :| 0 <= i < |b| && b[i].revision == r;
        assert (a + b)[|a| + i].revision == r;
      }
      if r in Revisions(a, |a|) {
        var i :| 0 <= i < |a| && a[i].revision == r;
        assert (a + b)[i].revision == r;
      }
    }
    if Once(a) && Once(b) && Revisions(a, |a|) !! Revisions(b, |b|) {
      forall i, j | 0 <= i < j < |a + b|
        ensures (a + b)[i].revision != (a + b)[j].revision
      {
        if i < |a| <= j {
          assert a[i].revision in Revisions(a, |a|) && b[j - |a|].revision in Revisions(b, |b|);
        }
      }
    }
  }

  /** What a call delivers is new, delivered once, and remembered. */
  ghost predicate Delivers(repo: Repository, delivered: set<Revnum>, m: Merged) {
    !m.failed ==>
      && Once(m.entries) && Revisions(m.entries, |m.entries|) !! delivered
      && m.delivered == delivered + Revisions(m.entries, |m.entries|)
      && forall r :: r in Revisions(m.entries, |m.entries|) ==> Exists(repo, r)
  }

  lemma {:induction false} DeliversNothing(repo: Repository, delivered: set<Revnum>)
    ensures Delivers(repo, delivered, Merged(false, [], delivered))
  {
  }

  lemma {:induction false} DeliversBoth(repo: Repository, delivered: set<Revnum>, a: Merged, b: Merged)
    requires !a.failed && Delivers(repo, delivered, a) && Delivers(repo, a.delivered, b)
    ensures Delivers(repo, delivered, Prefixed(a.entries, b))
  {
    if !b.failed {
      RevisionsJoin(a.entries, b.entries);
    }
  }

  lemma {:induction false} DeliversParent(repo: Repository, delivered: set<Revnum>, entry: LogEntry, m: Merged)
    requires entry.revision !in delivered && Exists(repo, entry.revision)
    requires Delivers(repo, delivered + {entry.revision}, m)
    ensures Delivers(repo, delivered, if m.failed then m else m.(entries := [entry] + m.entries))
  {
    if !m.failed {
      assert Revisions([entry], 0) == {};
      assert Revisions([entry], 1) == {entry.revision};
      RevisionsJoin([entry], m.entries);
    }
  }

  /** Every call delivers new revisions only, each once, however the mergeinfo runs in circles. */
  lemma {:induction false} MergedDelivers(repo: Repository, backward: bool, revision: Revnum, paths: seq<Path>,
                                          delivered: set<Revnum>)
    ensures Delivers(repo, delivered, MergedEntries(repo, backward, revision, paths, delivered))
    decreases Remaining(repo, delivered), 1, 0
  {
    var changes := repo.merges[Query(revision, paths)];
    FromDelivers(repo, backward, changes, Candidates(changes, backward), 0, delivered);
  }

  lemma {:induction false} OneDelivers(repo: Repository, backward: bool, changes: seq<SourceChange>, r: Revnum,
                                       delivered: set<Revnum>)
    ensures Delivers(repo, delivered, EntriesOf(repo, backward, changes, r, delivered))
    decreases Remaining(repo, delivered), 0, 0
  {
    var sources := SourcesOf(changes, |changes|, r);
    if r in delivered || !Exists(repo, r) || !ChangesMatch(repo.changed[r], sources) {
      DeliversNothing(repo, delivered);
    } else {
      assert r in Remaining(repo, delivered) && r !in Remaining(repo, delivered + {r});
      MergedDelivers(repo, backward, r, sources, delivered + {r});
      var children := MergedEntries(repo, backward, r, sources, delivered + {r});
      DeliversParent(repo, delivered, LogEntry(r, children.entries != [], Subtractive(changes, 0, r)), children);
    }
  }

  lemma {:induction false} FromDelivers(repo: Repository, backward: bool, changes: seq<SourceChange>,
                                        candidates: seq<Revnum>, i: nat, delivered: set<Revnum>)
    requires i <= |candidates|
    ensures Delivers(repo, delivered, EntriesFrom(repo, backward, changes, candidates, i, delivered))
    decreases Remaining(repo, delivered), 0, |candidates| - i
  {
    if i == |candidates| {
      DeliversNothing(repo, delivered);
    } else {
      var one := EntriesOf(repo, backward, changes, candidates[i], delivered);
      OneDelivers(repo, backward, changes, candidates[i], delivered);
      if !one.failed {
        assert Remaining(repo, one.delivered) <= Remaining(repo, delivered);
        FromDelivers(repo, backward, changes, candidates, i + 1, one.delivered);
        DeliversBoth(repo, delivered, one, EntriesFrom(repo, backward, changes, candidates, i + 1, one.delivered));
      }
    }
  }
}
