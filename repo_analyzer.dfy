/**
 * domain/repo/analyzer.go: the per-repository fold over the enriched events (`indexRepos`) and the
 * heap-based top-N selection over its result (`GetTopRepos`).
 */
module RepoAnalyzer {
  import opened Wrappers
  import opened Collections
  import opened Comparators
  import Entities
  import opened Service
  import opened Repos

  // ----- What the fold computes, for the events visited in `order` -----

  /** The repository of the event stored under `k`, if it resolved and has identifier `rid`. */
  ghost function RepoIf(events: map<string, EnrichedEvent>, k: string, rid: string): Option<Entities.Repo>
  {
    if k in events && events[k].repo.Some? && events[k].repo.value.id == rid then events[k].repo
    else None
  }

  /** The repository of the first visited event resolved to `rid`: the one the aggregate is made from. */
  ghost function FirstRepo(events: map<string, EnrichedEvent>, order: seq<string>, rid: string): Option<Entities.Repo>
  {
    if order == [] then None
    else
      var earlier := FirstRepo(events, order[..|order| - 1], rid);
      if earlier.Some? then earlier else RepoIf(events, order[|order| - 1], rid)
  }

  /** The identifiers of the resolved repositories of the visited events. */
  ghost function RepoIdsIn(events: map<string, EnrichedEvent>, order: seq<string>): set<string>
  {
    set k | k in order && k in events && events[k].repo.Some? :: events[k].repo.value.id
  }

  /** The identifiers of the resolved repositories of all events. */
  ghost function RepoIds(events: map<string, EnrichedEvent>): set<string>
  {
    set k | k in events && events[k].repo.Some? :: events[k].repo.value.id
  }

  /** The commits of the event under `k`, if it is resolved to `rid`. */
  ghost function CommitsTo(events: map<string, EnrichedEvent>, rid: string): string -> nat
  {
    k => if RepoIf(events, k, rid).Some? then |events[k].commits| else 0
  }

  /** 1 if the event under `k` is resolved to `rid` and has type `t`. */
  ghost function EventsOfTypeTo(events: map<string, EnrichedEvent>, rid: string, t: string): string -> nat
  {
    k => if RepoIf(events, k, rid).Some? && events[k].eventType == t then 1 else 0
  }

  /** `counts` holds, for each event type, the number of visited events of that type resolved
      to `rid`, and no entry for a type with none. */
  ghost predicate TypeCountsMatch(events: map<string, EnrichedEvent>, order: seq<string>, rid: string,
                                  counts: map<string, int>)
  {
    forall t :: (t in counts <==> SumBy(order, EventsOfTypeTo(events, rid, t)) > 0)
             && (t in counts ==> counts[t] == SumBy(order, EventsOfTypeTo(events, rid, t)))
  }

  /** `a` is the aggregate of the visited events resolved to `rid`. */
  ghost predicate AggregatesFor(events: map<string, EnrichedEvent>, order: seq<string>, rid: string, a: Repo)
  {
    // identity and name come from the first event resolved to the repository
    && a.id == rid
    && FirstRepo(events, order, rid) == Some(Entities.Repo(rid, a.name))
    // commits summed over the repository's events
    && a.commitCount == SumBy(order, CommitsTo(events, rid))
    && TypeCountsMatch(events, order, rid, a.eventTypeCount)
  }

  /** `repoMap` is what indexRepos builds from the events visited in `order`: an aggregate exactly
      for each repository identifier seen (events without a repository add nothing), each one aggregating
      that repository's events. */
  ghost predicate IsRepoIndex(events: map<string, EnrichedEvent>, order: seq<string>, repoMap: map<string, Repo>)
  {
    && repoMap.Keys == RepoIdsIn(events, order)
    && forall rid :: rid in repoMap ==> AggregatesFor(events, order, rid, repoMap[rid])
  }

  /** indexRepos, visiting the events in `order`. */
  method IndexRepos(events: map<string, EnrichedEvent>, order: seq<string>) returns (repoMap: map<string, Repo>)
    requires IsIterationOrder(order, events.Keys)
    ensures IsRepoIndex(events, order, repoMap)
    ensures repoMap.Keys == RepoIds(events)
    ensures forall rid, t :: rid in repoMap && t in repoMap[rid].eventTypeCount ==> repoMap[rid].eventTypeCount[t] >= 1
  {
    IterationOrderMembers(order, events.Keys);
    repoMap := map[];
    for i := 0 to |order|
      invariant IsRepoIndex(events, order[..i], repoMap)
    {
      var event := events[order[i]];
      if event.repo.None? {
        RepoIndexSkip(events, order, i, repoMap);
      } else {
        var resolved := event.repo.value;
        var repo := if resolved.id in repoMap then repoMap[resolved.id] else Repo(resolved.id, resolved.name, 0, map[]);
        var updated := repo.(commitCount := repo.commitCount + |event.commits|,
                             eventTypeCount := repo.eventTypeCount[event.eventType := CountOf(repo.eventTypeCount, event.eventType) + 1]);
        RepoIndexVisit(events, order, i, repoMap, repo, updated);
        repoMap := repoMap[resolved.id := updated];
      }
    }
    RepoIndexComplete(events, order, repoMap);
  }

  /** An event without a resolved repository leaves the index as it is. */
  lemma RepoIndexSkip(events: map<string, EnrichedEvent>, order: seq<string>, i: nat, repoMap: map<string, Repo>)
    requires i < |order| && order[i] in events && events[order[i]].repo.None?
    requires IsRepoIndex(events, order[..i], repoMap)
    ensures IsRepoIndex(events, order[..i + 1], repoMap)
  {
    RepoIdsInStep(events, order, i);
    VisitOtherRepos(events, order, i, repoMap);
  }

  /** Visiting an event not resolved to `rid` leaves `rid`'s aggregate as it is. */
  lemma VisitOtherRepo(events: map<string, EnrichedEvent>, order: seq<string>, i: nat, rid: string, a: Repo)
    requires i < |order| && RepoIf(events, order[i], rid).None?
    requires AggregatesFor(events, order[..i], rid, a)
    ensures AggregatesFor(events, order[..i + 1], rid, a)
  {
    assert order[..i + 1][..i] == order[..i];
    SumByStep(order, i, CommitsTo(events, rid));
    forall t
      ensures SumBy(order[..i + 1], EventsOfTypeTo(events, rid, t)) == SumBy(order[..i], EventsOfTypeTo(events, rid, t))
    {
      SumByStep(order, i, EventsOfTypeTo(events, rid, t));
    }
  }

  /** Visiting an event resolved to `rid` adds its commits and one occurrence of its type. */
  lemma VisitSameRepo(events: map<string, EnrichedEvent>, order: seq<string>, i: nat, rid: string,
                       a: Repo, updated: Repo)
    requires i < |order| && RepoIf(events, order[i], rid).Some?
    requires AggregatesFor(events, order[..i], rid, a)
             || (rid !in RepoIdsIn(events, order[..i]) && a == Repo(rid, events[order[i]].repo.value.name, 0, map[]))
    requires var e := events[order[i]];
             updated == a.(commitCount := a.commitCount + |e.commits|,
                           eventTypeCount := a.eventTypeCount[e.eventType := CountOf(a.eventTypeCount, e.eventType) + 1])
    ensures AggregatesFor(events, order[..i + 1], rid, updated)
  {
    var e := events[order[i]];
    assert order[..i + 1][..i] == order[..i];
    if !AggregatesFor(events, order[..i], rid, a) {
      FirstRepoNone(events, order[..i], rid);
    }
    SumByStep(order, i, CommitsTo(events, rid));
    forall t
      ensures SumBy(order[..i + 1], EventsOfTypeTo(events, rid, t))
           == SumBy(order[..i], EventsOfTypeTo(events, rid, t)) + (if t == e.eventType then 1 else 0)
    {
      SumByStep(order, i, EventsOfTypeTo(events, rid, t));
    }
  }

  /** An event with a resolved repository adds its commits and one occurrence of its type to that
      repository's aggregate, `repo` being the aggregate found or freshly made. */
  lemma RepoIndexVisit(events: map<string, EnrichedEvent>, order: seq<string>, i: nat,
                       repoMap: map<string, Repo>, repo: Repo, updated: Repo)
    requires i < |order| && order[i] in events && events[order[i]].repo.Some?
    requires IsRepoIndex(events, order[..i], repoMap)
    requires var a := events[order[i]].repo.value;
             repo == if a.id in repoMap then repoMap[a.id] else Repo(a.id, a.name, 0, map[])
    requires var e := events[order[i]];
             updated == repo.(commitCount := repo.commitCount + |e.commits|,
                              eventTypeCount := repo.eventTypeCount[e.eventType := CountOf(repo.eventTypeCount, e.eventType) + 1])
    ensures IsRepoIndex(events, order[..i + 1], repoMap[events[order[i]].repo.value.id := updated])
  {
    var vid := events[order[i]].repo.value.id;
    RepoIdsInStep(events, order, i);
    if vid in repoMap {
      assert AggregatesFor(events, order[..i], vid, repo);
    } else {
      assert vid !in RepoIdsIn(events, order[..i]);
    }
    VisitSameRepo(events, order, i, vid, repo, updated);
    VisitOtherRepos(events, order, i, repoMap);
    IndexExtend(events, order[..i + 1], repoMap, vid, updated);
  }

  /** Replacing one repository's aggregate by its new value keeps an index exact. */
  lemma IndexExtend(events: map<string, EnrichedEvent>, visited: seq<string>, repoMap: map<string, Repo>,
                    vid: string, updated: Repo)
    requires repoMap.Keys + {vid} == RepoIdsIn(events, visited)
    requires AggregatesFor(events, visited, vid, updated)
    requires forall rid :: rid in repoMap && rid != vid ==> AggregatesFor(events, visited, rid, repoMap[rid])
    ensures IsRepoIndex(events, visited, repoMap[vid := updated])
  {
  }

  /** The aggregates of the repositories the visited event is not resolved to stay as they are. */
  lemma VisitOtherRepos(events: map<string, EnrichedEvent>, order: seq<string>, i: nat, repoMap: map<string, Repo>)
    requires i < |order|
    requires IsRepoIndex(events, order[..i], repoMap)
    ensures forall rid :: rid in repoMap && RepoIf(events, order[i], rid).None? ==>
              AggregatesFor(events, order[..i + 1], rid, repoMap[rid])
  {
    forall rid | rid in repoMap && RepoIf(events, order[i], rid).None?
      ensures AggregatesFor(events, order[..i + 1], rid, repoMap[rid])
    {
      VisitOtherRepo(events, order, i, rid, repoMap[rid]);
    }
  }

  /** Visiting one more event adds its repository's identifier, if it has one. */
  lemma RepoIdsInStep(events: map<string, EnrichedEvent>, order: seq<string>, i: nat)
    requires i < |order| && order[i] in events
    ensures var e := events[order[i]];
            RepoIdsIn(events, order[..i + 1])
            == RepoIdsIn(events, order[..i]) + (if e.repo.Some? then {e.repo.value.id} else {})
  {
    assert order[..i + 1] == order[..i] + [order[i]];
  }

  /** No visited event is resolved to an identifier the index does not know yet. */
  lemma {:induction false} FirstRepoNone(events: map<string, EnrichedEvent>, order: seq<string>, rid: string)
    requires rid !in RepoIdsIn(events, order)
    ensures FirstRepo(events, order, rid) == None
    ensures SumBy(order, CommitsTo(events, rid)) == 0
    ensures forall t :: SumBy(order, EventsOfTypeTo(events, rid, t)) == 0
  {
    if order != [] {
      var rest := order[..|order| - 1];
      assert RepoIdsIn(events, rest) <= RepoIdsIn(events, order);
      FirstRepoNone(events, rest, rid);
    }
  }

  /** Once every event is visited, the index holds an aggregate for every resolved repository. */
  lemma RepoIndexComplete(events: map<string, EnrichedEvent>, order: seq<string>, repoMap: map<string, Repo>)
    requires IsIterationOrder(order, events.Keys)
    requires IsRepoIndex(events, order[..|order|], repoMap)
    ensures IsRepoIndex(events, order, repoMap)
    ensures repoMap.Keys == RepoIds(events)
    ensures forall rid, t :: rid in repoMap && t in repoMap[rid].eventTypeCount ==> repoMap[rid].eventTypeCount[t] >= 1
  {
    assert order[..|order|] == order;
    RepoIdsOfIterationOrder(events, order);
  }

  lemma RepoIdsOfIterationOrder(events: map<string, EnrichedEvent>, order: seq<string>)
    requires IsIterationOrder(order, events.Keys)
    ensures RepoIdsIn(events, order) == RepoIds(events)
  {
    forall k | k in events
      ensures k in order
    {
      assert k in (set k | k in order);
    }
  }

  // ----- Whole-table totals -----

  /** The commit count of the aggregate under `rid`, 0 for an identifier without one. */
  ghost function CommitCountOf(repoMap: map<string, Repo>): string -> nat
  {
    rid => if rid in repoMap && repoMap[rid].commitCount >= 0 then repoMap[rid].commitCount as nat else 0
  }

  /** The count of type `t` in the aggregate under `rid`, 0 for an identifier without one. */
  ghost function TypeCountOf(repoMap: map<string, Repo>, t: string): string -> nat
  {
    rid => if rid in repoMap && CountOf(repoMap[rid].eventTypeCount, t) >= 0
           then CountOf(repoMap[rid].eventTypeCount, t) as nat else 0
  }

  /** The commits of the event under `k`, if its repository resolved. */
  ghost function ResolvedCommits(events: map<string, EnrichedEvent>): string -> nat
  {
    k => if k in events && events[k].repo.Some? then |events[k].commits| else 0
  }

  /** 1 if the event under `k` has type `t` and its repository resolved. */
  ghost function ResolvedOfType(events: map<string, EnrichedEvent>, t: string): string -> nat
  {
    k => if k in events && events[k].repo.Some? && events[k].eventType == t then 1 else 0
  }

  /** The contribution of each event (column) to each repository's commit count (row). */
  ghost function CommitTable(events: map<string, EnrichedEvent>): string -> (string -> nat)
  {
    rid => CommitsTo(events, rid)
  }

  /** The contribution of each event (column) to each repository's count of type `t` (row). */
  ghost function TypeTable(events: map<string, EnrichedEvent>, t: string): string -> (string -> nat)
  {
    rid => EventsOfTypeTo(events, rid, t)
  }

  /** Summed over all aggregates, the commit counts are the commits of the events whose repository
      resolved: each such event is counted in its repository's aggregate and in no other. */
  lemma RepoCommitTotal(events: map<string, EnrichedEvent>, order: seq<string>,
                        repoMap: map<string, Repo>, rorder: seq<string>)
    requires IsIterationOrder(order, events.Keys) && IsRepoIndex(events, order, repoMap)
    requires IsIterationOrder(rorder, repoMap.Keys)
    ensures SumBy(rorder, CommitCountOf(repoMap)) == SumBy(order, ResolvedCommits(events))
  {
    IterationOrderMembers(rorder, repoMap.Keys);
    IterationOrderMembers(order, events.Keys);
    forall i | 0 <= i < |rorder|
      ensures CommitCountOf(repoMap)(rorder[i]) == RowSums(CommitTable(events), order)(rorder[i])
    {
      assert AggregatesFor(events, order, rorder[i], repoMap[rorder[i]]);
    }
    SumByPointwise(rorder, CommitCountOf(repoMap), RowSums(CommitTable(events), order));
    SumBySwap(rorder, order, CommitTable(events));
    forall i | 0 <= i < |order|
      ensures ColumnSums(CommitTable(events), rorder)(order[i]) == ResolvedCommits(events)(order[i])
    {
      AttributedOnce(events, order, repoMap, rorder, order[i], CommitTable(events), |events[order[i]].commits|);
    }
    SumByPointwise(order, ColumnSums(CommitTable(events), rorder), ResolvedCommits(events));
  }

  /** Summed over all aggregates, the counts of type `t` are the number of events of type `t`
      whose repository resolved. */
  lemma RepoTypeTotal(events: map<string, EnrichedEvent>, order: seq<string>,
                      repoMap: map<string, Repo>, rorder: seq<string>, t: string)
    requires IsIterationOrder(order, events.Keys) && IsRepoIndex(events, order, repoMap)
    requires IsIterationOrder(rorder, repoMap.Keys)
    ensures SumBy(rorder, TypeCountOf(repoMap, t)) == SumBy(order, ResolvedOfType(events, t))
  {
    IterationOrderMembers(rorder, repoMap.Keys);
    IterationOrderMembers(order, events.Keys);
    forall i | 0 <= i < |rorder|
      ensures TypeCountOf(repoMap, t)(rorder[i]) == RowSums(TypeTable(events, t), order)(rorder[i])
    {
      TypeCountRow(events, order, rorder[i], repoMap[rorder[i]], t);
    }
    SumByPointwise(rorder, TypeCountOf(repoMap, t), RowSums(TypeTable(events, t), order));
    SumBySwap(rorder, order, TypeTable(events, t));
    forall i | 0 <= i < |order|
      ensures ColumnSums(TypeTable(events, t), rorder)(order[i]) == ResolvedOfType(events, t)(order[i])
    {
      var c := if events[order[i]].eventType == t then 1 else 0;
      AttributedOnce(events, order, repoMap, rorder, order[i], TypeTable(events, t), c);
    }
    SumByPointwise(order, ColumnSums(TypeTable(events, t), rorder), ResolvedOfType(events, t));
  }

  /** An aggregate's count of type `t` is the row sum of its events of type `t`. */
  lemma TypeCountRow(events: map<string, EnrichedEvent>, order: seq<string>, rid: string, a: Repo, t: string)
    requires AggregatesFor(events, order, rid, a)
    ensures CountOf(a.eventTypeCount, t) == SumBy(order, EventsOfTypeTo(events, rid, t))
  {
  }

  /** An event whose repository resolved contributes `c` to that repository's row of `table` and nothing to
      any other; summed over the aggregates, it contributes `c` once. */
  lemma AttributedOnce(events: map<string, EnrichedEvent>, order: seq<string>, repoMap: map<string, Repo>,
                       rorder: seq<string>, k: string, table: string -> (string -> nat), c: nat)
    requires IsRepoIndex(events, order, repoMap) && IsIterationOrder(rorder, repoMap.Keys)
    requires k in order && k in events
    requires forall rid :: table(rid)(k) == if RepoIf(events, k, rid).Some? then c else 0
    ensures ColumnSums(table, rorder)(k) == if events[k].repo.Some? then c else 0
  {
    var column := Column(table, k);
    if events[k].repo.Some? {
      var id := events[k].repo.value.id;
      assert id in RepoIdsIn(events, order);
      assert id in (set rid | rid in rorder);
      SumByPoint(rorder, column, id, c);
    } else {
      SumByPoint(rorder, column, k, 0);
    }
  }

  // ----- Independence from the iteration order -----

  /** Every event with a resolved repository resolves the same repository for the same identifier (the
      join gives this when the repository store is keyed by identifier). */
  ghost predicate ConsistentRepos(events: map<string, EnrichedEvent>)
  {
    forall k1, k2 ::
      (k1 in events && k2 in events && events[k1].repo.Some? && events[k2].repo.Some?
       && events[k1].repo.value.id == events[k2].repo.value.id) ==> events[k1].repo == events[k2].repo
  }

  lemma JoinedReposConsistent(ds: Entities.DataStore, commitOrder: seq<string>, events: map<string, EnrichedEvent>)
    requires ReposKeyedById(ds.repoStore) && Joined(ds, commitOrder, events)
    ensures ConsistentRepos(events)
  {
    forall k1, k2 | k1 in events && k2 in events && events[k1].repo.Some? && events[k2].repo.Some?
                    && events[k1].repo.value.id == events[k2].repo.value.id
      ensures events[k1].repo == events[k2].repo
    {
      var r1 :| r1 in ds.eventStore && ds.eventStore[r1].id == k1 && FromRecord(ds, events[k1], ds.eventStore[r1]);
      var r2 :| r2 in ds.eventStore && ds.eventStore[r2].id == k2 && FromRecord(ds, events[k2], ds.eventStore[r2]);
    }
  }

  /** The first repository resolved to `rid` is the repository of one of the visited events. */
  lemma {:induction false} FirstRepoOccurs(events: map<string, EnrichedEvent>, order: seq<string>, rid: string)
    requires FirstRepo(events, order, rid).Some?
    ensures exists k :: k in order && k in events && events[k].repo == FirstRepo(events, order, rid)
                        && events[k].repo.value.id == rid
  {
    var rest := order[..|order| - 1];
    if FirstRepo(events, rest, rid).Some? {
      FirstRepoOccurs(events, rest, rid);
      var k :| k in rest && k in events && events[k].repo == FirstRepo(events, rest, rid) && events[k].repo.value.id == rid;
      assert k in order;
    } else {
      assert order[|order| - 1] in order;
    }
  }

  /** The index depends neither on the order the events are visited in nor on the order of the
      commits within each event: two indexes of events equal up to commit order agree. */
  lemma RepoIndexOrderIndependent(events1: map<string, EnrichedEvent>, order1: seq<string>, repoMap1: map<string, Repo>,
                                  events2: map<string, EnrichedEvent>, order2: seq<string>, repoMap2: map<string, Repo>)
    requires SameUpToCommitOrder(events1, events2) && ConsistentRepos(events1)
    requires IsIterationOrder(order1, events1.Keys) && IsRepoIndex(events1, order1, repoMap1)
    requires IsIterationOrder(order2, events2.Keys) && IsRepoIndex(events2, order2, repoMap2)
    ensures repoMap1 == repoMap2
  {
    RepoIdsOfIterationOrder(events1, order1);
    RepoIdsOfIterationOrder(events2, order2);
    IterationOrdersArePermutations(order1, order2, events1.Keys);
    SameRepoIds(events1, events2);
    forall rid | rid in repoMap1
      ensures repoMap1[rid] == repoMap2[rid]
    {
      SameAggregates(events1, order1, events2, order2, rid, repoMap1[rid], repoMap2[rid]);
    }
    MapsAgree(repoMap1, repoMap2);
  }

  lemma SameRepoIds(events1: map<string, EnrichedEvent>, events2: map<string, EnrichedEvent>)
    requires SameUpToCommitOrder(events1, events2)
    ensures RepoIds(events1) == RepoIds(events2)
  {
    forall k | k in events1
      ensures events1[k].repo == events2[k].repo
    {
      assert events1[k].(commits := []).repo == events1[k].repo;
    }
  }

  /** One repository's aggregate, as in RepoIndexOrderIndependent. */
  lemma SameAggregates(events1: map<string, EnrichedEvent>, order1: seq<string>,
                       events2: map<string, EnrichedEvent>, order2: seq<string>, rid: string, a1: Repo, a2: Repo)
    requires SameUpToCommitOrder(events1, events2) && ConsistentRepos(events1)
    requires multiset(order1) == multiset(order2)
    requires AggregatesFor(events1, order1, rid, a1) && AggregatesFor(events2, order2, rid, a2)
    ensures a1 == a2
  {
    SameContributions(events1, events2, rid);
    SumByPermutation(order1, order2, CommitsTo(events1, rid));
    SumByPointwise(order2, CommitsTo(events1, rid), CommitsTo(events2, rid));
    SameTypeCounts(events1, order1, events2, order2, rid, a1.eventTypeCount, a2.eventTypeCount);
    SameFirstRepo(events1, order1, events2, order2, rid);
  }

  /** Events equal up to commit order contribute the same to every aggregate. */
  lemma SameContributions(events1: map<string, EnrichedEvent>, events2: map<string, EnrichedEvent>, rid: string)
    requires SameUpToCommitOrder(events1, events2)
    ensures forall k :: RepoIf(events1, k, rid) == RepoIf(events2, k, rid)
    ensures forall k :: CommitsTo(events1, rid)(k) == CommitsTo(events2, rid)(k)
    ensures forall t, k :: EventsOfTypeTo(events1, rid, t)(k) == EventsOfTypeTo(events2, rid, t)(k)
  {
    forall k | k in events1
      ensures events1[k].repo == events2[k].repo && events1[k].eventType == events2[k].eventType
      ensures |events1[k].commits| == |events2[k].commits|
    {
      assert events1[k].(commits := []).repo == events1[k].repo;
      assert events1[k].(commits := []).eventType == events1[k].eventType;
      assert |multiset(events1[k].commits)| == |events1[k].commits|;
    }
  }

  lemma SameTypeCounts(events1: map<string, EnrichedEvent>, order1: seq<string>,
                       events2: map<string, EnrichedEvent>, order2: seq<string>, rid: string,
                       counts1: map<string, int>, counts2: map<string, int>)
    requires multiset(order1) == multiset(order2)
    requires forall t, k :: EventsOfTypeTo(events1, rid, t)(k) == EventsOfTypeTo(events2, rid, t)(k)
    requires TypeCountsMatch(events1, order1, rid, counts1) && TypeCountsMatch(events2, order2, rid, counts2)
    ensures counts1 == counts2
  {
    forall t
      ensures SumBy(order1, EventsOfTypeTo(events1, rid, t)) == SumBy(order2, EventsOfTypeTo(events2, rid, t))
    {
      SumByPermutation(order1, order2, EventsOfTypeTo(events1, rid, t));
      SumByPointwise(order2, EventsOfTypeTo(events1, rid, t), EventsOfTypeTo(events2, rid, t));
    }
  }

  lemma SameFirstRepo(events1: map<string, EnrichedEvent>, order1: seq<string>,
                       events2: map<string, EnrichedEvent>, order2: seq<string>, rid: string)
    requires ConsistentRepos(events1)
    requires forall k :: RepoIf(events1, k, rid) == RepoIf(events2, k, rid)
    requires FirstRepo(events1, order1, rid).Some? && FirstRepo(events2, order2, rid).Some?
    ensures FirstRepo(events1, order1, rid) == FirstRepo(events2, order2, rid)
  {
    FirstRepoOccurs(events1, order1, rid);
    FirstRepoOccurs(events2, order2, rid);
    var k1 :| k1 in order1 && k1 in events1 && events1[k1].repo == FirstRepo(events1, order1, rid) && events1[k1].repo.value.id == rid;
    var k2 :| k2 in order2 && k2 in events2 && events2[k2].repo == FirstRepo(events2, order2, rid) && events2[k2].repo.value.id == rid;
    assert RepoIf(events1, k2, rid) == RepoIf(events2, k2, rid);
  }

  // ----- GetTopRepos -----

  /** GetTopRepos, the aggregates being pushed in the map's iteration order `order`: the first
      `limit` aggregates popped from a heap ordered by `fn`. When `fn` is a weak order, the result is
      ranked by `fn`, and no aggregate left out ranks strictly above one returned. */
  method GetTopRepos(repoMap: map<string, Repo>, order: seq<string>, limit: nat, fn: (Repo, Repo) -> bool)
    returns (repos: seq<Repo>)
    requires IsIterationOrder(order, repoMap.Keys)
    requires limit <= |repoMap|
    ensures |repos| == limit
    ensures multiset(repos) <= multiset(ValuesInOrder(repoMap, order))
    ensures WeakOrder(fn) ==> Ranked(fn, repos)
    ensures WeakOrder(fn) ==>
              forall y, j :: y in multiset(ValuesInOrder(repoMap, order)) - multiset(repos) && 0 <= j < |repos| ==>
                !StrictlyBefore(fn, y, repos[j])
  {
    IterationOrderMembers(order, repoMap.Keys);
    IterationOrderLength(order, repoMap.Keys);
    ghost var all := ValuesInOrder(repoMap, order);
    var h := new RepoHeap(fn);
    for i := 0 to |order|
      invariant h.items == all[..i]
    {
      HeapPush(h, repoMap[order[i]]);
      assert all[..i + 1] == all[..i] + [all[i]];
    }
    assert all[..|order|] == all;
    repos := PopTop(h, limit);
  }

  /** The pop loop of GetTopRepos: `limit` calls of heap.Pop, appended in the order popped. */
  method PopTop(h: RepoHeap, limit: nat) returns (repos: seq<Repo>)
    requires limit <= |h.items|
    modifies h
    ensures |repos| == limit
    ensures multiset(h.items) + multiset(repos) == multiset(old(h.items))
    ensures WeakOrder(h.less) ==> Ranked(h.less, repos)
    ensures WeakOrder(h.less) ==>
              forall y, j :: y in multiset(old(h.items)) - multiset(repos) && 0 <= j < |repos| ==>
                !StrictlyBefore(h.less, y, repos[j])
  {
    repos := [];
    for i := 0 to limit
      invariant |repos| == i
      invariant |h.items| == |old(h.items)| - i
      invariant multiset(h.items) + multiset(repos) == multiset(old(h.items))
      invariant WeakOrder(h.less) ==> Ranked(h.less, repos)
      invariant WeakOrder(h.less) ==>
                  forall y, j :: y in h.items && 0 <= j < i ==> !StrictlyBefore(h.less, y, repos[j])
    {
      ghost var pool := h.items;
      var x := HeapPop(h);
      if WeakOrder(h.less) {
        RankedExtend(h.less, repos, pool, x, h.items);
      }
      repos := repos + [x];
    }
    assert multiset(old(h.items)) - multiset(repos) == multiset(h.items);
    forall y, j | y in multiset(old(h.items)) - multiset(repos) && 0 <= j < |repos| && WeakOrder(h.less)
      ensures !StrictlyBefore(h.less, y, repos[j])
    {
      assert y in h.items;
    }
  }
}
