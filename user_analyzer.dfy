/**
 * domain/user/analyzer.go: the per-actor fold over the enriched events (`indexUsers`) and the
 * heap-based top-N selection over its result (`GetTopUsers`).
 */
module UserAnalyzer {
  import opened Wrappers
  import opened Collections
  import opened Comparators
  import opened Entities
  import opened Service
  import opened Users

  // ----- What the fold computes, for the events visited in `order` -----

  /** The actor of the event stored under `k`, if it resolved and has identifier `uid`. */
  ghost function ActorIf(events: map<string, EnrichedEvent>, k: string, uid: string): Option<Actor>
  {
    if k in events && events[k].actor.Some? && events[k].actor.value.id == uid then events[k].actor
    else None
  }

  /** The actor of the first visited event attributed to `uid`: the one the aggregate is made from. */
  ghost function FirstActor(events: map<string, EnrichedEvent>, order: seq<string>, uid: string): Option<Actor>
  {
    if order == [] then None
    else
      var earlier := FirstActor(events, order[..|order| - 1], uid);
      if earlier.Some? then earlier else ActorIf(events, order[|order| - 1], uid)
  }

  /** The identifiers of the resolved actors of the visited events. */
  ghost function ActorIdsIn(events: map<string, EnrichedEvent>, order: seq<string>): set<string>
  {
    set k | k in order && k in events && events[k].actor.Some? :: events[k].actor.value.id
  }

  /** The identifiers of the resolved actors of all events. */
  ghost function ActorIds(events: map<string, EnrichedEvent>): set<string>
  {
    set k | k in events && events[k].actor.Some? :: events[k].actor.value.id
  }

  /** The commits of the event under `k`, if it is attributed to `uid`. */
  ghost function CommitsBy(events: map<string, EnrichedEvent>, uid: string): string -> nat
  {
    k => if ActorIf(events, k, uid).Some? then |events[k].commits| else 0
  }

  /** 1 if the event under `k` is attributed to `uid` and has type `t`. */
  ghost function EventsOfTypeBy(events: map<string, EnrichedEvent>, uid: string, t: string): string -> nat
  {
    k => if ActorIf(events, k, uid).Some? && events[k].eventType == t then 1 else 0
  }

  /** `counts` holds, for each event type, the number of visited events of that type attributed
      to `uid`, and no entry for a type with none. */
  ghost predicate TypeCountsMatch(events: map<string, EnrichedEvent>, order: seq<string>, uid: string,
                                  counts: map<string, int>)
  {
    forall t :: (t in counts <==> SumBy(order, EventsOfTypeBy(events, uid, t)) > 0)
             && (t in counts ==> counts[t] == SumBy(order, EventsOfTypeBy(events, uid, t)))
  }

  /** `u` is the aggregate of the visited events attributed to `uid`. */
  ghost predicate AggregatesFor(events: map<string, EnrichedEvent>, order: seq<string>, uid: string, u: User)
  {
    // identity and name come from the first event attributed to the actor
    && u.id == uid
    && FirstActor(events, order, uid) == Some(Actor(uid, u.username))
    // commits summed over the actor's events
    && u.commitCount == SumBy(order, CommitsBy(events, uid))
    && TypeCountsMatch(events, order, uid, u.eventTypeCount)
  }

  /** `userMap` is what indexUsers builds from the events visited in `order`: an aggregate exactly
      for each actor identifier seen (events without an actor add nothing), each one aggregating
      that actor's events. */
  ghost predicate IsUserIndex(events: map<string, EnrichedEvent>, order: seq<string>, userMap: map<string, User>)
  {
    && userMap.Keys == ActorIdsIn(events, order)
    && forall uid :: uid in userMap ==> AggregatesFor(events, order, uid, userMap[uid])
  }

  /** indexUsers, visiting the events in `order`. */
  method IndexUsers(events: map<string, EnrichedEvent>, order: seq<string>) returns (userMap: map<string, User>)
    requires IsIterationOrder(order, events.Keys)
    ensures IsUserIndex(events, order, userMap)
    ensures userMap.Keys == ActorIds(events)
    ensures forall uid, t :: uid in userMap && t in userMap[uid].eventTypeCount ==> userMap[uid].eventTypeCount[t] >= 1
  {
    IterationOrderMembers(order, events.Keys);
    userMap := map[];
    for i := 0 to |order|
      invariant IsUserIndex(events, order[..i], userMap)
    {
      var event := events[order[i]];
      if event.actor.None? {
        UserIndexSkip(events, order, i, userMap);
      } else {
        var actor := event.actor.value;
        var user := if actor.id in userMap then userMap[actor.id] else User(actor.id, actor.username, 0, map[]);
        var updated := user.(commitCount := user.commitCount + |event.commits|,
                             eventTypeCount := user.eventTypeCount[event.eventType := CountOf(user.eventTypeCount, event.eventType) + 1]);
        UserIndexVisit(events, order, i, userMap, user, updated);
        userMap := userMap[actor.id := updated];
      }
    }
    UserIndexComplete(events, order, userMap);
  }

  /** An event without a resolved actor leaves the index as it is. */
  lemma UserIndexSkip(events: map<string, EnrichedEvent>, order: seq<string>, i: nat, userMap: map<string, User>)
    requires i < |order| && order[i] in events && events[order[i]].actor.None?
    requires IsUserIndex(events, order[..i], userMap)
    ensures IsUserIndex(events, order[..i + 1], userMap)
  {
    ActorIdsInStep(events, order, i);
    VisitOtherActors(events, order, i, userMap);
  }

  /** Visiting an event not attributed to `uid` leaves `uid`'s aggregate as it is. */
  lemma VisitOtherActor(events: map<string, EnrichedEvent>, order: seq<string>, i: nat, uid: string, u: User)
    requires i < |order| && ActorIf(events, order[i], uid).None?
    requires AggregatesFor(events, order[..i], uid, u)
    ensures AggregatesFor(events, order[..i + 1], uid, u)
  {
    assert order[..i + 1][..i] == order[..i];
    SumByStep(order, i, CommitsBy(events, uid));
    forall t
      ensures SumBy(order[..i + 1], EventsOfTypeBy(events, uid, t)) == SumBy(order[..i], EventsOfTypeBy(events, uid, t))
    {
      SumByStep(order, i, EventsOfTypeBy(events, uid, t));
    }
  }

  /** Visiting an event attributed to `uid` adds its commits and one occurrence of its type. */
  lemma VisitSameActor(events: map<string, EnrichedEvent>, order: seq<string>, i: nat, uid: string,
                       u: User, updated: User)
    requires i < |order| && ActorIf(events, order[i], uid).Some?
    requires AggregatesFor(events, order[..i], uid, u)
             || (uid !in ActorIdsIn(events, order[..i]) && u == User(uid, events[order[i]].actor.value.username, 0, map[]))
    requires var e := events[order[i]];
             updated == u.(commitCount := u.commitCount + |e.commits|,
                           eventTypeCount := u.eventTypeCount[e.eventType := CountOf(u.eventTypeCount, e.eventType) + 1])
    ensures AggregatesFor(events, order[..i + 1], uid, updated)
  {
    var e := events[order[i]];
    assert order[..i + 1][..i] == order[..i];
    if !AggregatesFor(events, order[..i], uid, u) {
      FirstActorNone(events, order[..i], uid);
    }
    SumByStep(order, i, CommitsBy(events, uid));
    forall t
      ensures SumBy(order[..i + 1], EventsOfTypeBy(events, uid, t))
           == SumBy(order[..i], EventsOfTypeBy(events, uid, t)) + (if t == e.eventType then 1 else 0)
    {
      SumByStep(order, i, EventsOfTypeBy(events, uid, t));
    }
  }

  /** An event with a resolved actor adds its commits and one occurrence of its type to that
      actor's aggregate, `user` being the aggregate found or freshly made. */
  lemma UserIndexVisit(events: map<string, EnrichedEvent>, order: seq<string>, i: nat,
                       userMap: map<string, User>, user: User, updated: User)
    requires i < |order| && order[i] in events && events[order[i]].actor.Some?
    requires IsUserIndex(events, order[..i], userMap)
    requires var a := events[order[i]].actor.value;
             user == if a.id in userMap then userMap[a.id] else User(a.id, a.username, 0, map[])
    requires var e := events[order[i]];
             updated == user.(commitCount := user.commitCount + |e.commits|,
                              eventTypeCount := user.eventTypeCount[e.eventType := CountOf(user.eventTypeCount, e.eventType) + 1])
    ensures IsUserIndex(events, order[..i + 1], userMap[events[order[i]].actor.value.id := updated])
  {
    var aid := events[order[i]].actor.value.id;
    ActorIdsInStep(events, order, i);
    if aid in userMap {
      assert AggregatesFor(events, order[..i], aid, user);
    } else {
      assert aid !in ActorIdsIn(events, order[..i]);
    }
    VisitSameActor(events, order, i, aid, user, updated);
    VisitOtherActors(events, order, i, userMap);
    IndexExtend(events, order[..i + 1], userMap, aid, updated);
  }

  /** Replacing one actor's aggregate by its new value keeps an index exact. */
  lemma IndexExtend(events: map<string, EnrichedEvent>, visited: seq<string>, userMap: map<string, User>,
                    aid: string, updated: User)
    requires userMap.Keys + {aid} == ActorIdsIn(events, visited)
    requires AggregatesFor(events, visited, aid, updated)
    requires forall uid :: uid in userMap && uid != aid ==> AggregatesFor(events, visited, uid, userMap[uid])
    ensures IsUserIndex(events, visited, userMap[aid := updated])
  {
  }

  /** The aggregates of the actors the visited event is not attributed to stay as they are. */
  lemma VisitOtherActors(events: map<string, EnrichedEvent>, order: seq<string>, i: nat, userMap: map<string, User>)
    requires i < |order|
    requires IsUserIndex(events, order[..i], userMap)
    ensures forall uid :: uid in userMap && ActorIf(events, order[i], uid).None? ==>
              AggregatesFor(events, order[..i + 1], uid, userMap[uid])
  {
    forall uid | uid in userMap && ActorIf(events, order[i], uid).None?
      ensures AggregatesFor(events, order[..i + 1], uid, userMap[uid])
    {
      VisitOtherActor(events, order, i, uid, userMap[uid]);
    }
  }

  /** Visiting one more event adds its actor's identifier, if it has one. */
  lemma ActorIdsInStep(events: map<string, EnrichedEvent>, order: seq<string>, i: nat)
    requires i < |order| && order[i] in events
    ensures var e := events[order[i]];
            ActorIdsIn(events, order[..i + 1])
            == ActorIdsIn(events, order[..i]) + (if e.actor.Some? then {e.actor.value.id} else {})
  {
    assert order[..i + 1] == order[..i] + [order[i]];
  }

  /** No visited event is attributed to an identifier the index does not know yet. */
  lemma {:induction false} FirstActorNone(events: map<string, EnrichedEvent>, order: seq<string>, uid: string)
    requires uid !in ActorIdsIn(events, order)
    ensures FirstActor(events, order, uid) == None
    ensures SumBy(order, CommitsBy(events, uid)) == 0
    ensures forall t :: SumBy(order, EventsOfTypeBy(events, uid, t)) == 0
  {
    if order != [] {
      var rest := order[..|order| - 1];
      assert ActorIdsIn(events, rest) <= ActorIdsIn(events, order);
      FirstActorNone(events, rest, uid);
    }
  }

  /** Once every event is visited, the index holds an aggregate for every resolved actor. */
  lemma UserIndexComplete(events: map<string, EnrichedEvent>, order: seq<string>, userMap: map<string, User>)
    requires IsIterationOrder(order, events.Keys)
    requires IsUserIndex(events, order[..|order|], userMap)
    ensures IsUserIndex(events, order, userMap)
    ensures userMap.Keys == ActorIds(events)
    ensures forall uid, t :: uid in userMap && t in userMap[uid].eventTypeCount ==> userMap[uid].eventTypeCount[t] >= 1
  {
    assert order[..|order|] == order;
    ActorIdsOfIterationOrder(events, order);
  }

  lemma ActorIdsOfIterationOrder(events: map<string, EnrichedEvent>, order: seq<string>)
    requires IsIterationOrder(order, events.Keys)
    ensures ActorIdsIn(events, order) == ActorIds(events)
  {
    forall k | k in events
      ensures k in order
    {
      assert k in (set k | k in order);
    }
  }

  // ----- Whole-table totals -----

  /** The commit count of the aggregate under `uid`, 0 for an identifier without one. */
  ghost function CommitCountOf(userMap: map<string, User>): string -> nat
  {
    uid => if uid in userMap && userMap[uid].commitCount >= 0 then userMap[uid].commitCount as nat else 0
  }

  /** The count of type `t` in the aggregate under `uid`, 0 for an identifier without one. */
  ghost function TypeCountOf(userMap: map<string, User>, t: string): string -> nat
  {
    uid => if uid in userMap && CountOf(userMap[uid].eventTypeCount, t) >= 0
           then CountOf(userMap[uid].eventTypeCount, t) as nat else 0
  }

  /** The commits of the event under `k`, if its actor resolved. */
  ghost function ResolvedCommits(events: map<string, EnrichedEvent>): string -> nat
  {
    k => if k in events && events[k].actor.Some? then |events[k].commits| else 0
  }

  /** 1 if the event under `k` has type `t` and its actor resolved. */
  ghost function ResolvedOfType(events: map<string, EnrichedEvent>, t: string): string -> nat
  {
    k => if k in events && events[k].actor.Some? && events[k].eventType == t then 1 else 0
  }

  /** The contribution of each event (column) to each actor's commit count (row). */
  ghost function CommitTable(events: map<string, EnrichedEvent>): string -> (string -> nat)
  {
    uid => CommitsBy(events, uid)
  }

  /** The contribution of each event (column) to each actor's count of type `t` (row). */
  ghost function TypeTable(events: map<string, EnrichedEvent>, t: string): string -> (string -> nat)
  {
    uid => EventsOfTypeBy(events, uid, t)
  }

  /** Summed over all aggregates, the commit counts are the commits of the events whose actor
      resolved: each such event is counted in its actor's aggregate and in no other. */
  lemma UserCommitTotal(events: map<string, EnrichedEvent>, order: seq<string>,
                        userMap: map<string, User>, uorder: seq<string>)
    requires IsIterationOrder(order, events.Keys) && IsUserIndex(events, order, userMap)
    requires IsIterationOrder(uorder, userMap.Keys)
    ensures SumBy(uorder, CommitCountOf(userMap)) == SumBy(order, ResolvedCommits(events))
  {
    IterationOrderMembers(uorder, userMap.Keys);
    IterationOrderMembers(order, events.Keys);
    forall i | 0 <= i < |uorder|
      ensures CommitCountOf(userMap)(uorder[i]) == RowSums(CommitTable(events), order)(uorder[i])
    {
      assert AggregatesFor(events, order, uorder[i], userMap[uorder[i]]);
    }
    SumByPointwise(uorder, CommitCountOf(userMap), RowSums(CommitTable(events), order));
    SumBySwap(uorder, order, CommitTable(events));
    forall i | 0 <= i < |order|
      ensures ColumnSums(CommitTable(events), uorder)(order[i]) == ResolvedCommits(events)(order[i])
    {
      AttributedOnce(events, order, userMap, uorder, order[i], CommitTable(events), |events[order[i]].commits|);
    }
    SumByPointwise(order, ColumnSums(CommitTable(events), uorder), ResolvedCommits(events));
  }

  /** Summed over all aggregates, the counts of type `t` are the number of events of type `t`
      whose actor resolved. */
  lemma UserTypeTotal(events: map<string, EnrichedEvent>, order: seq<string>,
                      userMap: map<string, User>, uorder: seq<string>, t: string)
    requires IsIterationOrder(order, events.Keys) && IsUserIndex(events, order, userMap)
    requires IsIterationOrder(uorder, userMap.Keys)
    ensures SumBy(uorder, TypeCountOf(userMap, t)) == SumBy(order, ResolvedOfType(events, t))
  {
    IterationOrderMembers(uorder, userMap.Keys);
    IterationOrderMembers(order, events.Keys);
    forall i | 0 <= i < |uorder|
      ensures TypeCountOf(userMap, t)(uorder[i]) == RowSums(TypeTable(events, t), order)(uorder[i])
    {
      TypeCountRow(events, order, uorder[i], userMap[uorder[i]], t);
    }
    SumByPointwise(uorder, TypeCountOf(userMap, t), RowSums(TypeTable(events, t), order));
    SumBySwap(uorder, order, TypeTable(events, t));
    forall i | 0 <= i < |order|
      ensures ColumnSums(TypeTable(events, t), uorder)(order[i]) == ResolvedOfType(events, t)(order[i])
    {
      var c := if events[order[i]].eventType == t then 1 else 0;
      AttributedOnce(events, order, userMap, uorder, order[i], TypeTable(events, t), c);
    }
    SumByPointwise(order, ColumnSums(TypeTable(events, t), uorder), ResolvedOfType(events, t));
  }

  /** An aggregate's count of type `t` is the row sum of its events of type `t`. */
  lemma TypeCountRow(events: map<string, EnrichedEvent>, order: seq<string>, uid: string, u: User, t: string)
    requires AggregatesFor(events, order, uid, u)
    ensures CountOf(u.eventTypeCount, t) == SumBy(order, EventsOfTypeBy(events, uid, t))
  {
  }

  /** An event whose actor resolved contributes `c` to that actor's row of `table` and nothing to
      any other; summed over the aggregates, it contributes `c` once. */
  lemma AttributedOnce(events: map<string, EnrichedEvent>, order: seq<string>, userMap: map<string, User>,
                       uorder: seq<string>, k: string, table: string -> (string -> nat), c: nat)
    requires IsUserIndex(events, order, userMap) && IsIterationOrder(uorder, userMap.Keys)
    requires k in order && k in events
    requires forall uid :: table(uid)(k) == if ActorIf(events, k, uid).Some? then c else 0
    ensures ColumnSums(table, uorder)(k) == if events[k].actor.Some? then c else 0
  {
    var column := Column(table, k);
    if events[k].actor.Some? {
      var aid := events[k].actor.value.id;
      assert aid in ActorIdsIn(events, order);
      assert aid in (set uid | uid in uorder);
      SumByPoint(uorder, column, aid, c);
    } else {
      SumByPoint(uorder, column, k, 0);
    }
  }

  // ----- Independence from the iteration order -----

  /** Every event with a resolved actor resolves the same actor for the same identifier (the
      join gives this when the actor store is keyed by identifier). */
  ghost predicate ConsistentActors(events: map<string, EnrichedEvent>)
  {
    forall k1, k2 ::
      (k1 in events && k2 in events && events[k1].actor.Some? && events[k2].actor.Some?
       && events[k1].actor.value.id == events[k2].actor.value.id) ==> events[k1].actor == events[k2].actor
  }

  lemma JoinedActorsConsistent(ds: DataStore, commitOrder: seq<string>, events: map<string, EnrichedEvent>)
    requires ActorsKeyedById(ds.actorStore) && Joined(ds, commitOrder, events)
    ensures ConsistentActors(events)
  {
    forall k1, k2 | k1 in events && k2 in events && events[k1].actor.Some? && events[k2].actor.Some?
                    && events[k1].actor.value.id == events[k2].actor.value.id
      ensures events[k1].actor == events[k2].actor
    {
      var r1 :| r1 in ds.eventStore && ds.eventStore[r1].id == k1 && FromRecord(ds, events[k1], ds.eventStore[r1]);
      var r2 :| r2 in ds.eventStore && ds.eventStore[r2].id == k2 && FromRecord(ds, events[k2], ds.eventStore[r2]);
    }
  }

  /** The first actor attributed to `uid` is the actor of one of the visited events. */
  lemma {:induction false} FirstActorOccurs(events: map<string, EnrichedEvent>, order: seq<string>, uid: string)
    requires FirstActor(events, order, uid).Some?
    ensures exists k :: k in order && k in events && events[k].actor == FirstActor(events, order, uid)
                        && events[k].actor.value.id == uid
  {
    var rest := order[..|order| - 1];
    if FirstActor(events, rest, uid).Some? {
      FirstActorOccurs(events, rest, uid);
      var k :| k in rest && k in events && events[k].actor == FirstActor(events, rest, uid) && events[k].actor.value.id == uid;
      assert k in order;
    } else {
      assert order[|order| - 1] in order;
    }
  }

  /** The index depends neither on the order the events are visited in nor on the order of the
      commits within each event: two indexes of events equal up to commit order agree. */
  lemma UserIndexOrderIndependent(events1: map<string, EnrichedEvent>, order1: seq<string>, userMap1: map<string, User>,
                                  events2: map<string, EnrichedEvent>, order2: seq<string>, userMap2: map<string, User>)
    requires SameUpToCommitOrder(events1, events2) && ConsistentActors(events1)
    requires IsIterationOrder(order1, events1.Keys) && IsUserIndex(events1, order1, userMap1)
    requires IsIterationOrder(order2, events2.Keys) && IsUserIndex(events2, order2, userMap2)
    ensures userMap1 == userMap2
  {
    ActorIdsOfIterationOrder(events1, order1);
    ActorIdsOfIterationOrder(events2, order2);
    IterationOrdersArePermutations(order1, order2, events1.Keys);
    SameActorIds(events1, events2);
    forall uid | uid in userMap1
      ensures userMap1[uid] == userMap2[uid]
    {
      SameAggregates(events1, order1, events2, order2, uid, userMap1[uid], userMap2[uid]);
    }
    MapsAgree(userMap1, userMap2);
  }

  lemma SameActorIds(events1: map<string, EnrichedEvent>, events2: map<string, EnrichedEvent>)
    requires SameUpToCommitOrder(events1, events2)
    ensures ActorIds(events1) == ActorIds(events2)
  {
    forall k | k in events1
      ensures events1[k].actor == events2[k].actor
    {
      assert events1[k].(commits := []).actor == events1[k].actor;
    }
  }

  /** One actor's aggregate, as in UserIndexOrderIndependent. */
  lemma SameAggregates(events1: map<string, EnrichedEvent>, order1: seq<string>,
                       events2: map<string, EnrichedEvent>, order2: seq<string>, uid: string, u1: User, u2: User)
    requires SameUpToCommitOrder(events1, events2) && ConsistentActors(events1)
    requires multiset(order1) == multiset(order2)
    requires AggregatesFor(events1, order1, uid, u1) && AggregatesFor(events2, order2, uid, u2)
    ensures u1 == u2
  {
    SameContributions(events1, events2, uid);
    SumByPermutation(order1, order2, CommitsBy(events1, uid));
    SumByPointwise(order2, CommitsBy(events1, uid), CommitsBy(events2, uid));
    SameTypeCounts(events1, order1, events2, order2, uid, u1.eventTypeCount, u2.eventTypeCount);
    SameFirstActor(events1, order1, events2, order2, uid);
  }

  /** Events equal up to commit order contribute the same to every aggregate. */
  lemma SameContributions(events1: map<string, EnrichedEvent>, events2: map<string, EnrichedEvent>, uid: string)
    requires SameUpToCommitOrder(events1, events2)
    ensures forall k :: ActorIf(events1, k, uid) == ActorIf(events2, k, uid)
    ensures forall k :: CommitsBy(events1, uid)(k) == CommitsBy(events2, uid)(k)
    ensures forall t, k :: EventsOfTypeBy(events1, uid, t)(k) == EventsOfTypeBy(events2, uid, t)(k)
  {
    forall k | k in events1
      ensures events1[k].actor == events2[k].actor && events1[k].eventType == events2[k].eventType
      ensures |events1[k].commits| == |events2[k].commits|
    {
      assert events1[k].(commits := []).actor == events1[k].actor;
      assert events1[k].(commits := []).eventType == events1[k].eventType;
      assert |multiset(events1[k].commits)| == |events1[k].commits|;
    }
  }

  lemma SameTypeCounts(events1: map<string, EnrichedEvent>, order1: seq<string>,
                       events2: map<string, EnrichedEvent>, order2: seq<string>, uid: string,
                       counts1: map<string, int>, counts2: map<string, int>)
    requires multiset(order1) == multiset(order2)
    requires forall t, k :: EventsOfTypeBy(events1, uid, t)(k) == EventsOfTypeBy(events2, uid, t)(k)
    requires TypeCountsMatch(events1, order1, uid, counts1) && TypeCountsMatch(events2, order2, uid, counts2)
    ensures counts1 == counts2
  {
    forall t
      ensures SumBy(order1, EventsOfTypeBy(events1, uid, t)) == SumBy(order2, EventsOfTypeBy(events2, uid, t))
    {
      SumByPermutation(order1, order2, EventsOfTypeBy(events1, uid, t));
      SumByPointwise(order2, EventsOfTypeBy(events1, uid, t), EventsOfTypeBy(events2, uid, t));
    }
  }

  lemma SameFirstActor(events1: map<string, EnrichedEvent>, order1: seq<string>,
                       events2: map<string, EnrichedEvent>, order2: seq<string>, uid: string)
    requires ConsistentActors(events1)
    requires forall k :: ActorIf(events1, k, uid) == ActorIf(events2, k, uid)
    requires FirstActor(events1, order1, uid).Some? && FirstActor(events2, order2, uid).Some?
    ensures FirstActor(events1, order1, uid) == FirstActor(events2, order2, uid)
  {
    FirstActorOccurs(events1, order1, uid);
    FirstActorOccurs(events2, order2, uid);
    var k1 :| k1 in order1 && k1 in events1 && events1[k1].actor == FirstActor(events1, order1, uid) && events1[k1].actor.value.id == uid;
    var k2 :| k2 in order2 && k2 in events2 && events2[k2].actor == FirstActor(events2, order2, uid) && events2[k2].actor.value.id == uid;
    assert ActorIf(events1, k2, uid) == ActorIf(events2, k2, uid);
  }

  // ----- GetTopUsers -----

  /** GetTopUsers, the aggregates being pushed in the map's iteration order `order`: the first
      `limit` aggregates popped from a heap ordered by `fn`. When `fn` is a weak order, the result is
      ranked by `fn`, and no aggregate left out ranks strictly above one returned. */
  method GetTopUsers(userMap: map<string, User>, order: seq<string>, limit: nat, fn: (User, User) -> bool)
    returns (users: seq<User>)
    requires IsIterationOrder(order, userMap.Keys)
    requires limit <= |userMap|
    ensures |users| == limit
    ensures multiset(users) <= multiset(ValuesInOrder(userMap, order))
    ensures WeakOrder(fn) ==> Ranked(fn, users)
    ensures WeakOrder(fn) ==>
              forall y, j :: y in multiset(ValuesInOrder(userMap, order)) - multiset(users) && 0 <= j < |users| ==>
                !StrictlyBefore(fn, y, users[j])
  {
    IterationOrderMembers(order, userMap.Keys);
    IterationOrderLength(order, userMap.Keys);
    ghost var all := ValuesInOrder(userMap, order);
    var h := new UserHeap(fn);
    for i := 0 to |order|
      invariant h.items == all[..i]
    {
      HeapPush(h, userMap[order[i]]);
      assert all[..i + 1] == all[..i] + [all[i]];
    }
    assert all[..|order|] == all;
    users := PopTop(h, limit);
  }

  /** The pop loop of GetTopUsers: `limit` calls of heap.Pop, appended in the order popped. */
  method PopTop(h: UserHeap, limit: nat) returns (users: seq<User>)
    requires limit <= |h.items|
    modifies h
    ensures |users| == limit
    ensures multiset(h.items) + multiset(users) == multiset(old(h.items))
    ensures WeakOrder(h.less) ==> Ranked(h.less, users)
    ensures WeakOrder(h.less) ==>
              forall y, j :: y in multiset(old(h.items)) - multiset(users) && 0 <= j < |users| ==>
                !StrictlyBefore(h.less, y, users[j])
  {
    users := [];
    for i := 0 to limit
      invariant |users| == i
      invariant |h.items| == |old(h.items)| - i
      invariant multiset(h.items) + multiset(users) == multiset(old(h.items))
      invariant WeakOrder(h.less) ==> Ranked(h.less, users)
      invariant WeakOrder(h.less) ==>
                  forall y, j :: y in h.items && 0 <= j < i ==> !StrictlyBefore(h.less, y, users[j])
    {
      ghost var pool := h.items;
      var x := HeapPop(h);
      if WeakOrder(h.less) {
        RankedExtend(h.less, users, pool, x, h.items);
      }
      users := users + [x];
    }
    assert multiset(old(h.items)) - multiset(users) == multiset(h.items);
    forall y, j | y in multiset(old(h.items)) - multiset(users) && 0 <= j < |users| && WeakOrder(h.less)
      ensures !StrictlyBefore(h.less, y, users[j])
    {
      assert y in h.items;
    }
  }
}
