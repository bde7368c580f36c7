/**
 * The join engine of service/event_handler.go: one enriched event per event record, with its
 * actor and repository resolved and every commit that names it attached.
 */
module Service {
  import opened Wrappers
  import opened Collections
  import opened Entities

  /** An event record joined with what its foreign keys name. A key that resolves to nothing
      leaves `None` where the Go code leaves a nil pointer; a nil and an empty commit slice
      are both the empty sequence. */
  datatype EnrichedEvent = EnrichedEvent(
    id: string,
    eventType: string,
    actor: Option<Actor>,
    repo: Option<Repo>,
    commits: seq<Commit>)

  /** The identifiers carried by the event records (the keys `eventsMap` is filled under). */
  ghost function RecordIds(store: map<string, Event>): set<string>
  {
    set k | k in store :: store[k].id
  }

  /** `e` is what the first loop makes of record `rec`, whatever commits were attached later. */
  ghost predicate FromRecord(ds: DataStore, e: EnrichedEvent, rec: Event)
  {
    && e.id == rec.id
    && e.eventType == rec.eventType
    && e.actor == Lookup(ds.actorStore, rec.actorId)
    && e.repo == Lookup(ds.repoStore, rec.repoId)
  }

  /** The commits of `store` whose event identifier is `id`, in the order `order` visits them. */
  ghost function CommitsFor(store: map<string, Commit>, order: seq<string>, id: string): seq<Commit>
  {
    if order == [] then []
    else
      var k := order[|order| - 1];
      CommitsFor(store, order[..|order| - 1], id)
        + if k in store && store[k].eventId == id then [store[k]] else []
  }

  /** What `BuildEvents` returns, for the commit store visited in `commitOrder`. */
  ghost predicate Joined(ds: DataStore, commitOrder: seq<string>, events: map<string, EnrichedEvent>)
  {
    // one entry per identifier carried by an event record
    && events.Keys == RecordIds(ds.eventStore)
    // each entry keeps the ID and Type of a record with that identifier and resolves its keys
    && (forall id :: id in events ==>
          exists k :: k in ds.eventStore && ds.eventStore[k].id == id && FromRecord(ds, events[id], ds.eventStore[k]))
    // each entry holds exactly the commits naming it, in visiting order
    && (forall id :: id in events ==> events[id].commits == CommitsFor(ds.commitStore, commitOrder, id))
  }

  /** The data store's own invariant: every record is stored under its own identifier. */
  ghost predicate EventsKeyedById(store: map<string, Event>)
  {
    forall k :: k in store ==> store[k].id == k
  }

  ghost predicate CommitsKeyedBySha(store: map<string, Commit>)
  {
    forall k :: k in store ==> store[k].sha == k
  }

  ghost predicate ActorsKeyedById(store: map<string, Actor>)
  {
    forall k :: k in store ==> store[k].id == k
  }

  ghost predicate ReposKeyedById(store: map<string, Repo>)
  {
    forall k :: k in store ==> store[k].id == k
  }

  /** BuildEvents (service/event_handler.go): the event store is visited in `eventOrder` and
      the commit store in `commitOrder`, the two orders in which Go's `range` happens to run. */
  method BuildEvents(ds: DataStore, eventOrder: seq<string>, commitOrder: seq<string>)
    returns (events: map<string, EnrichedEvent>)
    requires IsIterationOrder(eventOrder, ds.eventStore.Keys)
    requires IsIterationOrder(commitOrder, ds.commitStore.Keys)
    ensures Joined(ds, commitOrder, events)
    ensures forall id :: id in events ==> KeptLast(ds, eventOrder, events, id)
    ensures EventsKeyedById(ds.eventStore) ==>
              forall id :: id in events ==> FromRecord(ds, events[id], ds.eventStore[id])
  {
    var indexed := IndexEvents(ds, eventOrder);
    events := AttachCommits(ds.commitStore, commitOrder, indexed);
    forall id | id in events
      ensures exists k :: k in ds.eventStore && ds.eventStore[k].id == id && FromRecord(ds, events[id], ds.eventStore[k])
      ensures KeptLast(ds, eventOrder, events, id)
    {
      var k :| k in ds.eventStore && ds.eventStore[k].id == id && FromRecord(ds, indexed[id], ds.eventStore[k]);
      assert FromRecord(ds, events[id], ds.eventStore[k]);
      assert KeptLast(ds, eventOrder, indexed, id);
    }
  }

  /** The last record visited in `order` that carries identifier `id`, if any. */
  ghost function LastRecord(store: map<string, Event>, order: seq<string>, id: string): Option<Event>
  {
    if order == [] then None
    else
      var k := order[|order| - 1];
      if k in store && store[k].id == id then Some(store[k])
      else LastRecord(store, order[..|order| - 1], id)
  }

  /** The entry for `id` is made from the last record visited in `visited` that carries `id`. */
  ghost predicate KeptLast(ds: DataStore, visited: seq<string>, events: map<string, EnrichedEvent>, id: string)
    requires id in events
  {
    LastRecord(ds.eventStore, visited, id).Some? && FromRecord(ds, events[id], LastRecord(ds.eventStore, visited, id).value)
  }

  /** LastRecord is what its name says: there is one exactly when a visited record carries `id`,
      and then it is stored at a position after which no visited record carries `id`. */
  lemma {:induction false} LastRecordPosition(store: map<string, Event>, order: seq<string>, id: string)
    ensures LastRecord(store, order, id).Some? <==>
              exists p :: 0 <= p < |order| && order[p] in store && store[order[p]].id == id
    ensures LastRecord(store, order, id).Some? ==>
              exists p :: 0 <= p < |order| && order[p] in store && LastRecord(store, order, id) == Some(store[order[p]])
                          && store[order[p]].id == id
                          && forall j :: p < j < |order| && order[j] in store ==> store[order[j]].id != id
  {
    if order != [] {
      var last := |order| - 1;
      var rest := order[..last];
      LastRecordPosition(store, rest, id);
      if order[last] in store && store[order[last]].id == id {
        assert LastRecord(store, order, id) == Some(store[order[last]]);
      } else {
        assert LastRecord(store, order, id) == LastRecord(store, rest, id);
        if LastRecord(store, rest, id).Some? {
          var p :| 0 <= p < |rest| && rest[p] in store && LastRecord(store, rest, id) == Some(store[rest[p]])
                   && store[rest[p]].id == id
                   && forall j :: p < j < |rest| && rest[j] in store ==> store[rest[j]].id != id;
          assert order[p] == rest[p];
          forall j | p < j < |order| && order[j] in store
            ensures store[order[j]].id != id
          {
            if j < last {
              assert order[j] == rest[j];
            }
          }
        } else {
          forall p | 0 <= p < |order| && order[p] in store
            ensures store[order[p]].id != id
          {
            if p < last {
              assert order[p] == rest[p];
            }
          }
        }
      }
    }
  }

  /** The first loop of BuildEvents: one entry, without commits, per event record, stored under
      the record's own identifier; a later record with the same identifier replaces an earlier
      one, so the entry is made from the last record visited with that identifier. */
  method IndexEvents(ds: DataStore, eventOrder: seq<string>) returns (events: map<string, EnrichedEvent>)
    requires IsIterationOrder(eventOrder, ds.eventStore.Keys)
    ensures events.Keys == RecordIds(ds.eventStore)
    ensures forall id :: id in events ==> KeptLast(ds, eventOrder, events, id)
    ensures forall id :: id in events ==>
              exists k :: k in ds.eventStore && ds.eventStore[k].id == id && FromRecord(ds, events[id], ds.eventStore[k])
    ensures forall id :: id in events ==> events[id].commits == []
    ensures EventsKeyedById(ds.eventStore) ==>
              forall id :: id in events ==> FromRecord(ds, events[id], ds.eventStore[id])
  {
    IterationOrderMembers(eventOrder, ds.eventStore.Keys);
    events := map[];
    for i := 0 to |eventOrder|
      invariant forall j :: 0 <= j < i ==> ds.eventStore[eventOrder[j]].id in events
      invariant forall id :: id in events ==> KeptLast(ds, eventOrder[..i], events, id)
      invariant forall id :: id in events ==> events[id].commits == []
    {
      var rec := ds.eventStore[eventOrder[i]];
      var entry := EnrichedEvent(rec.id, rec.eventType,
                                 Lookup(ds.actorStore, rec.actorId),
                                 Lookup(ds.repoStore, rec.repoId), []);
      KeptLastStep(ds, eventOrder, i, events, entry, events[rec.id := entry]);
      events := events[rec.id := entry];
    }
    assert eventOrder[..|eventOrder|] == eventOrder;
    LastRecordsAreRecords(ds, eventOrder, events);
    AllRecordsIndexed(ds, eventOrder, events);
    KeyedEntries(ds, events);
  }

  /** Storing the entry made from the record at position `i` keeps the loop's invariants: every
      record visited so far has an entry, made from the last record visited with its identifier,
      and no entry has commits yet. */
  lemma KeptLastStep(ds: DataStore, order: seq<string>, i: nat, events: map<string, EnrichedEvent>,
                     entry: EnrichedEvent, events': map<string, EnrichedEvent>)
    requires i < |order| && forall j :: 0 <= j < |order| ==> order[j] in ds.eventStore
    requires forall j :: 0 <= j < i ==> ds.eventStore[order[j]].id in events
    requires forall id :: id in events ==> KeptLast(ds, order[..i], events, id)
    requires forall id :: id in events ==> events[id].commits == []
    requires FromRecord(ds, entry, ds.eventStore[order[i]]) && entry.commits == []
    requires events' == events[entry.id := entry]
    ensures forall j :: 0 <= j < i + 1 ==> ds.eventStore[order[j]].id in events'
    ensures forall id :: id in events' ==> KeptLast(ds, order[..i + 1], events', id)
    ensures forall id :: id in events' ==> events'[id].commits == []
  {
    assert order[..i + 1][..i] == order[..i];
  }

  /** Every entry made from a last record is made from some record carrying its identifier. */
  lemma LastRecordsAreRecords(ds: DataStore, order: seq<string>, events: map<string, EnrichedEvent>)
    requires forall id :: id in events ==> KeptLast(ds, order, events, id)
    ensures forall id :: id in events ==>
              exists k :: k in ds.eventStore && ds.eventStore[k].id == id && FromRecord(ds, events[id], ds.eventStore[k])
  {
    forall id | id in events
      ensures exists k :: k in ds.eventStore && ds.eventStore[k].id == id && FromRecord(ds, events[id], ds.eventStore[k])
    {
      assert KeptLast(ds, order, events, id);
      LastRecordPosition(ds.eventStore, order, id);
      var p :| 0 <= p < |order| && order[p] in ds.eventStore && LastRecord(ds.eventStore, order, id) == Some(ds.eventStore[order[p]])
               && ds.eventStore[order[p]].id == id
               && forall j :: p < j < |order| && order[j] in ds.eventStore ==> ds.eventStore[order[j]].id != id;
      assert FromRecord(ds, events[id], ds.eventStore[order[p]]);
    }
  }

  /** With every record stored under its own identifier, the record an entry comes from is the
      one stored under the entry's identifier. */
  lemma KeyedEntries(ds: DataStore, events: map<string, EnrichedEvent>)
    requires forall id :: id in events ==>
               exists k :: k in ds.eventStore && ds.eventStore[k].id == id && FromRecord(ds, events[id], ds.eventStore[k])
    ensures EventsKeyedById(ds.eventStore) ==>
              forall id :: id in events ==> FromRecord(ds, events[id], ds.eventStore[id])
  {
    if EventsKeyedById(ds.eventStore) {
      forall id | id in events
        ensures FromRecord(ds, events[id], ds.eventStore[id])
      {
        var k :| k in ds.eventStore && ds.eventStore[k].id == id && FromRecord(ds, events[id], ds.eventStore[k]);
        assert k == id;
      }
    }
  }

  /** Visiting one more commit extends the list of the event it names, and only that one. */
  lemma CommitsForStep(store: map<string, Commit>, order: seq<string>, i: nat)
    requires i < |order| && order[i] in store
    ensures forall id :: CommitsFor(store, order[..i + 1], id) ==
              CommitsFor(store, order[..i], id) + if store[order[i]].eventId == id then [store[order[i]]] else []
  {
    assert order[..i + 1][..i] == order[..i];
  }

  lemma AllRecordsIndexed(ds: DataStore, eventOrder: seq<string>, events: map<string, EnrichedEvent>)
    requires IsIterationOrder(eventOrder, ds.eventStore.Keys)
    requires forall j :: 0 <= j < |eventOrder| ==> ds.eventStore[eventOrder[j]].id in events
    requires forall id :: id in events ==> exists k :: k in ds.eventStore && ds.eventStore[k].id == id
    ensures events.Keys == RecordIds(ds.eventStore)
  {
    forall k | k in ds.eventStore
      ensures ds.eventStore[k].id in events
    {
      assert k in (set k | k in eventOrder);
    }
  }

  /** The second loop of BuildEvents: every commit, visited in `commitOrder`, is appended to the
      event its `eventId` names, when there is one; the others are dropped. */
  method AttachCommits(store: map<string, Commit>, commitOrder: seq<string>,
                       events: map<string, EnrichedEvent>) returns (attached: map<string, EnrichedEvent>)
    requires IsIterationOrder(commitOrder, store.Keys)
    requires forall id :: id in events ==> events[id].commits == []
    ensures attached.Keys == events.Keys
    ensures forall id :: id in events ==>
              attached[id] == events[id].(commits := CommitsFor(store, commitOrder, id))
  {
    IterationOrderMembers(commitOrder, store.Keys);
    attached := events;
    for i := 0 to |commitOrder|
      invariant attached.Keys == events.Keys
      invariant forall id :: id in events ==>
                  attached[id] == events[id].(commits := CommitsFor(store, commitOrder[..i], id))
    {
      var commit := store[commitOrder[i]];
      CommitsForStep(store, commitOrder, i);
      if commit.eventId in attached {
        var event := attached[commit.eventId];
        attached := attached[commit.eventId := event.(commits := event.commits + [commit])];
      }
    }
    assert commitOrder[..|commitOrder|] == commitOrder;
  }

  // ----- What the join promises: exact, order-free commit lists -----

  /** 1 for each store key under which `c` is stored as a commit of event `id`. */
  ghost function CopiesOf(store: map<string, Commit>, c: Commit, id: string): string -> nat
  {
    k => if k in store && store[k] == c && c.eventId == id then 1 else 0
  }

  /** A commit occurs in an event's list once per store entry that holds it and names the event. */
  lemma {:induction false} CommitsForMultiplicity(store: map<string, Commit>, order: seq<string>,
                                                  id: string, c: Commit)
    ensures multiset(CommitsFor(store, order, id))[c] == SumBy(order, CopiesOf(store, c, id))
  {
    if order != [] {
      CommitsForMultiplicity(store, order[..|order| - 1], id, c);
    }
  }

  /** The commits attached to an event do not depend on the order the commit store is visited
      in, up to their order within the event. */
  lemma CommitsForOrderIndependent(store: map<string, Commit>, order1: seq<string>,
                                   order2: seq<string>, id: string)
    requires IsIterationOrder(order1, store.Keys) && IsIterationOrder(order2, store.Keys)
    ensures multiset(CommitsFor(store, order1, id)) == multiset(CommitsFor(store, order2, id))
  {
    IterationOrdersArePermutations(order1, order2, store.Keys);
    forall c
      ensures multiset(CommitsFor(store, order1, id))[c] == multiset(CommitsFor(store, order2, id))[c]
    {
      CommitsForMultiplicity(store, order1, id, c);
      CommitsForMultiplicity(store, order2, id, c);
      SumByPermutation(order1, order2, CopiesOf(store, c, id));
    }
  }

  /** The commits in the store whose event identifier is `id`. */
  ghost function MatchingCommits(store: map<string, Commit>, id: string): set<Commit>
  {
    set k | k in store && store[k].eventId == id :: store[k]
  }

  /** The commits that the visited keys `order` hold for event `id`. */
  ghost function VisitedMatching(store: map<string, Commit>, order: seq<string>, id: string): set<Commit>
  {
    set k | k in order && k in store && store[k].eventId == id :: store[k]
  }

  lemma {:induction false} CommitsForPrefix(store: map<string, Commit>, order: seq<string>, id: string)
    requires CommitsKeyedBySha(store) && Distinct(order)
    ensures multiset(CommitsFor(store, order, id)) == multiset(VisitedMatching(store, order, id))
  {
    if order != [] {
      var rest := order[..|order| - 1];
      DistinctPrefix(order);
      CommitsForPrefix(store, rest, id);
      VisitedMatchingStep(store, rest, order[|order| - 1], id);
      assert order == rest + [order[|order| - 1]];
    }
  }

  /** Visiting one more key `last`, unseen so far, adds the commit it holds for `id`, if any. */
  lemma VisitedMatchingStep(store: map<string, Commit>, rest: seq<string>, last: string, id: string)
    requires CommitsKeyedBySha(store) && last !in rest
    requires multiset(CommitsFor(store, rest, id)) == multiset(VisitedMatching(store, rest, id))
    ensures multiset(CommitsFor(store, rest + [last], id)) == multiset(VisitedMatching(store, rest + [last], id))
  {
    var order := rest + [last];
    assert order[..|order| - 1] == rest;
    var visited := CommitsFor(store, rest, id);
    if last in store && store[last].eventId == id {
      var c := store[last];
      assert CommitsFor(store, order, id) == visited + [c];
      assert multiset(visited + [c]) == multiset(visited) + multiset{c};
      VisitedMatchingAdd(store, rest, last, id);
      MultisetOfSetInsert(VisitedMatching(store, rest, id), c);
    } else {
      assert CommitsFor(store, order, id) == visited;
      VisitedMatchingSkip(store, rest, last, id);
    }
  }

  lemma VisitedMatchingAdd(store: map<string, Commit>, rest: seq<string>, last: string, id: string)
    requires CommitsKeyedBySha(store) && last !in rest
    requires last in store && store[last].eventId == id
    ensures VisitedMatching(store, rest + [last], id) == VisitedMatching(store, rest, id) + {store[last]}
    ensures store[last] !in VisitedMatching(store, rest, id)
  {
    assert forall k :: k in rest + [last] <==> k in rest || k == last;
  }

  lemma VisitedMatchingSkip(store: map<string, Commit>, rest: seq<string>, last: string, id: string)
    requires !(last in store && store[last].eventId == id)
    ensures VisitedMatching(store, rest + [last], id) == VisitedMatching(store, rest, id)
  {
    assert forall k :: k in rest + [last] <==> k in rest || k == last;
  }

  lemma MultisetOfSetInsert<T>(s: set<T>, v: T)
    requires v !in s
    ensures multiset(s + {v}) == multiset(s) + multiset{v}
  {
    forall x
      ensures multiset(s + {v})[x] == (multiset(s) + multiset{v})[x]
    {
    }
  }

  /** In a store keyed by SHA, an event's list holds every commit naming it, each exactly once. */
  lemma CommitsForAreMatching(store: map<string, Commit>, order: seq<string>, id: string)
    requires CommitsKeyedBySha(store) && IsIterationOrder(order, store.Keys)
    ensures multiset(CommitsFor(store, order, id)) == multiset(MatchingCommits(store, id))
  {
    CommitsForPrefix(store, order, id);
    assert VisitedMatching(store, order, id) == MatchingCommits(store, id) by {
      forall k | k in store
        ensures k in order
      {
        assert k in (set k | k in order);
      }
    }
  }

  /** An event that no commit names keeps an empty commit list. */
  lemma {:induction false} CommitsForUnnamedEvent(store: map<string, Commit>, order: seq<string>, id: string)
    requires forall k :: k in store ==> store[k].eventId != id
    ensures CommitsFor(store, order, id) == []
  {
    if order != [] {
      CommitsForUnnamedEvent(store, order[..|order| - 1], id);
    }
  }

  /** The number of commits attached to event `id`. */
  ghost function AttachedCount(store: map<string, Commit>, order: seq<string>): string -> nat
  {
    id => |CommitsFor(store, order, id)|
  }

  /** 1 for a commit key whose commit names one of `ids`. */
  ghost function NamesOneOf(store: map<string, Commit>, ids: seq<string>): string -> nat
  {
    k => if k in store && store[k].eventId in ids then 1 else 0
  }

  /** Summed over a duplicate-free list of event identifiers, the attached commits are exactly
      the visited commits that name one of them: every other commit is dropped. */
  lemma {:induction false} AttachedTotal(store: map<string, Commit>, order: seq<string>, ids: seq<string>)
    requires Distinct(ids)
    requires forall i :: 0 <= i < |order| ==> order[i] in store
    ensures SumBy(ids, AttachedCount(store, order)) == SumBy(order, NamesOneOf(store, ids))
  {
    if order == [] {
      SumByPointwise(ids, AttachedCount(store, order), x => 0);
      SumByZero(ids);
    } else {
      var last := order[|order| - 1];
      var rest := order[..|order| - 1];
      AttachedTotal(store, rest, ids);
      forall i | 0 <= i < |ids|
        ensures AttachedCount(store, order)(ids[i])
             == AttachedCount(store, rest)(ids[i]) + Indicator(store[last].eventId)(ids[i])
      {
      }
      SumByAdd(ids, AttachedCount(store, order), AttachedCount(store, rest), Indicator(store[last].eventId));
      SumByIndicator(ids, store[last].eventId);
    }
  }

  // ----- The same promises, stated of what BuildEvents returns -----

  /** The two joins have the same entries, up to the order of the commits within each. */
  ghost predicate SameUpToCommitOrder(events1: map<string, EnrichedEvent>, events2: map<string, EnrichedEvent>)
  {
    && events1.Keys == events2.Keys
    && forall id :: id in events1 ==>
         && events1[id].(commits := []) == events2[id].(commits := [])
         && multiset(events1[id].commits) == multiset(events2[id].commits)
  }

  /** Two runs of the join over the same stores, with the commit store visited in different
      orders, agree on every entry up to the order of commits within an event. */
  lemma JoinOrderIndependent(ds: DataStore, commitOrder1: seq<string>, events1: map<string, EnrichedEvent>,
                             commitOrder2: seq<string>, events2: map<string, EnrichedEvent>)
    requires EventsKeyedById(ds.eventStore)
    requires IsIterationOrder(commitOrder1, ds.commitStore.Keys) && Joined(ds, commitOrder1, events1)
    requires IsIterationOrder(commitOrder2, ds.commitStore.Keys) && Joined(ds, commitOrder2, events2)
    ensures SameUpToCommitOrder(events1, events2)
  {
    KeyedEntries(ds, events1);
    KeyedEntries(ds, events2);
    forall id | id in events1
      ensures events1[id].(commits := []) == events2[id].(commits := [])
      ensures multiset(events1[id].commits) == multiset(events2[id].commits)
    {
      SameRecordSameEntry(ds, ds.eventStore[id], events1[id], events2[id]);
      CommitsForOrderIndependent(ds.commitStore, commitOrder1, commitOrder2, id);
    }
  }

  /** Two entries made from the same record differ at most in their commits. */
  lemma SameRecordSameEntry(ds: DataStore, rec: Event, e1: EnrichedEvent, e2: EnrichedEvent)
    requires FromRecord(ds, e1, rec) && FromRecord(ds, e2, rec)
    ensures e1.(commits := []) == e2.(commits := [])
  {
  }

  /** With the store keyed by SHA, each event holds every commit that names it, once each. */
  lemma JoinedCommitsAreMatching(ds: DataStore, commitOrder: seq<string>,
                                 events: map<string, EnrichedEvent>, id: string)
    requires CommitsKeyedBySha(ds.commitStore) && IsIterationOrder(commitOrder, ds.commitStore.Keys)
    requires Joined(ds, commitOrder, events) && id in events
    ensures multiset(events[id].commits) == multiset(MatchingCommits(ds.commitStore, id))
  {
    CommitsForAreMatching(ds.commitStore, commitOrder, id);
  }

  /** An event that no commit names ends up with no commits. */
  lemma JoinedEventWithoutCommits(ds: DataStore, commitOrder: seq<string>,
                                  events: map<string, EnrichedEvent>, id: string)
    requires Joined(ds, commitOrder, events) && id in events
    requires forall k :: k in ds.commitStore ==> ds.commitStore[k].eventId != id
    ensures |events[id].commits| == 0
  {
    CommitsForUnnamedEvent(ds.commitStore, commitOrder, id);
  }

  /** The number of commits an entry holds. */
  ghost function CommitCountIn(events: map<string, EnrichedEvent>): string -> nat
  {
    id => if id in events then |events[id].commits| else 0
  }

  /** Over all events, the attached commits number exactly the commits whose event identifier
      is a key of the result: a commit naming no event is dropped, and none is attached twice. */
  lemma JoinedCommitTotal(ds: DataStore, commitOrder: seq<string>, events: map<string, EnrichedEvent>,
                          ids: seq<string>)
    requires IsIterationOrder(commitOrder, ds.commitStore.Keys) && Joined(ds, commitOrder, events)
    requires IsIterationOrder(ids, events.Keys)
    ensures SumBy(ids, CommitCountIn(events)) == SumBy(commitOrder, NamesOneOf(ds.commitStore, ids))
    ensures forall k :: k in ds.commitStore ==> (NamesOneOf(ds.commitStore, ids)(k) == 1 <==> ds.commitStore[k].eventId in events)
  {
    forall i | 0 <= i < |ids|
      ensures CommitCountIn(events)(ids[i]) == AttachedCount(ds.commitStore, commitOrder)(ids[i])
    {
      assert ids[i] in (set k | k in ids);
    }
    SumByPointwise(ids, CommitCountIn(events), AttachedCount(ds.commitStore, commitOrder));
    forall i | 0 <= i < |commitOrder|
      ensures commitOrder[i] in ds.commitStore
    {
      assert commitOrder[i] in (set k | k in commitOrder);
    }
    AttachedTotal(ds.commitStore, commitOrder, ids);
    forall k | k in ds.commitStore
      ensures NamesOneOf(ds.commitStore, ids)(k) == 1 <==> ds.commitStore[k].eventId in events
    {
      var e := ds.commitStore[k].eventId;
      assert (e in ids) == (e in (set k | k in ids));
    }
  }
}
