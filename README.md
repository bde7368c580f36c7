# github-data-analyzer, modelled in Dafny

github-data-analyzer loads four record stores from a GitHub event dump: actors, commits, events
and repositories. It then ranks users and repositories.

The analysis runs in four stages, and this project models each of them:

1. **Join** (`service.BuildEvents`). Each event record becomes an enriched event. Its actor and
   repository are resolved by lookup; a lookup that fails leaves a nil pointer. Every commit is
   then appended to the event its `EventID` names, when that event exists.
2. **Aggregation** (`indexUsers`, `indexRepos`). A fold over the enriched events keeps one
   aggregate per actor (or per repository). The aggregate holds a commit count and a count per
   event type. It is created the first time its entity is seen and is updated in place after that.
3. **Top-N** (`GetTopUsers`, `GetTopRepos`). Every aggregate is pushed onto a heap ordered by a
   caller-supplied `less`. The heap is then popped `limit` times. The heap's element operations
   are `Swap`, `Len`, `Push`, `Pop` and `Less` on a slice.
4. **Comparators**:
   - The `users` command folds `wrap` over its `--sort` fields. The fold starts from a comparator
     that always answers true.
   - The `repos` command picks a comparator by a single field, or reports `invalid sort field`.
   - The `all` command uses three fixed comparators.

How the Go constructs are modelled:

- A nil pointer is `None`.
- A `range` over a Go map visits its keys in an order the program does not control. Each loop
  over a map takes that order as a parameter `order` satisfying `IsIterationOrder(order, m.Keys)`:
  every key exactly once.
- Commit lists are compared as multisets, since they depend on that order.
- The loops stay loops, and each loop method is proved against a specification function:
  - `CommitsFor` for the commit join;
  - `AggregatesFor` / `IsUserIndex` for the folds;
  - `SortFn` for `getSortFunction`.
- The heap is a class whose `items` field is the slice.
- Go's `container/heap` is not part of this model. `HeapPush` and `HeapPop` stand for it.
  `sort.Interface`, which the heap relies on, asks that `Less` describe a weak order. The model
  states its ranking properties only for such an order (`WeakOrder`: transitive, and "not before"
  is transitive too). Then Pop removes an element that no remaining element ranks strictly above,
  where "ranks strictly above" is `less(x, y) && !less(y, x)`. For any other comparator the library
  promises nothing, and the model promises no ranking.
- Every comparator the program builds is a weak order: `UsersCmd.SortFnIsWeakOrder`,
  `ReposCmd.SelectedSortIsStrict`, `AllCmd.UsersByPullRequestsIsStrict` and
  `AllCmd.RepoComparatorsAreStrict`. There are two kinds:
  - the strict orders of `repos` and `all`;
  - the total preorders of `users`, whose comparators answer true on ties.

Quirks of the program that the model keeps:

- The comparators `getSortFunction` builds answer true on full ties. It never reports an error.
- Its default sort value `"prs,commits"` matches no field, so by default every pair is in order
  (`UsersCmd.DefaultSortIsConstant`).
- The `repos` default `"commits"` is rejected, because matching is case-sensitive
  (`ReposCmd.DefaultSortIsRejected`).

Files:

| file | contents |
|---|---|
| `wrappers.dfy` | `Option` and `Result` |
| `collections.dfy` | iteration orders, sums over them, Go's map reads |
| `comparators.dfy` | ranking vocabulary |
| `entities.dfy` | the stored records |
| `strings.dfy` | `strings.Contains` |
| `service.dfy` | the join |
| `users.dfy`, `repos.dfy` | the aggregates and their heaps |
| `user_analyzer.dfy`, `repo_analyzer.dfy` | fold and top-N |
| `users_cmd.dfy`, `repos_cmd.dfy`, `all_cmd.dfy` | the comparators of the three commands |

## Model

| member | source | states |
|---|---|---|
| Service.BuildEvents | service/event_handler.go:33-58 | the result has one entry per identifier carried by an event record; each entry keeps the ID and Type of such a record and its resolved actor and repository (`None` when the key dangles); each holds exactly the commits naming it, in the order the commit store is visited; each entry is made from its ID's `LastRecord` in the event visiting order; with the event store keyed by ID, the record is the one under the entry's key |
| Service.IndexEvents | service/event_handler.go:37-46 | the first loop fills the map under the record's ID, and a later record with the same ID replaces the earlier one: each entry is made from `LastRecord`, the record at the last position of the visiting order that carries its ID; every entry comes from a record with that ID, resolves actor and repository by lookup and has no commits yet |
| Service.AttachCommits | service/event_handler.go:48-55 | the second loop keeps the key set and changes only commit lists; each becomes the commits that name its event, in visiting order; commits naming no event are dropped |
| Service.CommitsForMultiplicity | service/event_handler.go:48-55 | a commit occurs in an event's list once for each store entry that holds it and names the event |
| Service.CommitsForOrderIndependent | service/event_handler.go:48 | any two visiting orders of the commit store give the same commits per event, as multisets |
| Service.CommitsForAreMatching | service/event_handler.go:48-55 | with the commit store keyed by SHA, an event's commits are exactly the stored commits whose EventID is the event's ID, each once |
| Service.CommitsForUnnamedEvent | service/event_handler.go:50-53 | an event that no commit names gets an empty commit list |
| Service.AttachedTotal | service/event_handler.go:49 | summed over a duplicate-free list of event IDs, the attached commits are exactly the visited commits naming one of those IDs |
| Service.JoinOrderIndependent | service/event_handler.go:37-55 | over an event store keyed by ID, two joins of the same stores have the same keys and the same entries, up to the order of commits within each event, whatever orders the event store and the commit store are visited in (`Joined` holds for every event visiting order) |
| Service.LastRecordPosition | service/event_handler.go:37-46 | `LastRecord` finds a record exactly when some visited record carries the ID; it is then the record at a position after which no visited record carries that ID |
| Service.JoinedCommitsAreMatching | service/event_handler.go:48-55 | with the commit store keyed by SHA, in the join's result each event's commits are, as a multiset, the commits naming it, each once |
| Service.JoinedEventWithoutCommits | service/event_handler.go:50-53 | in the join's result, an event with no matching commits has a commit list of length 0 |
| Service.JoinedCommitTotal | service/event_handler.go:49-53 | the commits attached over all events add up to the number of stored commits whose EventID is a key of the result |
| UserAnalyzer.IndexUsers | domain/user/analyzer.go:24-44 | the fold has one aggregate per actor ID of an event with a resolved actor; its ID and username come from the first such event visited; its commit count is the sum of the commit-list lengths of the actor's events; it counts each event type exactly as often as the actor's events have it, with no entry for a type it never saw; every stored count is at least 1 |
| UserAnalyzer.UserIndexSkip | domain/user/analyzer.go:27-29 | an event without an actor leaves the index unchanged and contributes nothing |
| UserAnalyzer.UserIndexVisit | domain/user/analyzer.go:30-40 | an event with an actor creates that actor's aggregate or updates it with its commits and one more event of its type; every other aggregate stays exact |
| UserAnalyzer.VisitSameActor | domain/user/analyzer.go:39-40 | whether the aggregate was found or freshly made, the updated one aggregates one more visited event |
| UserAnalyzer.FirstActorNone | domain/user/analyzer.go:31-36 | an actor not yet seen has no aggregate contributions, so a fresh zero aggregate is exact |
| UserAnalyzer.UserIndexComplete | domain/user/analyzer.go:26-43 | after the whole map is visited, the key set is the set of actor IDs of all events, and every stored count is at least 1 |
| UserAnalyzer.AttributedOnce | domain/user/analyzer.go:26-41 | an event whose actor resolved is counted in its own actor's aggregate and in no other, and an event without an actor in none |
| UserAnalyzer.UserCommitTotal | domain/user/analyzer.go:26-43 | summed over all aggregates, the commit counts equal the total commit-list length of the events whose actor resolved |
| UserAnalyzer.UserTypeTotal | domain/user/analyzer.go:26-43 | summed over all aggregates, the count of an event type equals the number of events of that type whose actor resolved |
| UserAnalyzer.JoinedActorsConsistent | service/event_handler.go:41 | with the actor store keyed by ID, the join resolves one actor per actor ID |
| UserAnalyzer.UserIndexOrderIndependent | domain/user/analyzer.go:26-40 | two folds over events that are equal up to commit order, in any two visiting orders, build the same map |
| UserAnalyzer.GetTopUsers | domain/user/analyzer.go:47-60 | the result has exactly `limit` aggregates, none occurring more often than in the map; when `fn` is a weak order it is ranked, and no aggregate left out ranks strictly above a returned one |
| UserAnalyzer.PopTop | domain/user/analyzer.go:54-57 | `limit` pops take from the heap exactly what they return; when `less` is a weak order they return, in order, elements that nothing left in the heap ranks strictly above |
| RepoAnalyzer.IndexRepos | domain/repo/analyzer.go:24-43 | the fold has one aggregate per repository ID of an event with a resolved repository; its name comes from the first such event; it sums the commits and counts the event types of that repository's events; every stored count is at least 1 |
| RepoAnalyzer.RepoIndexSkip | domain/repo/analyzer.go:27-29 | an event without a repository leaves the index unchanged |
| RepoAnalyzer.RepoIndexVisit | domain/repo/analyzer.go:30-40 | an event with a repository creates or updates that repository's aggregate; every other aggregate stays exact |
| RepoAnalyzer.VisitSameRepo | domain/repo/analyzer.go:39-40 | the updated aggregate aggregates one more visited event |
| RepoAnalyzer.FirstRepoNone | domain/repo/analyzer.go:31-36 | a repository not yet seen has no contributions |
| RepoAnalyzer.RepoIndexComplete | domain/repo/analyzer.go:26-42 | after the whole map is visited, the key set is the set of repository IDs of all events, and every stored count is at least 1 |
| RepoAnalyzer.AttributedOnce | domain/repo/analyzer.go:26-40 | an event whose repository resolved is counted in its own repository's aggregate and in no other, and an event without a repository in none |
| RepoAnalyzer.RepoCommitTotal | domain/repo/analyzer.go:26-42 | summed over all aggregates, the commit counts equal the total commit-list length of the events whose repository resolved |
| RepoAnalyzer.RepoTypeTotal | domain/repo/analyzer.go:26-42 | summed over all aggregates, the count of an event type equals the number of events of that type whose repository resolved |
| RepoAnalyzer.JoinedReposConsistent | service/event_handler.go:42 | with the repository store keyed by ID, the join resolves one repository per repository ID |
| RepoAnalyzer.RepoIndexOrderIndependent | domain/repo/analyzer.go:26-40 | two folds over events that are equal up to commit order, in any two visiting orders, build the same map |
| RepoAnalyzer.GetTopRepos | domain/repo/analyzer.go:46-59 | the result has exactly `limit` aggregates of the map; when `fn` is a weak order it is ranked, and no aggregate left out ranks strictly above a returned one |
| RepoAnalyzer.PopTop | domain/repo/analyzer.go:53-56 | `limit` pops take from the heap exactly what they return; when `less` is a weak order they return, in order, elements that nothing left ranks strictly above |
| Users.UserHeap.constructor | domain/user/analyzer.go:48 | a new heap is empty and keeps the caller's `less` |
| Users.UserHeap.Swap | domain/user/user.go:15-17 | positions i and j are exchanged, every other position is unchanged, and the length and contents are kept |
| Users.UserHeap.Len | domain/user/user.go:20-22 | returns the slice length |
| Users.UserHeap.Push | domain/user/user.go:25-27 | the new slice is the old one with x appended |
| Users.UserHeap.Pop | domain/user/user.go:30-36 | on a non-empty slice, returns the old last element and leaves the old prefix |
| Users.UserHeap.Less | domain/user/user.go:45-47 | answers `less(items[i], items[j])` and changes nothing |
| Users.HeapPush | domain/user/analyzer.go:51 | the element joins the heap at the end |
| Users.HeapPop | domain/user/analyzer.go:56 | removes one element of the heap and returns it; when `less` is a weak order, no element of the heap ranks strictly above it |
| Repos.RepoHeap.constructor | domain/repo/analyzer.go:47 | a new heap is empty and keeps the caller's `less` |
| Repos.RepoHeap.Swap | domain/repo/repo.go:15-17 | exchanges positions i and j only |
| Repos.RepoHeap.Len | domain/repo/repo.go:20-22 | returns the slice length |
| Repos.RepoHeap.Push | domain/repo/repo.go:25-27 | appends x |
| Repos.RepoHeap.Pop | domain/repo/repo.go:30-36 | on a non-empty slice, returns and removes the last element and leaves the prefix |
| Repos.RepoHeap.Less | domain/repo/repo.go:45-47 | delegates to `less(items[i], items[j])` with no mutation |
| Repos.HeapPush | domain/repo/analyzer.go:50 | the element joins the heap at the end |
| Repos.HeapPop | domain/repo/analyzer.go:55 | removes one element of the heap and returns it; when `less` is a weak order, no element of the heap ranks strictly above it |
| UsersCmd.GetSortFunction | cmd/users.go:68-79 | the loop wrapping from the last field to the first builds the comparator `SortFn(fields)` and always returns a nil error |
| UsersCmd.SortFnFirstDifference | cmd/users.go:73-106 | the first field, from left to right, that is recognised and on which the users differ decides: "Commits" (exact match) by commit count, a field containing "Event" by that type's count (0 when absent), and the larger value ranks first; unrecognised fields are skipped |
| UsersCmd.SortFnOnTies | cmd/users.go:69-71 | when no recognised field tells the users apart (and for an empty field list), the comparator answers true |
| UsersCmd.SortFnReflexive | cmd/users.go:69-71 | every user is in order with itself: the comparator is not irreflexive |
| UsersCmd.SortFnTotal | cmd/users.go:82-106 | of any two users, one is in order before the other |
| UsersCmd.WrapTransitive | cmd/users.go:82-106 | wrapping a transitive comparator with a field gives a transitive comparator |
| UsersCmd.SortFnTransitive | cmd/users.go:68-79 | every composed comparator is transitive |
| UsersCmd.SortFnIsWeakOrder | cmd/users.go:68-106 | every composed comparator is a weak order, so the top-N ranking promises apply to it |
| UsersCmd.DefaultSortIsConstant | cmd/users.go:23 | the default `["prs,commits"]` (and `["prs","commits"]`) recognises no field: every pair of users is in order |
| ReposCmd.SelectRepoSort | cmd/repos.go:45-59 | "Commits" selects greater commit count; any other field containing "Event" selects greater count of that type (0 when absent); every other field is the error "invalid sort field " + field |
| ReposCmd.SelectedSortIsStrict | cmd/repos.go:47-55 | both selectable comparators are false on ties and weak orders, and ranking strictly above is the comparator itself |
| ReposCmd.DefaultSortIsRejected | cmd/repos.go:24 | the default sort value "commits" gives the error "invalid sort field commits" |
| AllCmd.UsersByPullRequestsIsLexicographic | cmd/all.go:46-53 | more PullRequestEvent events ranks first; on equal counts, more commits ranks first; a tie on both answers false |
| AllCmd.UsersByPullRequestsIsStrict | cmd/all.go:46-53 | the user comparator is irreflexive and a weak order, and ranking strictly above is the comparator itself |
| AllCmd.UsersByPullRequestsAgreesWithSortFn | cmd/all.go:46-53 | the user comparator agrees with `getSortFunction(["PullRequestEvent","Commits"])` except on full ties, where it answers false and the composed one true |
| AllCmd.RepoComparatorsAreSelectable | cmd/all.go:56-63 | the two repository comparators are the ones `repos --sort Commits` and `repos --sort WatchEvent` select: greater commit count, and greater WatchEvent count (0 when absent) |
| AllCmd.RepoComparatorsAreStrict | cmd/all.go:56-63 | both repository comparators are irreflexive and weak orders |

## Left out

- Reading the CSV files (db/datastore.go) is I/O. The four stores are given as maps, and the loader's header skipping and file errors are not modelled.
- Printing (`printUsers`, `printRepos`) and the cobra flag parsing and command wiring are not modelled. Only the default values of the `--sort` flags appear, in two lemmas.
- The internals of Go's `container/heap` (`heap.Init`, sift-up and sift-down) are not modelled. `HeapPush` appends through `Push`. `HeapPop` finds an element nothing ranks strictly above by a linear scan, moves it last with `Swap` and removes it with `Pop`. So when several elements rank equally, the one popped may differ from the library's choice. For a comparator that is not a weak order the library promises nothing, and the model promises no ranking. `heap.Init` on the empty heap does nothing and is omitted.
- The first and second loops of `BuildEvents` are the methods `IndexEvents` and `AttachCommits`, and the pop loop of `GetTopUsers`/`GetTopRepos` is the method `PopTop`. The Go code has each inline.
- Pointer aliasing is not modelled. The enriched events and the aggregates are values held in maps, and each is reassigned where Go updates it through a pointer. In Go each pointer is reachable only through its map, so no sharing is lost.
- A nil commit slice and an empty one are both the empty sequence.
- UserAnalyzer.GetTopUsers: `limit` is an unbounded `nat` rather than a `uint32`. The method requires `limit <= |userMap|`, because the Go code pops unconditionally and `heap.Pop` on an empty heap panics. A panic is not modelled.
- RepoAnalyzer.GetTopRepos: the same `nat` limit and the same precondition, for the same reason.
- ReposCmd.SelectRepoSort: the `repos` command returns the error before it loads any data. The model shows this only in that the selection depends on the field alone, and the loading step is not part of the model.
- Service.JoinOrderIndependent: requires the event store to be keyed by ID. When two records share an ID, the entry comes from the one visited last (`LastRecord`), and that depends on the visiting order.
- UserAnalyzer.UserIndexOrderIndependent: the aggregate's username comes from the first event visited for the actor. So the map is order-independent only when every event resolves an actor ID to the same actor. The lemma requires this (`ConsistentActors`), and `JoinedActorsConsistent` proves it for a join over an actor store keyed by ID. The same holds for RepoAnalyzer.RepoIndexOrderIndependent with repository names.
