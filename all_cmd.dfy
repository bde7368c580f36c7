/**
 * cmd/all.go: the three fixed comparators the `all` command ranks with: users by pull requests
 * then commits, repositories by commits, and repositories by watch events.
 */
module AllCmd {
  import opened Wrappers
  import opened Collections
  import opened Comparators
  import opened Strings
  import opened Users
  import opened Repos
  import opened UsersCmd
  import opened ReposCmd

  /** The number of pull-request events of a user (0 when absent). */
  function PullRequests(u: User): int
  {
    CountOf(u.eventTypeCount, "PullRequestEvent")
  }

  /** Users with more pull-request events first; on a tie, users with more commits first. */
  function UsersByPullRequests(ui: User, uj: User): bool
  {
    if PullRequests(ui) == PullRequests(uj) then ui.commitCount > uj.commitCount
    else if PullRequests(ui) > PullRequests(uj) then true
    else false
  }

  /** Repositories with more commits first. */
  function ReposByCommits(ri: Repo, rj: Repo): bool
  {
    ri.commitCount > rj.commitCount
  }

  /** Repositories with more watch events first (0 when absent). */
  function ReposByWatchEvents(ri: Repo, rj: Repo): bool
  {
    CountOf(ri.eventTypeCount, "WatchEvent") > CountOf(rj.eventTypeCount, "WatchEvent")
  }

  /** The user comparator is the strict lexicographic order on (pull requests, commits),
      largest first: false when both tie. */
  lemma UsersByPullRequestsIsLexicographic(ui: User, uj: User)
    ensures UsersByPullRequests(ui, uj) <==>
              PullRequests(ui) > PullRequests(uj)
              || (PullRequests(ui) == PullRequests(uj) && ui.commitCount > uj.commitCount)
    ensures PullRequests(ui) == PullRequests(uj) && ui.commitCount == uj.commitCount ==> !UsersByPullRequests(ui, uj)
  {
  }

  /** The user comparator is a strict weak order: the ranking promises of GetTopUsers apply
      to it and speak of the comparator itself. */
  lemma UsersByPullRequestsIsStrict(ui: User, uj: User)
    ensures Irreflexive(UsersByPullRequests) && WeakOrder(UsersByPullRequests)
    ensures StrictlyBefore(UsersByPullRequests, ui, uj) <==> UsersByPullRequests(ui, uj)
  {
    forall x, y, z | UsersByPullRequests(x, y) && UsersByPullRequests(y, z)
      ensures UsersByPullRequests(x, z)
    {
      UsersByPullRequestsIsLexicographic(x, y);
      UsersByPullRequestsIsLexicographic(y, z);
      UsersByPullRequestsIsLexicographic(x, z);
    }
    forall x, y, z | !UsersByPullRequests(x, y) && !UsersByPullRequests(y, z)
      ensures !UsersByPullRequests(x, z)
    {
      UsersByPullRequestsIsLexicographic(x, y);
      UsersByPullRequestsIsLexicographic(y, z);
      UsersByPullRequestsIsLexicographic(x, z);
    }
    StrictOrderIsItsOwnStrictPart(UsersByPullRequests, ui, uj);
  }

  /** The user comparator is what `users --sort PullRequestEvent,Commits` would build, except on
      users that tie on both fields: there it answers false and the built one true. */
  lemma UsersByPullRequestsAgreesWithSortFn(ui: User, uj: User)
    ensures PullRequests(ui) != PullRequests(uj) || ui.commitCount != uj.commitCount ==>
              UsersByPullRequests(ui, uj) == SortFn(["PullRequestEvent", "Commits"])(ui, uj)
    ensures PullRequests(ui) == PullRequests(uj) && ui.commitCount == uj.commitCount ==>
              !UsersByPullRequests(ui, uj) && SortFn(["PullRequestEvent", "Commits"])(ui, uj)
  {
    var fields := ["PullRequestEvent", "Commits"];
    assert OccursAt("PullRequestEvent", "Event", 11);
    assert fields[0] != "Commits";
    assert FieldKey(fields[0], ui) == Some(PullRequests(ui)) && FieldKey(fields[0], uj) == Some(PullRequests(uj));
    assert FieldKey(fields[1], ui) == Some(ui.commitCount) && FieldKey(fields[1], uj) == Some(uj.commitCount);
    if PullRequests(ui) != PullRequests(uj) {
      SortFnFirstDifference(fields, 0, ui, uj);
    } else if ui.commitCount != uj.commitCount {
      SortFnFirstDifference(fields, 1, ui, uj);
    } else {
      SortFnOnTies(fields, ui, uj);
    }
  }

  /** The two repository comparators are the ones `repos --sort Commits` and
      `repos --sort WatchEvent` select, so they are strict orders too. */
  lemma RepoComparatorsAreSelectable(ri: Repo, rj: Repo)
    ensures SelectRepoSort("Commits").Success? && SelectRepoSort("Commits").value(ri, rj) == ReposByCommits(ri, rj)
    ensures SelectRepoSort("WatchEvent").Success? && SelectRepoSort("WatchEvent").value(ri, rj) == ReposByWatchEvents(ri, rj)
  {
    assert OccursAt("WatchEvent", "Event", 5);
    assert "WatchEvent"[0] != "Commits"[0];
  }

  /** Both repository comparators are strict weak orders. */
  lemma RepoComparatorsAreStrict()
    ensures Irreflexive(ReposByCommits) && WeakOrder(ReposByCommits)
    ensures Irreflexive(ReposByWatchEvents) && WeakOrder(ReposByWatchEvents)
  {
  }
}
