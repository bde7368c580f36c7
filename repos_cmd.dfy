/**
 * cmd/repos.go: the comparator the `repos` command selects from its single `--sort` field.
 * Unlike the users command, an unknown field is an error, reported before any data is loaded.
 */
module ReposCmd {
  import opened Wrappers
  import opened Collections
  import opened Comparators
  import opened Repos
  import opened Strings

  /** The repository with more commits ranks first. */
  function ByCommits(ri: Repo, rj: Repo): bool
  {
    ri.commitCount > rj.commitCount
  }

  /** The repository with more events of type `field` ranks first (an absent type counts 0). */
  function ByEventCount(field: string): (Repo, Repo) -> bool
  {
    (ri: Repo, rj: Repo) => CountOf(ri.eventTypeCount, field) > CountOf(rj.eventTypeCount, field)
  }

  /** The switch of getTopRepos: "Commits" (exactly), a field containing "Event", or the error. */
  function SelectRepoSort(field: string): (r: Result<(Repo, Repo) -> bool, string>)
    ensures r.Failure? <==> field != "Commits" && !Contains(field, "Event")
    ensures r.Failure? ==> r.error == "invalid sort field " + field
    ensures field == "Commits" ==> r.Success? && forall ri, rj :: r.value(ri, rj) == (ri.commitCount > rj.commitCount)
    ensures field != "Commits" && Contains(field, "Event") ==>
              r.Success? && forall ri, rj :: r.value(ri, rj) == (CountOf(ri.eventTypeCount, field) > CountOf(rj.eventTypeCount, field))
  {
    if field == "Commits" then Success(ByCommits)
    else if Contains(field, "Event") then Success(ByEventCount(field))
    else Failure("invalid sort field " + field)
  }

  /** Both comparators the switch can select are false on ties and strict weak orders, for
      which the ranking promises of GetTopRepos hold and speak of the comparator itself. */
  lemma SelectedSortIsStrict(field: string, u: Repo, v: Repo)
    requires SelectRepoSort(field).Success?
    ensures Irreflexive(SelectRepoSort(field).value) && WeakOrder(SelectRepoSort(field).value)
    ensures StrictlyBefore(SelectRepoSort(field).value, u, v) <==> SelectRepoSort(field).value(u, v)
  {
    StrictOrderIsItsOwnStrictPart(SelectRepoSort(field).value, u, v);
  }

  /** The command's default sort value, "commits", is not "Commits": by default the command fails. */
  lemma DefaultSortIsRejected()
    ensures SelectRepoSort("commits") == Failure("invalid sort field commits")
  {
    NoEvent("commits");
    assert "commits"[0] != "Commits"[0];
    assert "invalid sort field " + "commits" == "invalid sort field commits";
  }
}
