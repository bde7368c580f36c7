/**
 * cmd/users.go: the comparator the `users` command builds from its `--sort` fields.
 * `getSortFunction` folds `wrap` over the fields from the last to the first, starting from a
 * comparator that always answers true, so the first field is the most significant one.
 */
module UsersCmd {
  import opened Wrappers
  import opened Collections
  import opened Comparators
  import opened Users
  import opened Strings

  /** The comparator getSortFunction starts from: every pair is in order. */
  function AlwaysBefore(ui: User, uj: User): bool
  {
    true
  }

  /** wrap: a field that decides on the users' difference in that field and defers to `f` on a tie.
      "Commits" (exactly) compares commit counts, a field containing "Event" compares the count of
      that event type (0 when absent) and any other field leaves `f` as it is. */
  function Wrap(f: (User, User) -> bool, field: string): (User, User) -> bool
  {
    if field == "Commits" then
      (ui: User, uj: User) =>
        if ui.commitCount == uj.commitCount then f(ui, uj)
        else if ui.commitCount > uj.commitCount then true
        else false
    else if Contains(field, "Event") then
      (ui: User, uj: User) =>
        if CountOf(ui.eventTypeCount, field) == CountOf(uj.eventTypeCount, field) then f(ui, uj)
        else if CountOf(ui.eventTypeCount, field) > CountOf(uj.eventTypeCount, field) then true
        else false
    else
      f
  }

  /** The comparator getSortFunction returns for `fields`: the first field wraps all the others. */
  function SortFn(fields: seq<string>): (User, User) -> bool
  {
    if fields == [] then AlwaysBefore else Wrap(SortFn(fields[1..]), fields[0])
  }

  /** getSortFunction: wraps the comparator once per field, from the last field to the first.
      It never reports an error. */
  method GetSortFunction(fields: seq<string>) returns (fn: (User, User) -> bool, err: Option<string>)
    ensures forall ui, uj :: fn(ui, uj) == SortFn(fields)(ui, uj)
    ensures err == None
  {
    fn := AlwaysBefore;
    for i := |fields| downto 0
      invariant forall ui, uj :: fn(ui, uj) == SortFn(fields[i..])(ui, uj)
    {
      WrapPointwise(fn, SortFn(fields[i + 1..]), fields[i]);
      assert fields[i..][1..] == fields[i + 1..];
      fn := Wrap(fn, fields[i]);
    }
    assert fields[0..] == fields;
    err := None;
  }

  /** Wrapping comparators that agree gives comparators that agree. */
  lemma WrapPointwise(f: (User, User) -> bool, g: (User, User) -> bool, field: string)
    requires forall ui, uj :: f(ui, uj) == g(ui, uj)
    ensures forall ui, uj :: Wrap(f, field)(ui, uj) == Wrap(g, field)(ui, uj)
  {
  }

  // ----- What the composed comparator means -----

  /** The value a field compares, or None for a field wrap skips. */
  function FieldKey(field: string, u: User): Option<int>
  {
    if field == "Commits" then Some(u.commitCount)
    else if Contains(field, "Event") then Some(CountOf(u.eventTypeCount, field))
    else None
  }

  /** The two users differ on field `field`, and the field is one wrap recognises. */
  predicate DiffersOn(field: string, ui: User, uj: User)
  {
    FieldKey(field, ui).Some? && FieldKey(field, ui) != FieldKey(field, uj)
  }

  /** The first recognised field on which the users differ decides: the user with the larger
      value ranks first. */
  lemma {:induction false} SortFnFirstDifference(fields: seq<string>, i: nat, ui: User, uj: User)
    requires i < |fields| && DiffersOn(fields[i], ui, uj)
    requires forall j :: 0 <= j < i ==> !DiffersOn(fields[j], ui, uj)
    ensures SortFn(fields)(ui, uj) == (FieldKey(fields[i], ui).value > FieldKey(fields[i], uj).value)
  {
    if i > 0 {
      assert !DiffersOn(fields[0], ui, uj);
      forall j | 0 <= j < i - 1
        ensures !DiffersOn(fields[1..][j], ui, uj)
      {
        assert fields[1..][j] == fields[j + 1];
      }
      SortFnFirstDifference(fields[1..], i - 1, ui, uj);
    }
  }

  /** When no recognised field tells the users apart (in particular for an empty list), the
      comparator answers true. */
  lemma {:induction false} SortFnOnTies(fields: seq<string>, ui: User, uj: User)
    requires forall j :: 0 <= j < |fields| ==> !DiffersOn(fields[j], ui, uj)
    ensures SortFn(fields)(ui, uj)
  {
    if fields != [] {
      assert !DiffersOn(fields[0], ui, uj);
      forall j | 0 <= j < |fields| - 1
        ensures !DiffersOn(fields[1..][j], ui, uj)
      {
        assert fields[1..][j] == fields[j + 1];
      }
      SortFnOnTies(fields[1..], ui, uj);
    }
  }

  /** Every user is in order with itself, so the comparator is not irreflexive. */
  lemma SortFnReflexive(fields: seq<string>, u: User)
    ensures SortFn(fields)(u, u)
  {
    SortFnOnTies(fields, u, u);
  }

  /** Of any two users, at least one is in order before the other. */
  lemma {:induction false} SortFnTotal(fields: seq<string>, ui: User, uj: User)
    ensures SortFn(fields)(ui, uj) || SortFn(fields)(uj, ui)
  {
    if fields != [] {
      SortFnTotal(fields[1..], ui, uj);
    }
  }

  /** Wrapping keeps a comparator transitive. */
  lemma WrapTransitive(f: (User, User) -> bool, field: string)
    requires Transitive(f)
    ensures Transitive(Wrap(f, field))
  {
    var g := Wrap(f, field);
    forall x, y, z | g(x, y) && g(y, z)
      ensures g(x, z)
    {
      if field == "Commits" {
        if x.commitCount == y.commitCount && y.commitCount == z.commitCount {
          assert f(x, y) && f(y, z);
        }
      } else if Contains(field, "Event") {
        var cx, cy, cz := CountOf(x.eventTypeCount, field), CountOf(y.eventTypeCount, field), CountOf(z.eventTypeCount, field);
        if cx == cy && cy == cz {
          assert f(x, y) && f(y, z);
        }
      }
    }
  }

  /** The comparator is transitive, hence (with SortFnTotal) a total preorder. */
  lemma {:induction false} SortFnTransitive(fields: seq<string>)
    ensures Transitive(SortFn(fields))
  {
    if fields != [] {
      SortFnTransitive(fields[1..]);
      WrapTransitive(SortFn(fields[1..]), fields[0]);
    }
  }

  /** Being total and transitive, every composed comparator is a weak order: container/heap's
      ordering requirement holds, and with it the ranking promises of GetTopUsers. */
  lemma SortFnIsWeakOrder(fields: seq<string>)
    ensures WeakOrder(SortFn(fields))
  {
    SortFnTransitive(fields);
    forall ui, uj
      ensures SortFn(fields)(ui, uj) || SortFn(fields)(uj, ui)
    {
      SortFnTotal(fields, ui, uj);
    }
    TotalPreorderIsWeakOrder(SortFn(fields));
  }

  /** The command's default sort value, "prs,commits", is not a field wrap recognises (matching is
      case-sensitive), so by default every pair of users is in order. */
  lemma DefaultSortIsConstant(ui: User, uj: User)
    ensures SortFn(["prs,commits"])(ui, uj)
    ensures SortFn(["prs", "commits"])(ui, uj)
  {
    NoEvent("prs,commits");
    NoEvent("prs");
    NoEvent("commits");
    SortFnOnTies(["prs,commits"], ui, uj);
    SortFnOnTies(["prs", "commits"], ui, uj);
  }
}
