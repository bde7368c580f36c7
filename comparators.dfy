/**
 * Vocabulary for the caller-supplied `less` functions of the heaps: `less(x, y)` means that x is
 * popped before y, that is, x ranks above y.
 */
module Comparators {

  ghost predicate Transitive<T(!new)>(less: (T, T) -> bool)
  {
    forall x, y, z :: less(x, y) && less(y, z) ==> less(x, z)
  }

  ghost predicate Irreflexive<T(!new)>(less: (T, T) -> bool)
  {
    forall x :: !less(x, x)
  }

  /** What Go's sort.Interface asks of `Less`, and what container/heap relies on: `less` is
      transitive, and so is "not before". Under it, the element at the root of a heap is one that
      no element of the heap ranks strictly above. */
  ghost predicate WeakOrder<T(!new)>(less: (T, T) -> bool)
  {
    && Transitive(less)
    && forall x, y, z :: !less(x, y) && !less(y, z) ==> !less(x, z)
  }

  /** A transitive comparator that relates every pair one way or the other is a weak order. */
  lemma TotalPreorderIsWeakOrder<T(!new)>(less: (T, T) -> bool)
    requires Transitive(less)
    requires forall x, y :: less(x, y) || less(y, x)
    ensures WeakOrder(less)
  {
    forall x, y, z | !less(x, y) && !less(y, z)
      ensures !less(x, z)
    {
      assert less(y, x) && less(z, y);
    }
  }

  /** x ranks strictly above y: `less` puts x first and not also y first. */
  predicate StrictlyBefore<T>(less: (T, T) -> bool, x: T, y: T)
  {
    less(x, y) && !less(y, x)
  }

  /** No element of `s` ranks strictly above an element that comes earlier. */
  ghost predicate Ranked<T>(less: (T, T) -> bool, s: seq<T>)
  {
    forall i, j :: 0 <= i < j < |s| ==> !StrictlyBefore(less, s[j], s[i])
  }

  /** For an irreflexive, transitive `less` (every strict weak order is one), ranking strictly
      above is `less` itself. */
  lemma StrictOrderIsItsOwnStrictPart<T(!new)>(less: (T, T) -> bool, x: T, y: T)
    requires Irreflexive(less) && Transitive(less)
    ensures StrictlyBefore(less, x, y) <==> less(x, y)
  {
  }

  /** Taking out of `pool` an element that nothing left in it ranks strictly above, and appending it
      to a ranked selection that nothing in the pool ranks strictly above, keeps both properties. */
  lemma RankedExtend<T>(less: (T, T) -> bool, selected: seq<T>, pool: seq<T>, x: T, rest: seq<T>)
    requires multiset(rest) + multiset{x} == multiset(pool)
    requires x in pool && forall y :: y in pool ==> !StrictlyBefore(less, y, x)
    requires Ranked(less, selected)
    requires forall y, j :: y in pool && 0 <= j < |selected| ==> !StrictlyBefore(less, y, selected[j])
    ensures Ranked(less, selected + [x])
    ensures forall y, j :: y in rest && 0 <= j < |selected| + 1 ==> !StrictlyBefore(less, y, (selected + [x])[j])
  {
    forall y | y in rest
      ensures y in pool
    {
      assert multiset(pool)[y] == multiset(rest)[y] + multiset{x}[y];
      assert y in multiset(pool);
    }
  }
}
