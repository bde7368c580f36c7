/**
 * domain/repo/repo.go: the per-repository aggregate and the slice-backed heap that ranks it.
 *
 * The heap type keeps the slice (`baseRepoHeap`) as the field `items`, which Swap, Push and
 * Pop update in place, and the caller's ordering (`repoHeap.less`) as a constant field.
 * `HeapPush` and `HeapPop` stand for `heap.Push` and `heap.Pop` of Go's container/heap, which
 * drive these operations; that library is not part of this model. `HeapPush` appends instead
 * of sifting up, and `HeapPop` is written to the contract of `heap.Pop` for a weak order, both by
 * way of the five operations below.
 */
module Repos {
  import opened Comparators

  /** The aggregate for one repository: commit count and occurrences per event type. */
  datatype Repo = Repo(id: string, name: string, commitCount: int, eventTypeCount: map<string, int>)

  class RepoHeap {
    var items: seq<Repo>
    const less: (Repo, Repo) -> bool

    constructor (less: (Repo, Repo) -> bool)
      ensures items == [] && this.less == less
    {
      items := [];
      this.less := less;
    }

    /** Swap exchanges two positions and leaves every other one alone. */
    method Swap(i: nat, j: nat)
      requires i < |items| && j < |items|
      modifies this
      ensures |items| == |old(items)|
      ensures items[i] == old(items)[j] && items[j] == old(items)[i]
      ensures forall k :: 0 <= k < |items| && k != i && k != j ==> items[k] == old(items)[k]
      ensures multiset(items) == multiset(old(items))
    {
      items := items[i := items[j]][j := items[i]];
    }

    method Len() returns (n: nat)
      ensures n == |items|
    {
      n := |items|;
    }

    /** Push appends: the old slice is a prefix of the new one. */
    method Push(x: Repo)
      modifies this
      ensures items == old(items) + [x]
    {
      items := items + [x];
    }

    /** Pop removes and returns the last element (an empty slice makes Go panic). */
    method Pop() returns (x: Repo)
      requires |items| > 0
      modifies this
      ensures x == old(items)[|old(items)| - 1]
      ensures items == old(items)[..|old(items)| - 1]
      ensures multiset(items) + multiset{x} == multiset(old(items))
    {
      x := items[|items| - 1];
      assert items == items[..|items| - 1] + [x];
      items := items[..|items| - 1];
    }

    /** Less compares the elements at two positions with the caller's ordering. */
    method Less(i: nat, j: nat) returns (b: bool)
      requires i < |items| && j < |items|
      ensures b == less(items[i], items[j])
    {
      b := less(items[i], items[j]);
    }
  }

  /** heap.Push: the element joins the heap. */
  method HeapPush(h: RepoHeap, x: Repo)
    modifies h
    ensures h.items == old(h.items) + [x]
  {
    h.Push(x);
  }

  /** heap.Pop: removes and returns an element of the heap. When the ordering is a weak order,
      which is what container/heap requires of it, no element of the heap ranks strictly above
      the one returned; for other orderings the library promises nothing. The element is
      found by a scan (which needs only transitivity), moved to the end with Swap and taken off
      with Pop. */
  method HeapPop(h: RepoHeap) returns (x: Repo)
    requires |h.items| > 0
    modifies h
    ensures x in old(h.items)
    ensures multiset(h.items) + multiset{x} == multiset(old(h.items))
    ensures WeakOrder(h.less) ==> forall y :: y in old(h.items) ==> !StrictlyBefore(h.less, y, x)
  {
    var n := h.Len();
    var m := 0;
    for i := 1 to n
      invariant m < i
      invariant h.items == old(h.items)
      invariant Transitive(h.less) ==>
                  forall j :: 0 <= j < i ==> !StrictlyBefore(h.less, h.items[j], h.items[m])
    {
      var b := h.Less(i, m);
      if b {
        m := i;
      }
    }
    h.Swap(m, n - 1);
    x := h.Pop();
  }
}
