/**
 * Facts about Go maps seen through `range`: a loop over a map visits every key exactly once,
 * in an order the program does not control. The model passes that order in as a sequence.
 */
module Collections {
  import opened Wrappers

  /** No element occurs twice. */
  predicate Distinct<T(==)>(s: seq<T>)
  {
    s == [] || (s[|s| - 1] !in s[..|s| - 1] && Distinct(s[..|s| - 1]))
  }

  /** `order` is one order in which `range` may visit a map whose key set is `keys`. */
  predicate IsIterationOrder<K(==)>(order: seq<K>, keys: set<K>)
  {
    Distinct(order) && (set k | k in order) == keys
  }

  /** Go's `v := m[k]` for a map of pointers: the entry, or nil. */
  function Lookup<K, V>(m: map<K, V>, k: K): (r: Option<V>)
    ensures r.Some? <==> k in m
    ensures r.Some? ==> r.value == m[k]
  {
    if k in m then Some(m[k]) else None
  }

  /** Go's `m[k]` for a `map[string]int`: an absent key reads as 0. */
  function CountOf<K>(m: map<K, int>, k: K): (r: int)
    ensures k in m ==> r == m[k]
    ensures k !in m ==> r == 0
  {
    if k in m then m[k] else 0
  }

  /** The sum of `f` over `s`, accumulated from the front as a loop over `s` would. */
  function SumBy<T>(s: seq<T>, f: T -> nat): nat
  {
    if s == [] then 0 else SumBy(s[..|s| - 1], f) + f(s[|s| - 1])
  }

  lemma {:induction false} SumByAppend<T>(s: seq<T>, t: seq<T>, f: T -> nat)
    ensures SumBy(s + t, f) == SumBy(s, f) + SumBy(t, f)
  {
    if t == [] {
      assert s + t == s;
    } else {
      assert (s + t)[..|s + t| - 1] == s + t[..|t| - 1];
      SumByAppend(s, t[..|t| - 1], f);
    }
  }

  /** Extending a prefix by one element adds that element's term. */
  lemma SumByStep<T>(s: seq<T>, i: nat, f: T -> nat)
    requires i < |s|
    ensures SumBy(s[..i + 1], f) == SumBy(s[..i], f) + f(s[i])
  {
    assert s[..i + 1][..i] == s[..i];
  }

  /** The values of `m` in the order `order` visits its keys. */
  ghost function ValuesInOrder<K, V>(m: map<K, V>, order: seq<K>): (r: seq<V>)
    requires forall i :: 0 <= i < |order| ==> order[i] in m
    ensures |r| == |order|
    ensures forall i :: 0 <= i < |order| ==> r[i] == m[order[i]]
  {
    seq(|order|, i requires 0 <= i < |order| => m[order[i]])
  }

  /** A `range` order only visits keys of the map. */
  lemma IterationOrderMembers<K>(order: seq<K>, keys: set<K>)
    requires IsIterationOrder(order, keys)
    ensures forall i :: 0 <= i < |order| ==> order[i] in keys
  {
    forall i | 0 <= i < |order|
      ensures order[i] in keys
    {
      assert order[i] in (set k | k in order);
    }
  }

  /** A sum does not depend on the order of its terms. */
  lemma {:induction false} SumByPermutation<T>(a: seq<T>, b: seq<T>, f: T -> nat)
    requires multiset(a) == multiset(b)
    ensures SumBy(a, f) == SumBy(b, f)
  {
    if a == [] {
      assert |b| == |multiset(b)| == 0;
    } else {
      var x := a[|a| - 1];
      var a' := a[..|a| - 1];
      assert a == a' + [x];
      assert x in multiset(b);
      var j :| 0 <= j < |b| && b[j] == x;
      assert b == b[..j] + ([x] + b[j + 1..]);
      SumByRemove(b[..j], x, b[j + 1..], f);
      MultisetCancel(multiset(a'), multiset(b[..j] + b[j + 1..]), x);
      SumByPermutation(a', b[..j] + b[j + 1..], f);
    }
  }

  /** Taking out one element takes its term out of the sum and one copy out of the multiset. */
  lemma SumByRemove<T>(left: seq<T>, x: T, right: seq<T>, f: T -> nat)
    ensures SumBy(left + ([x] + right), f) == SumBy(left + right, f) + f(x)
    ensures multiset(left + ([x] + right)) == multiset(left + right) + multiset{x}
  {
    SumByAppend(left, [x] + right, f);
    SumByCons(x, right, f);
    SumByAppend(left, right, f);
  }

  lemma SumByCons<T>(x: T, s: seq<T>, f: T -> nat)
    ensures SumBy([x] + s, f) == f(x) + SumBy(s, f)
  {
    SumByAppend([x], s, f);
    assert [x][..0] == [];
  }

  lemma MultisetCancel<T>(p: multiset<T>, q: multiset<T>, x: T)
    requires p + multiset{x} == q + multiset{x}
    ensures p == q
  {
    forall y
      ensures p[y] == q[y]
    {
      assert (p + multiset{x})[y] == (q + multiset{x})[y];
    }
  }

  /** Two sums whose terms agree pointwise are equal. */
  lemma {:induction false} SumByPointwise<T>(s: seq<T>, f: T -> nat, g: T -> nat)
    requires forall i :: 0 <= i < |s| ==> f(s[i]) == g(s[i])
    ensures SumBy(s, f) == SumBy(s, g)
  {
    if s != [] {
      SumByPointwise(s[..|s| - 1], f, g);
    }
  }

  /** Dropping the last element of a duplicate-free sequence leaves one without that element. */
  lemma DistinctPrefix<T>(s: seq<T>)
    requires Distinct(s) && s != []
    ensures Distinct(s[..|s| - 1]) && s[|s| - 1] !in s[..|s| - 1]
  {
  }

  /** In a duplicate-free sequence every element occurs exactly once. */
  lemma {:induction false} DistinctMultiplicity<T>(s: seq<T>, x: T)
    requires Distinct(s)
    ensures multiset(s)[x] == if x in s then 1 else 0
  {
    if s != [] {
      var s' := s[..|s| - 1];
      assert s == s' + [s[|s| - 1]];
      DistinctPrefix(s);
      DistinctMultiplicity(s', x);
    }
  }

  /** Two `range` orders over the same map are permutations of each other. */
  lemma IterationOrdersArePermutations<K>(a: seq<K>, b: seq<K>, keys: set<K>)
    requires IsIterationOrder(a, keys) && IsIterationOrder(b, keys)
    ensures multiset(a) == multiset(b)
  {
    forall x
      ensures multiset(a)[x] == multiset(b)[x]
    {
      DistinctMultiplicity(a, x);
      DistinctMultiplicity(b, x);
      assert (x in a) == (x in (set k | k in a)) == (x in keys);
      assert (x in b) == (x in (set k | k in b)) == (x in keys);
      assert multiset(a)[x] == if x in a then 1 else 0;
      assert multiset(b)[x] == if x in b then 1 else 0;
    }
  }

  /** A `range` order has one position per key. */
  lemma {:induction false} IterationOrderLength<K>(order: seq<K>, keys: set<K>)
    requires IsIterationOrder(order, keys)
    ensures |order| == |keys|
  {
    if order == [] {
      assert keys == {};
    } else {
      var last := order[|order| - 1];
      var rest := order[..|order| - 1];
      assert order == rest + [last];
      DistinctPrefix(order);
      IterationOrderLength(rest, keys - {last});
    }
  }

  /** A sum of pointwise sums is the sum of the two sums. */
  lemma {:induction false} SumByAdd<T>(s: seq<T>, f: T -> nat, g: T -> nat, h: T -> nat)
    requires forall i :: 0 <= i < |s| ==> f(s[i]) == g(s[i]) + h(s[i])
    ensures SumBy(s, f) == SumBy(s, g) + SumBy(s, h)
  {
    if s != [] {
      SumByAdd(s[..|s| - 1], f, g, h);
    }
  }

  /** 1 at `x`, 0 elsewhere. */
  function Indicator<T(==)>(x: T): T -> nat
  {
    y => if y == x then 1 else 0
  }

  /** Summing the indicator of `x` over a duplicate-free sequence tells whether `x` occurs. */
  lemma {:induction false} SumByIndicator<T>(s: seq<T>, x: T)
    requires Distinct(s)
    ensures SumBy(s, Indicator(x)) == if x in s then 1 else 0
  {
    if s != [] {
      var s' := s[..|s| - 1];
      assert s == s' + [s[|s| - 1]];
      DistinctPrefix(s);
      SumByIndicator(s', x);
    }
  }

  /** Summing a function that is `c` at `x` and 0 elsewhere over a duplicate-free sequence gives
      `c` when `x` occurs and 0 otherwise. */
  lemma {:induction false} SumByPoint<T>(s: seq<T>, f: T -> nat, x: T, c: nat)
    requires Distinct(s)
    requires forall i :: 0 <= i < |s| ==> f(s[i]) == if s[i] == x then c else 0
    ensures SumBy(s, f) == if x in s then c else 0
  {
    if s != [] {
      var s' := s[..|s| - 1];
      assert s == s' + [s[|s| - 1]];
      DistinctPrefix(s);
      SumByPoint(s', f, x, c);
    }
  }

  /** The row sums of a table `table(a)(b)` over the columns `cols`. */
  ghost function RowSums<A, B>(table: A -> (B -> nat), cols: seq<B>): A -> nat
  {
    a => SumBy(cols, table(a))
  }

  /** The column of a table at `b`. */
  ghost function Column<A, B>(table: A -> (B -> nat), b: B): A -> nat
  {
    a => table(a)(b)
  }

  /** The column sums of a table over the rows `rows`. */
  ghost function ColumnSums<A, B>(table: A -> (B -> nat), rows: seq<A>): B -> nat
  {
    b => SumBy(rows, Column(table, b))
  }

  /** A table's total is the same summed by rows or by columns. */
  lemma {:induction false} SumBySwap<A, B>(rows: seq<A>, cols: seq<B>, table: A -> (B -> nat))
    ensures SumBy(rows, RowSums(table, cols)) == SumBy(cols, ColumnSums(table, rows))
  {
    if rows == [] {
      SumByPointwise(cols, ColumnSums(table, rows), b => 0);
      SumByZero(cols);
    } else {
      var rows' := rows[..|rows| - 1];
      var a := rows[|rows| - 1];
      SumBySwap(rows', cols, table);
      forall i | 0 <= i < |cols|
        ensures ColumnSums(table, rows)(cols[i]) == ColumnSums(table, rows')(cols[i]) + table(a)(cols[i])
      {
        assert SumBy(rows, Column(table, cols[i])) == SumBy(rows', Column(table, cols[i])) + Column(table, cols[i])(a);
      }
      SumByAdd(cols, ColumnSums(table, rows), ColumnSums(table, rows'), table(a));
    }
  }

  /** A sum of zeros is zero. */
  lemma {:induction false} SumByZero<T>(s: seq<T>)
    ensures SumBy(s, x => 0) == 0
  {
    if s != [] {
      SumByZero(s[..|s| - 1]);
    }
  }

  /** Maps with the same keys and the same value under each key are equal. */
  lemma MapsAgree<K, V>(m1: map<K, V>, m2: map<K, V>)
    requires m1.Keys == m2.Keys
    requires forall k :: k in m1 ==> m1[k] == m2[k]
    ensures m1 == m2
  {
  }
}
