/** Python's built-in `sorted(xs, key=...)`: a stable sort. It is modelled
    as insertion sort over a total preorder `le` ("key of a <= key of b"),
    with its three promises proved: the result is ordered, it is a
    permutation of the input, and elements with equal keys keep their input
    order. */
module Sorting {
  import opened Seqs

  ghost predicate TotalPreorder<T(!new)>(le: (T, T) -> bool) {
    && (forall a, b :: le(a, b) || le(b, a))
    && (forall a, b, c :: le(a, b) && le(b, c) ==> le(a, c))
  }

  ghost predicate Sorted<T>(s: seq<T>, le: (T, T) -> bool) {
    forall i, j :: 0 <= i < j < |s| ==> le(s[i], s[j])
  }

  /** The elements whose key equals the key of `k`. */
  function SameKeyAs<T>(le: (T, T) -> bool, k: T): T -> bool {
    x => le(x, k) && le(k, x)
  }

  /** Inserts `x` after every element whose key is not greater than its own. */
  function Insert<T>(s: seq<T>, x: T, le: (T, T) -> bool): (r: seq<T>)
    ensures |r| == |s| + 1
    ensures multiset(r) == multiset(s) + multiset{x}
    decreases |s|
  {
    if s == [] || le(s[|s| - 1], x) then s + [x]
    else
      var s' := s[..|s| - 1];
      assert s == s' + [s[|s| - 1]];
      Insert(s', x, le) + [s[|s| - 1]]
  }

  /** `sorted(s)`; each element is inserted in input order. */
  function StableSort<T>(s: seq<T>, le: (T, T) -> bool): (r: seq<T>)
    ensures |r| == |s|
    ensures multiset(r) == multiset(s)
    decreases |s|
  {
    if s == [] then []
    else
      var s' := s[..|s| - 1];
      assert s == s' + [s[|s| - 1]];
      Insert(StableSort(s', le), s[|s| - 1], le)
  }

  lemma {:induction false} InsertSorted<T(!new)>(s: seq<T>, x: T, le: (T, T) -> bool)
    requires TotalPreorder(le) && Sorted(s, le)
    ensures Sorted(Insert(s, x, le), le)
    decreases |s|
  {
    if s != [] && !le(s[|s| - 1], x) {
      var s', y := s[..|s| - 1], s[|s| - 1];
      InsertSorted(s', x, le);
      assert le(x, y);
      InsertBounded(s', x, y, le);
      SortedSnoc(Insert(s', x, le), y, le);
    }
  }

  /** Inserting below a bound keeps every element below it. */
  lemma InsertBounded<T>(s: seq<T>, x: T, y: T, le: (T, T) -> bool)
    requires le(x, y) && forall i :: 0 <= i < |s| ==> le(s[i], y)
    ensures forall i :: 0 <= i < |Insert(s, x, le)| ==> le(Insert(s, x, le)[i], y)
  {
    var t := Insert(s, x, le);
    forall i | 0 <= i < |t| ensures le(t[i], y) {
      assert t[i] in multiset(s) + multiset{x};
      if t[i] != x {
        assert t[i] in s;
      }
    }
  }

  lemma SortedSnoc<T>(t: seq<T>, y: T, le: (T, T) -> bool)
    requires Sorted(t, le) && forall i :: 0 <= i < |t| ==> le(t[i], y)
    ensures Sorted(t + [y], le)
  {
  }

  lemma {:induction false} StableSortSorted<T(!new)>(s: seq<T>, le: (T, T) -> bool)
    requires TotalPreorder(le)
    ensures Sorted(StableSort(s, le), le)
    decreases |s|
  {
    if s != [] {
      StableSortSorted(s[..|s| - 1], le);
      InsertSorted(StableSort(s[..|s| - 1], le), s[|s| - 1], le);
    }
  }

  /** An element strictly after `x` in key order is never in the key class of `x`. */
  lemma NotBothInClass<T(!new)>(x: T, y: T, le: (T, T) -> bool, k: T)
    requires TotalPreorder(le) && !le(y, x)
    ensures !(SameKeyAs(le, k)(x) && SameKeyAs(le, k)(y))
  {
  }

  lemma {:induction false} InsertKeepsClassOrder<T(!new)>(s: seq<T>, x: T, le: (T, T) -> bool, k: T)
    requires TotalPreorder(le)
    ensures Filter(Insert(s, x, le), SameKeyAs(le, k))
         == Filter(s, SameKeyAs(le, k)) + Filter([x], SameKeyAs(le, k))
    decreases |s|
  {
    var inK := SameKeyAs(le, k);
    if s == [] || le(s[|s| - 1], x) {
      FilterAppend(s, [x], inK);
    } else {
      var s', y := s[..|s| - 1], s[|s| - 1];
      assert Insert(s, x, le) == Insert(s', x, le) + [y];
      InsertKeepsClassOrder(s', x, le, k);
      FilterAppend(Insert(s', x, le), [y], inK);
      FilterAppend(s', [y], inK);
      assert s' + [y] == s;
      NotBothInClass(x, y, le, k);
      FilterSingleton(x, inK);
      FilterSingleton(y, inK);
    }
  }

  /** Stability: the elements of any one key appear in their input order. */
  lemma {:induction false} StableSortKeepsClassOrder<T(!new)>(s: seq<T>, le: (T, T) -> bool, k: T)
    requires TotalPreorder(le)
    ensures Filter(StableSort(s, le), SameKeyAs(le, k)) == Filter(s, SameKeyAs(le, k))
    decreases |s|
  {
    if s != [] {
      var s', x := s[..|s| - 1], s[|s| - 1];
      StableSortKeepsClassOrder(s', le, k);
      InsertKeepsClassOrder(StableSort(s', le), x, le, k);
      FilterAppend(s', [x], SameKeyAs(le, k));
      assert s' + [x] == s;
    }
  }
}
