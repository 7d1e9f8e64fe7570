/** Sorting by a total order. The benchmarks sort twice, with `std::sort` on
    timing samples and with `List<T>.Sort` and a comparer on generated rows.
    Neither sort is stable. Under a total order, though, only one sorted
    permutation of a sequence exists, so an insertion sort describes the
    result of both. */
module Sorting {

  /** `le` is a total order: total, transitive and antisymmetric. */
  ghost predicate TotalOrder<T(!new)>(le: (T, T) -> bool) {
    && (forall a, b :: le(a, b) || le(b, a))
    && (forall a, b, c :: le(a, b) && le(b, c) ==> le(a, c))
    && (forall a, b :: le(a, b) && le(b, a) ==> a == b)
  }

  ghost predicate SortedBy<T>(xs: seq<T>, le: (T, T) -> bool) {
    forall i, j :: 0 <= i < j < |xs| ==> le(xs[i], xs[j])
  }

  /** Inserts `x` before the first element it precedes. */
  function Insert<T(!new)>(x: T, xs: seq<T>, le: (T, T) -> bool): (r: seq<T>)
    requires TotalOrder(le) && SortedBy(xs, le)
    ensures multiset(r) == multiset(xs) + multiset{x}
    ensures SortedBy(r, le)
  {
    if xs == [] then [x]
    else if le(x, xs[0]) then [x] + xs
    else
      var rest := Insert(x, xs[1..], le);
      assert xs == [xs[0]] + xs[1..];
      HeadBelowAll(xs, le);
      HeadBelowInsert(xs[0], x, xs[1..], rest, le);
      SortedCons(xs[0], rest, le);
      [xs[0]] + rest
  }

  /** The head of a sorted sequence precedes all its tail. */
  lemma HeadBelowAll<T>(xs: seq<T>, le: (T, T) -> bool)
    requires SortedBy(xs, le) && xs != []
    ensures forall k :: 0 <= k < |xs[1..]| ==> le(xs[0], xs[1..][k])
  {
    forall k | 0 <= k < |xs[1..]| ensures le(xs[0], xs[1..][k]) {
      assert xs[1..][k] == xs[k + 1];
    }
  }

  /** What precedes `x` and all of `tail` precedes every element of a
      permutation of `tail` with `x` added. */
  lemma HeadBelowInsert<T(!new)>(h: T, x: T, tail: seq<T>, r: seq<T>, le: (T, T) -> bool)
    requires TotalOrder(le) && !le(x, h)
    requires forall k :: 0 <= k < |tail| ==> le(h, tail[k])
    requires multiset(r) == multiset(tail) + multiset{x}
    ensures forall k :: 0 <= k < |r| ==> le(h, r[k])
  {
    forall k | 0 <= k < |r| ensures le(h, r[k]) {
      assert r[k] in multiset(r);
      if r[k] != x {
        assert r[k] in multiset(tail);
        var m :| 0 <= m < |tail| && tail[m] == r[k];
      }
    }
  }

  /** A sorted sequence stays sorted behind an element preceding all of
      it. */
  lemma SortedCons<T>(h: T, r: seq<T>, le: (T, T) -> bool)
    requires SortedBy(r, le)
    requires forall k :: 0 <= k < |r| ==> le(h, r[k])
    ensures SortedBy([h] + r, le)
  {
    var s := [h] + r;
    forall i, j | 0 <= i < j < |s| ensures le(s[i], s[j]) {
      assert s[j] == r[j - 1];
      if i > 0 { assert s[i] == r[i - 1]; }
    }
  }

  function InsertionSort<T(!new)>(xs: seq<T>, le: (T, T) -> bool): (r: seq<T>)
    requires TotalOrder(le)
    ensures multiset(r) == multiset(xs)
    ensures SortedBy(r, le)
  {
    if xs == [] then []
    else
      assert xs == [xs[0]] + xs[1..];
      Insert(xs[0], InsertionSort(xs[1..], le), le)
  }

  /** Two sorted permutations of the same elements are equal: whatever
      algorithm sorts, the result is the one `InsertionSort` computes. */
  lemma {:induction false} SortedUnique<T(!new)>(xs: seq<T>, ys: seq<T>, le: (T, T) -> bool)
    requires TotalOrder(le)
    requires SortedBy(xs, le) && SortedBy(ys, le)
    requires multiset(xs) == multiset(ys)
    ensures xs == ys
  {
    if xs != [] {
      assert |ys| == |multiset(ys)| == |multiset(xs)| == |xs|;
      SortedHeads(xs, ys, le);
      TailsPermute(xs, ys);
      SortedTail(xs, le);
      SortedTail(ys, le);
      SortedUnique(xs[1..], ys[1..], le);
      ConsTail(xs);
      ConsTail(ys);
    } else {
      assert |ys| == |multiset(ys)| == 0;
    }
  }

  lemma SortedTail<T>(xs: seq<T>, le: (T, T) -> bool)
    requires SortedBy(xs, le) && xs != []
    ensures SortedBy(xs[1..], le)
  {
    forall i, j | 0 <= i < j < |xs[1..]| ensures le(xs[1..][i], xs[1..][j]) {
      assert xs[1..][i] == xs[i + 1] && xs[1..][j] == xs[j + 1];
    }
  }

  lemma ConsTail<T>(xs: seq<T>)
    requires xs != []
    ensures xs == [xs[0]] + xs[1..]
  {
  }

  /** Dropping the same first element from two permutations leaves two
      permutations. */
  lemma TailsPermute<T>(xs: seq<T>, ys: seq<T>)
    requires multiset(xs) == multiset(ys) && xs != [] && ys != [] && xs[0] == ys[0]
    ensures multiset(xs[1..]) == multiset(ys[1..])
  {
    assert xs == [xs[0]] + xs[1..];
    assert ys == [ys[0]] + ys[1..];
    assert multiset(xs[1..]) == multiset(xs) - multiset{xs[0]};
    assert multiset(ys[1..]) == multiset(ys) - multiset{ys[0]};
  }

  /** Sorted permutations start with the same, least, element. */
  lemma SortedHeads<T(!new)>(xs: seq<T>, ys: seq<T>, le: (T, T) -> bool)
    requires TotalOrder(le)
    requires SortedBy(xs, le) && SortedBy(ys, le)
    requires multiset(xs) == multiset(ys) && xs != [] && ys != []
    ensures xs[0] == ys[0]
  {
    assert xs[0] in multiset(ys);
    var j :| 0 <= j < |ys| && ys[j] == xs[0];
    assert ys[0] in multiset(xs);
    var i :| 0 <= i < |xs| && xs[i] == ys[0];
    assert le(ys[0], xs[0]) by {
      if j > 0 {
        assert le(ys[0], ys[j]);
      }
    }
    assert le(xs[0], ys[0]) by {
      if i > 0 {
        assert le(xs[0], xs[i]);
      }
    }
  }

  /** Sorting forgets the input order: permutations sort to the same
      sequence. */
  lemma SortPermutationInvariant<T(!new)>(xs: seq<T>, ys: seq<T>, le: (T, T) -> bool)
    requires TotalOrder(le)
    requires multiset(xs) == multiset(ys)
    ensures InsertionSort(xs, le) == InsertionSort(ys, le)
  {
    SortedUnique(InsertionSort(xs, le), InsertionSort(ys, le), le);
  }
}
