/** The list-intersection microbenchmark: five ways to keep the elements of
    `a` that occur in `b`, the check that they agree, how the input pair is
    drawn with a given overlap, how each timing is trimmed, and the grid of
    sizes and overlaps it runs. */
module Intersect {
  import opened Wrappers
  import opened Ints
  import opened Sorting
  import BenchStats

  /** The benchmark's lists hold strings. */
  type Item = string

  predicate NoDup<E(==)>(s: seq<E>) {
    forall i, j :: 0 <= i < j < |s| ==> s[i] != s[j]
  }

  function ToSet(s: seq<Item>): (r: set<Item>)
    ensures forall x :: x in r <==> x in s
  {
    set x | x in s
  }

  // ---------------------------------------------------------------------
  // The filters

  /** `original_linq`: the query `from x in a where b.Contains(x) select x`.
      Every occurrence in `a` of an element of `b` is kept. */
  function OriginalLinq(a: seq<Item>, b: seq<Item>): (r: seq<Item>)
    ensures |r| <= |a|
  {
    if a == [] then []
    else (if a[0] in b then [a[0]] else []) + OriginalLinq(a[1..], b)
  }

  /** The query keeps every occurrence of an element of `b`, and nothing
      else. */
  lemma {:induction false} OriginalLinqCounts(a: seq<Item>, b: seq<Item>)
    ensures forall x :: multiset(OriginalLinq(a, b))[x] == if x in b then multiset(a)[x] else 0
  {
    if a != [] {
      OriginalLinqCounts(a[1..], b);
      assert a == [a[0]] + a[1..];
    }
  }

  /** The query keeps `a`'s order: filtering a concatenation concatenates
      the filtered parts. */
  lemma {:induction false} OriginalLinqConcat(a1: seq<Item>, a2: seq<Item>, b: seq<Item>)
    ensures OriginalLinq(a1 + a2, b) == OriginalLinq(a1, b) + OriginalLinq(a2, b)
  {
    if a1 != [] {
      assert (a1 + a2)[1..] == a1[1..] + a2;
      OriginalLinqConcat(a1[1..], a2, b);
    } else {
      assert a1 + a2 == a2;
    }
  }

  /** `Enumerable.Where`: keeps the elements `keep` accepts, in order. */
  function Where(a: seq<Item>, keep: Item -> bool): (r: seq<Item>)
    ensures |r| <= |a|
    ensures forall i :: 0 <= i < |r| ==> keep(r[i])
  {
    if a == [] then []
    else (if keep(a[0]) then [a[0]] else []) + Where(a[1..], keep)
  }

  /** `compose_linq`: `a.Where(b.Contains)`, membership checked on the list. */
  function ComposeLinq(a: seq<Item>, b: seq<Item>): (r: seq<Item>)
    ensures forall i :: 0 <= i < |r| ==> r[i] in b
  {
    Where(a, x => x in b)
  }

  /** `hashset_linq` and `frozenset_linq`: `a.Where(set.Contains)` with the
      set of `b`'s elements; freezing the set changes how it is searched,
      not what it contains. */
  function SetLinq(a: seq<Item>, b: seq<Item>): (r: seq<Item>)
    ensures forall i :: 0 <= i < |r| ==> r[i] in b
  {
    var bSet := ToSet(b);
    Where(a, x => x in bSet)
  }

  /** Filtering with any test that agrees with membership in `b` on the
      elements of `a` gives the query's result. */
  lemma {:induction false} WhereIsOriginal(a: seq<Item>, b: seq<Item>, keep: Item -> bool)
    requires forall i :: 0 <= i < |a| ==> (keep(a[i]) <==> a[i] in b)
    ensures Where(a, keep) == OriginalLinq(a, b)
  {
    if a != [] {
      assert keep(a[0]) <==> a[0] in b;
      WhereIsOriginal(a[1..], b, keep);
    }
  }

  /** The list and set variants return exactly the query's list. */
  lemma FiltersAgree(a: seq<Item>, b: seq<Item>)
    ensures ComposeLinq(a, b) == OriginalLinq(a, b)
    ensures SetLinq(a, b) == OriginalLinq(a, b)
  {
    WhereIsOriginal(a, b, x => x in b);
    var bSet := ToSet(b);
    WhereIsOriginal(a, b, x => x in bSet);
  }

  /** `Enumerable.Intersect` with `remaining` the not yet yielded elements
      of the second list: an element is yielded the first time it is
      met. */
  function IntersectFrom(a: seq<Item>, remaining: set<Item>): (r: seq<Item>)
    ensures NoDup(r)
    ensures forall x :: x in r <==> x in a && x in remaining
  {
    if a == [] then []
    else if a[0] in remaining then
      var rest := IntersectFrom(a[1..], remaining - {a[0]});
      assert forall x :: x in [a[0]] + rest <==> x == a[0] || x in rest;
      [a[0]] + rest
    else
      IntersectFrom(a[1..], remaining)
  }

  /** `std_linq`: `a.Intersect(b)`, the distinct elements of `a` that occur
      in `b`, in the order of their first occurrence in `a`. */
  function StdLinq(a: seq<Item>, b: seq<Item>): (r: seq<Item>)
    ensures NoDup(r)
    ensures forall x :: x in r <==> x in a && x in b
  {
    IntersectFrom(a, ToSet(b))
  }

  /** Keeping the elements of `a` in a set. */
  function KeepIn(a: seq<Item>, s: set<Item>): seq<Item> {
    if a == [] then [] else (if a[0] in s then [a[0]] else []) + KeepIn(a[1..], s)
  }

  lemma {:induction false} KeepInMembers(a: seq<Item>, s: set<Item>)
    ensures forall x :: x in KeepIn(a, s) <==> x in a && x in s
  {
    if a != [] {
      KeepInMembers(a[1..], s);
      assert forall x :: x in a <==> x == a[0] || x in a[1..] by {
        assert a == [a[0]] + a[1..];
      }
    }
  }

  /** Two sets that agree on the elements of `a` keep the same elements. */
  lemma {:induction false} KeepInAgree(a: seq<Item>, s1: set<Item>, s2: set<Item>)
    requires forall i :: 0 <= i < |a| ==> (a[i] in s1 <==> a[i] in s2)
    ensures KeepIn(a, s1) == KeepIn(a, s2)
  {
    if a != [] {
      assert a[0] in s1 <==> a[0] in s2;
      KeepInAgree(a[1..], s1, s2);
    }
  }

  lemma {:induction false} KeepInIsOriginal(a: seq<Item>, b: seq<Item>)
    ensures KeepIn(a, ToSet(b)) == OriginalLinq(a, b)
  {
    if a != [] {
      KeepInIsOriginal(a[1..], b);
    }
  }

  /** When the kept elements are distinct, the intersection yields all of
      them. */
  lemma {:induction false} IntersectKeepsAll(a: seq<Item>, s: set<Item>)
    requires NoDup(KeepIn(a, s))
    ensures IntersectFrom(a, s) == KeepIn(a, s)
  {
    if a != [] {
      var rest := KeepIn(a[1..], s);
      assert KeepIn(a, s) == (if a[0] in s then [a[0]] else []) + rest;
      assert NoDup(rest) by {
        forall i, j | 0 <= i < j < |rest|
          ensures rest[i] != rest[j]
        {
          var off := if a[0] in s then 1 else 0;
          assert KeepIn(a, s)[off + i] == rest[i];
          assert KeepIn(a, s)[off + j] == rest[j];
        }
      }
      if a[0] in s {
        var s' := s - {a[0]};
        KeepInMembers(a[1..], s);
        assert a[0] !in rest by {
          forall k | 0 <= k < |rest|
            ensures rest[k] != a[0]
          {
            assert KeepIn(a, s)[0] == a[0] && KeepIn(a, s)[k + 1] == rest[k];
            assert KeepIn(a, s)[0] != KeepIn(a, s)[k + 1];
          }
        }
        assert forall i :: 0 <= i < |a[1..]| ==> (a[1..][i] in s <==> a[1..][i] in s') by {
          forall i | 0 <= i < |a[1..]|
            ensures a[1..][i] in s <==> a[1..][i] in s'
          {
          }
        }
        KeepInAgree(a[1..], s, s');
        IntersectKeepsAll(a[1..], s');
      } else {
        IntersectKeepsAll(a[1..], s);
      }
    }
  }

  /** `Intersect` returns the query's list exactly when the query keeps no
      element twice; in particular whenever `a` itself has no duplicates. */
  lemma StdLinqIsOriginal(a: seq<Item>, b: seq<Item>)
    ensures StdLinq(a, b) == OriginalLinq(a, b) <==> NoDup(OriginalLinq(a, b))
  {
    KeepInIsOriginal(a, b);
    if NoDup(OriginalLinq(a, b)) {
      IntersectKeepsAll(a, ToSet(b));
    }
  }

  lemma {:induction false} NoDupOriginal(a: seq<Item>, b: seq<Item>)
    requires NoDup(a)
    ensures NoDup(OriginalLinq(a, b))
  {
    if a != [] {
      assert NoDup(a[1..]) by {
        forall i, j | 0 <= i < j < |a[1..]|
          ensures a[1..][i] != a[1..][j]
        {
          assert a[i + 1] != a[j + 1];
        }
      }
      NoDupOriginal(a[1..], b);
      OriginalLinqCounts(a[1..], b);
      var rest := OriginalLinq(a[1..], b);
      if a[0] in b {
        assert multiset(rest)[a[0]] == 0 by {
          assert a[0] !in a[1..] by {
            forall k | 0 <= k < |a[1..]|
              ensures a[1..][k] != a[0]
            {
              assert a[k + 1] != a[0];
            }
          }
          assert multiset(a[1..])[a[0]] == 0;
        }
        var r := OriginalLinq(a, b);
        assert r == [a[0]] + rest;
        forall i, j | 0 <= i < j < |r|
          ensures r[i] != r[j]
        {
          if i == 0 {
            assert r[j] == rest[j - 1];
            assert rest[j - 1] in multiset(rest);
          } else {
            assert r[i] == rest[i - 1] && r[j] == rest[j - 1];
          }
        }
      }
    }
  }

  lemma StdLinqWhenDistinct(a: seq<Item>, b: seq<Item>)
    requires NoDup(a)
    ensures StdLinq(a, b) == OriginalLinq(a, b)
  {
    NoDupOriginal(a, b);
    StdLinqIsOriginal(a, b);
  }

  // ---------------------------------------------------------------------
  // The agreement check

  /** The assertion `verify` makes of each variant: the same count, and
      every element of the query's list present in the variant's. */
  predicate VerifyCheck(original: seq<Item>, other: seq<Item>) {
    |original| == |other| && forall i :: 0 <= i < |original| ==> original[i] in other
  }

  /** The list and set variants always pass the check. */
  lemma VerifyPassesFilters(a: seq<Item>, b: seq<Item>)
    ensures VerifyCheck(OriginalLinq(a, b), ComposeLinq(a, b))
    ensures VerifyCheck(OriginalLinq(a, b), SetLinq(a, b))
  {
    FiltersAgree(a, b);
  }

  /** A sequence has at least as many positions as distinct elements, and
      exactly as many when it has no duplicates. */
  lemma {:induction false} CardToSet(s: seq<Item>)
    ensures |ToSet(s)| <= |s|
    ensures |ToSet(s)| == |s| <==> NoDup(s)
  {
    if s != [] {
      var t := s[1..];
      CardToSet(t);
      assert ToSet(s) == {s[0]} + ToSet(t) by {
        assert s == [s[0]] + t;
      }
      if s[0] in t {
        assert ToSet(s) == ToSet(t);
        RepeatedHead(s);
      } else {
        NoDupCons(s);
      }
    }
  }

  /** A first element that recurs is a duplicate. */
  lemma RepeatedHead(s: seq<Item>)
    requires s != [] && s[0] in s[1..]
    ensures !NoDup(s)
  {
    var k :| 0 <= k < |s[1..]| && s[1..][k] == s[0];
    assert s[0] == s[k + 1];
  }

  /** With a first element that does not recur, a sequence is free of
      duplicates exactly when its tail is. */
  lemma NoDupCons(s: seq<Item>)
    requires s != [] && s[0] !in s[1..]
    ensures NoDup(s) <==> NoDup(s[1..])
  {
    var t := s[1..];
    if NoDup(t) {
      forall i, j | 0 <= i < j < |s|
        ensures s[i] != s[j]
      {
        if i > 0 {
          assert s[i] == t[i - 1] && s[j] == t[j - 1];
        } else {
          assert s[j] == t[j - 1];
        }
      }
    }
    if NoDup(s) {
      forall i, j | 0 <= i < j < |t|
        ensures t[i] != t[j]
      {
        assert s[i + 1] != s[j + 1];
      }
    }
  }

  /** The check on `std_linq` passes exactly when the query keeps no element
      twice: `Intersect` yields each element once, so any repeat lowers its
      count below the query's. */
  lemma VerifyStdIff(a: seq<Item>, b: seq<Item>)
    ensures VerifyCheck(OriginalLinq(a, b), StdLinq(a, b)) <==> NoDup(OriginalLinq(a, b))
  {
    var o, s := OriginalLinq(a, b), StdLinq(a, b);
    StdLinqIsOriginal(a, b);
    OriginalLinqCounts(a, b);
    assert forall x :: x in o <==> x in a && x in b by {
      forall x
        ensures x in o <==> x in a && x in b
      {
        assert x in o <==> multiset(o)[x] > 0;
        assert x in a <==> multiset(a)[x] > 0;
      }
    }
    assert ToSet(o) == ToSet(s);
    CardToSet(o);
    CardToSet(s);
  }

  /** The check accepts more than equality: the same elements in another
      order pass. */
  lemma VerifyCheckAcceptsReordering()
    ensures VerifyCheck(["x", "y"], ["y", "x"]) && ["x", "y"] != ["y", "x"]
  {
  }

  // ---------------------------------------------------------------------
  // Drawing the pair

  /** `n * overlap / 100` in C# `int` arithmetic: the product wraps at 32
      bits, then the division truncates. While the product fits, an overlap
      between 0 and 100 gives between 0 and `n` elements. */
  function OverlapElements(n: nat, overlap: int): (ov: int)
    ensures -(INT32_MAX / 100) <= ov <= INT32_MAX / 100
    ensures IsInt32(n * overlap) && 0 <= overlap <= 100 ==> 0 <= ov <= n
    ensures IsInt32(n * overlap) && overlap < 0 ==> ov <= 0
  {
    OverlapBound(n, overlap);
    TruncDiv(Wrap32(n * overlap), 100)
  }

  /** Past `int` the product wraps: 30,000,000 elements at 100% overlap
      give a negative count, where the unbounded product would give all
      30,000,000. */
  lemma OverlapWraps()
    ensures OverlapElements(30000000, 100) == -12949672
  {
    assert Wrap32(3000000000) == 3000000000 - TWO_32;
  }

  /** `n - overlap_elements`, the size of the fresh part of `b`, again in
      wrapping `int` arithmetic. */
  function ExtraCount(n: nat, overlap: int): (count: int)
    ensures IsInt32(count)
    ensures IsInt32(n - OverlapElements(n, overlap)) ==> count == n - OverlapElements(n, overlap)
  {
    Wrap32(n - OverlapElements(n, overlap))
  }

  lemma OverlapBound(n: nat, overlap: int)
    ensures 0 <= overlap <= 100 ==> 0 <= n * overlap <= n * 100
    ensures overlap < 0 ==> n * overlap <= 0
  {
    if 0 <= overlap <= 100 {
      MulMono(n, 0, overlap);
      MulMono(n, overlap, 100);
    } else if overlap < 0 {
      MulMono(n, overlap, 0);
    }
  }

  /** `Take(k)`: the first `k` elements, all of them when `k` is larger, none
      when it is not positive. */
  function Take(s: seq<Item>, k: int): (r: seq<Item>)
    ensures |r| == if k <= 0 then 0 else if k >= |s| then |s| else k
    ensures forall i :: 0 <= i < |r| ==> r[i] == s[i]
  {
    if k <= 0 then [] else if k >= |s| then s else s[..k]
  }

  /** The sequence without its `k`-th element. */
  function RemoveAt(s: seq<Item>, k: nat): (r: seq<Item>)
    requires k < |s|
    ensures |r| == |s| - 1 && multiset(r) == multiset(s) - multiset{s[k]}
  {
    assert s == s[..k] + [s[k]] + s[k + 1..];
    s[..k] + s[k + 1..]
  }

  /** Which of `n` remaining elements a pick chooses. */
  function PickIndex(p: nat, n: nat): (k: nat)
    requires n > 0
    ensures k < n && (p < n ==> k == p)
  {
    if p < n then p else p % n
  }

  /** `OrderBy` on fresh random keys, as a sequence of picks: each pick
      chooses which of the remaining elements comes next. */
  function Shuffle(pool: seq<Item>, picks: seq<nat>): (r: seq<Item>)
    requires |picks| >= |pool|
    ensures |r| == |pool|
    decreases |pool|
  {
    if pool == [] then []
    else
      var k := PickIndex(picks[0], |pool|);
      [pool[k]] + Shuffle(RemoveAt(pool, k), picks[1..])
  }

  /** Shuffling only reorders. */
  lemma {:induction false} ShufflePermutes(pool: seq<Item>, picks: seq<nat>)
    requires |picks| >= |pool|
    ensures multiset(Shuffle(pool, picks)) == multiset(pool)
    decreases |pool|
  {
    if pool != [] {
      var k := PickIndex(picks[0], |pool|);
      ShufflePermutes(RemoveAt(pool, k), picks[1..]);
      assert pool == pool[..k] + [pool[k]] + pool[k + 1..];
    }
  }

  /** Every reordering of the pool can be drawn, as random keys allow. */
  lemma {:induction false} ShuffleCovers(pool: seq<Item>, r: seq<Item>) returns (picks: seq<nat>)
    requires multiset(r) == multiset(pool)
    ensures |picks| == |pool| && Shuffle(pool, picks) == r
    decreases |pool|
  {
    if pool == [] {
      assert |r| == |multiset(r)| == 0;
      picks := [];
    } else {
      var k := HeadFrom(pool, r);
      var rest := RemoveAt(pool, k);
      var more := ShuffleCovers(rest, r[1..]);
      picks := [k] + more;
      assert Shuffle(pool, picks) == r by {
        ShuffleStep(pool, k, more);
        assert r == [pool[k]] + r[1..];
      }
    }
  }

  /** Where the first element of a reordering sits in the pool. */
  lemma HeadFrom(pool: seq<Item>, r: seq<Item>) returns (k: nat)
    requires multiset(r) == multiset(pool) && pool != []
    ensures k < |pool| && |r| == |pool| && r[0] == pool[k]
    ensures multiset(r[1..]) == multiset(RemoveAt(pool, k))
  {
    assert |r| == |multiset(r)| == |pool|;
    assert r[0] in multiset(pool);
    k :| 0 <= k < |pool| && pool[k] == r[0];
    assert r == [r[0]] + r[1..];
    assert multiset(r[1..]) == multiset(r) - multiset{r[0]};
  }

  lemma ShuffleStep(pool: seq<Item>, k: nat, more: seq<nat>)
    requires k < |pool| && |more| >= |pool| - 1
    ensures Shuffle(pool, [k] + more) == [pool[k]] + Shuffle(RemoveAt(pool, k), more)
  {
    assert ([k] + more)[1..] == more;
  }

  /** The draws of `generate_string_pair` are inputs: `a` the first list,
      `extra` the list drawn for the part of `b` not taken from `a`, and
      `picks` the shuffle. A negative count for the extra list throws. */
  datatype PairError = NegativeCount(count: int)

  function GenerateStringPair(a: seq<Item>, extra: seq<Item>, overlap: int, picks: seq<nat>): (r: Result<seq<Item>, PairError>)
    requires ExtraCount(|a|, overlap) >= 0 ==> |extra| == ExtraCount(|a|, overlap)
    requires |picks| >= |extra| + |Take(a, OverlapElements(|a|, overlap))|
    ensures r.Ok? <==> ExtraCount(|a|, overlap) >= 0
    ensures IsInt32(|a| - OverlapElements(|a|, overlap)) ==> (r.Ok? <==> OverlapElements(|a|, overlap) <= |a|)
    ensures r.Ok? ==> multiset(r.value) == multiset(extra) + multiset(Take(a, OverlapElements(|a|, overlap)))
  {
    var ov := OverlapElements(|a|, overlap);
    var count := ExtraCount(|a|, overlap);
    if count < 0 then Err(NegativeCount(count))
    else
      ShufflePermutes(extra + Take(a, ov), picks);
      Ok(Shuffle(extra + Take(a, ov), picks))
  }

  /** For an overlap between 0 and 100, while `n * overlap` fits in `int`,
      the pair is always drawn: `b` has as many elements as `a`, and it
      holds `a`'s first `ov` elements next to the extra ones. */
  lemma GenerateStringPairShape(a: seq<Item>, extra: seq<Item>, overlap: int, picks: seq<nat>)
    requires 0 <= overlap <= 100 && IsInt32(|a|) && IsInt32(|a| * overlap)
    requires |extra| == |a| - OverlapElements(|a|, overlap)
    requires |picks| >= |a|
    ensures var ov := OverlapElements(|a|, overlap);
      var r := GenerateStringPair(a, extra, overlap, picks);
      r.Ok? && |r.value| == |a| && multiset(r.value) == multiset(extra) + multiset(a[..ov])
  {
    var ov := OverlapElements(|a|, overlap);
    assert Take(a, ov) == a[..ov];
    var r := GenerateStringPair(a, extra, overlap, picks);
    assert |r.value| == |multiset(r.value)|;
  }

  /** With distinct draws, the query over the pair keeps exactly `a`'s
      first `ov` elements: `overlap` is the percentage of shared elements. */
  lemma PairOverlap(a: seq<Item>, b: seq<Item>, extra: seq<Item>, ov: nat)
    requires NoDup(a) && ov <= |a|
    requires multiset(b) == multiset(extra) + multiset(a[..ov])
    requires forall x :: x in extra ==> x !in a
    ensures OriginalLinq(a, b) == a[..ov]
  {
    forall i | 0 <= i < |a|
      ensures a[i] in b <==> i < ov
    {
      assert a[i] in b <==> multiset(b)[a[i]] > 0;
      assert a[i] in a;
      assert multiset(extra)[a[i]] == 0;
      if i < ov {
        assert a[..ov][i] == a[i];
      } else {
        forall k | 0 <= k < ov
          ensures a[..ov][k] != a[i]
        {
          assert a[k] != a[i];
        }
      }
    }
    PrefixFilter(a, b, ov);
  }

  /** Filtering by a test that holds exactly on the first `k` positions
      keeps the first `k` elements. */
  lemma {:induction false} PrefixFilter(a: seq<Item>, b: seq<Item>, k: nat)
    requires k <= |a|
    requires forall i :: 0 <= i < |a| ==> (a[i] in b <==> i < k)
    ensures OriginalLinq(a, b) == a[..k]
  {
    if a != [] {
      assert a[0] in b <==> 0 < k;
      var k' := if k > 0 then k - 1 else 0;
      assert forall i :: 0 <= i < |a[1..]| ==> (a[1..][i] in b <==> i < k') by {
        forall i | 0 <= i < |a[1..]|
          ensures a[1..][i] in b <==> i < k'
        {
          assert a[1..][i] == a[i + 1];
        }
      }
      PrefixFilter(a[1..], b, k');
      if k > 0 {
        assert a[..k] == [a[0]] + a[1..][..k'];
      }
    }
  }

  // ---------------------------------------------------------------------
  // Timing

  /** What `time_func` reports about the sorted, trimmed samples. The
      samples are modelled in stopwatch ticks: the conversion to
      microseconds is a positive scaling, which moves neither the order nor
      the trimmed positions. */
  datatype Timing = Timing(kept: nat, mean: real, min: int, max: int)

  /** The summary of sorted samples: drop `runs / 100` at each end, then
      average and take the extremes of the rest. */
  function TimingOf(sorted: seq<int>): (v: Timing)
    requires |sorted| >= 1 && SortedBy(sorted, BenchStats.IntLe)
    ensures v.kept == |sorted| - 2 * (|sorted| / 100) && v.kept >= 1
    ensures v.min as real <= v.mean <= v.max as real
    ensures v.min in sorted && v.max in sorted
  {
    var n := |sorted|;
    var lo, hi := BenchStats.TrimLow(n, 100), BenchStats.TrimHigh(n, 100);
    BenchStats.TrimmedMeanBounded(sorted, 100);
    Timing(hi - lo, BenchStats.TrimmedMean(sorted, 100), sorted[lo], sorted[hi - 1])
  }

  /** `time_func` after the runs: sort and summarise. No samples make
      `Average` throw. */
  function TimeFunc(times: seq<int>): (t: Option<Timing>)
    ensures t.Some? <==> |times| >= 1
    ensures t.Some? ==> var v := t.value;
      && v.kept == |times| - 2 * (|times| / 100) && v.kept >= 1
      && v.min as real <= v.mean <= v.max as real
      && v.min in times && v.max in times
  {
    if |times| == 0 then None
    else
      BenchStats.IntLeTotal();
      var sorted := InsertionSort(times, BenchStats.IntLe);
      var v := TimingOf(sorted);
      assert v.min in multiset(times) && v.max in multiset(times) by {
        assert v.min in multiset(sorted) && v.max in multiset(sorted);
      }
      Some(v)
  }

  /** The summary does not depend on the order the samples were taken in. */
  lemma TimeFuncOrderFree(xs: seq<int>, ys: seq<int>)
    requires multiset(xs) == multiset(ys)
    ensures TimeFunc(xs) == TimeFunc(ys)
  {
    assert |xs| == |multiset(xs)| == |ys|;
    BenchStats.IntLeTotal();
    SortPermutationInvariant(xs, ys, BenchStats.IntLe);
  }

  /** The five timed variants, and the warm-up and run counts each gets:
      the two list-scanning variants are slow and get 5 and 10. */
  datatype Variant = Original | StdIntersect | Compose | HashSet | FrozenSet

  function RunsFor(v: Variant): (plan: (nat, nat))
    ensures plan.1 >= 1
    ensures plan.1 - 2 * (plan.1 / 100) == if v == Original || v == Compose then 10 else 980
  {
    if v == Original || v == Compose then (5, 10) else (10, 1000)
  }

  function Apply(v: Variant, a: seq<Item>, b: seq<Item>): seq<Item> {
    match v
    case Original => OriginalLinq(a, b)
    case StdIntersect => StdLinq(a, b)
    case Compose => ComposeLinq(a, b)
    case HashSet | FrozenSet => SetLinq(a, b)
  }

  /** On a duplicate-free first list every variant computes the query's
      list. */
  lemma VariantsAgree(v: Variant, a: seq<Item>, b: seq<Item>)
    requires NoDup(a)
    ensures Apply(v, a, b) == OriginalLinq(a, b)
  {
    FiltersAgree(a, b);
    StdLinqWhenDistinct(a, b);
  }

  // ---------------------------------------------------------------------
  // The grid

  /** The `u`-th size of an overlap's row: 10 to 90, 100 to 900, 1000 to
      9000, then 10000, 20000 and 30000. */
  function SizeAt(u: nat): int {
    if u < 27 then Pow10(u / 9 + 1) * (u % 9 + 1) else 10000 * (u - 26)
  }

  /** The position the loops reach at `(i, j, k)` and the size they use
      there. */
  lemma GridIndex(i: int, j: int, k: int)
    requires 1 <= i <= 10 && 1 <= j <= 4 && 1 <= k < (if j == 4 then 4 else 10)
    ensures var t := 30 * (i - 1) + 9 * (j - 1) + (k - 1);
      t / 30 == i - 1 && t % 30 == 9 * (j - 1) + (k - 1)
      && SizeAt(t % 30) == Pow10(j) * k
  {
    var u := 9 * (j - 1) + (k - 1);
    assert 0 <= u < 30;
    DivUnique(30 * (i - 1) + u, 30, i - 1, u);
    SizeAtIndex(j, k);
  }

  /** Position `9 * (j - 1) + (k - 1)` of a row holds `10^j * k`. */
  lemma SizeAtIndex(j: int, k: int)
    requires 1 <= j <= 4 && 1 <= k < (if j == 4 then 4 else 10)
    ensures SizeAt(9 * (j - 1) + (k - 1)) == Pow10(j) * k
  {
    var u := 9 * (j - 1) + (k - 1);
    assert Pow10(1) == 10 && Pow10(2) == 100 && Pow10(3) == 1000 && Pow10(4) == 10000;
    if j == 1 {
      DivUnique(u, 9, 0, k - 1);
    } else if j == 2 {
      DivUnique(u, 9, 1, k - 1);
    } else if j == 3 {
      DivUnique(u, 9, 2, k - 1);
    }
  }

  /** The three loops of the run: overlaps `10 * i` for `i` from 1 to 10,
      exponents `j` from 1 to 4, multipliers `k` below 10 (below 4 for
      `j` = 4), size `10^j * k`. */
  method RunGrid() returns (g: seq<(int, int)>)
    ensures |g| == 300
    ensures forall t :: 0 <= t < |g| ==> g[t] == (SizeAt(t % 30), 10 * (t / 30 + 1))
  {
    g := [];
    var i := 1;
    while i <= 10
      invariant 1 <= i <= 11
      invariant |g| == 30 * (i - 1)
      invariant forall t :: 0 <= t < |g| ==> g[t] == (SizeAt(t % 30), 10 * (t / 30 + 1))
    {
      var overlap := i * 10;
      var j := 1;
      while j < 5
        invariant 1 <= j <= 5
        invariant |g| == 30 * (i - 1) + (if j == 5 then 30 else 9 * (j - 1))
        invariant forall t :: 0 <= t < |g| ==> g[t] == (SizeAt(t % 30), 10 * (t / 30 + 1))
      {
        var kEnd := if j == 4 then 4 else 10;
        var k := 1;
        while k < kEnd
          invariant 1 <= k <= kEnd
          invariant |g| == 30 * (i - 1) + 9 * (j - 1) + (k - 1)
          invariant forall t :: 0 <= t < |g| ==> g[t] == (SizeAt(t % 30), 10 * (t / 30 + 1))
        {
          var n := Pow10(j) * k;
          GridIndex(i, j, k);
          g := g + [(n, overlap)];
          k := k + 1;
        }
        j := j + 1;
      }
      i := i + 1;
    }
  }

  lemma SizeAtBounds(u: nat)
    requires u < 30
    ensures 10 <= SizeAt(u) <= 30000
  {
    assert Pow10(1) == 10 && Pow10(2) == 100 && Pow10(3) == 1000;
    if u < 9 {
      assert u / 9 == 0;
    } else if u < 18 {
      assert u / 9 == 1;
    } else if u < 27 {
      assert u / 9 == 2;
    }
  }

  /** Every configuration of the grid has a size between 10 and 30000 and
      an overlap between 10 and 100: `n * overlap` stays far inside `int`,
      and `generate_string_pair` never meets a negative count. */
  lemma GridEntryBounds(t: int)
    requires 0 <= t < 300
    ensures var n, overlap := SizeAt(t % 30), 10 * (t / 30 + 1);
      && 10 <= n <= 30000 && 10 <= overlap <= 100
      && IsInt32(n * overlap) && 0 <= OverlapElements(n, overlap) <= n
  {
    var n, overlap := SizeAt(t % 30), 10 * (t / 30 + 1);
    SizeAtBounds(t % 30);
    assert 10 <= overlap <= 100;
    ProductBound(n, overlap);
  }

  lemma ProductBound(n: int, m: int)
    requires 0 <= n <= 30000 && 0 <= m <= 100
    ensures 0 <= n * m <= 3000000
  {
    assert n * m <= 30000 * m;
  }
}
