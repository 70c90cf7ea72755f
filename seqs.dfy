/**
 * Sequence helpers shared by the container models: filtering (what every
 * erase-while-iterating loop and `remove_if` computes), the ordering relations
 * that the ordered containers demand of their comparators, and sortedness.
 */
module Seqs {

  /** The elements of `s` that satisfy `p`, in their original order. */
  function Filter<T>(s: seq<T>, p: T -> bool): (r: seq<T>)
    ensures |r| <= |s|
  {
    if s == [] then []
    else Filter(s[..|s| - 1], p) + if p(s[|s| - 1]) then [s[|s| - 1]] else []
  }

  /** Filtering one more element at the end. */
  lemma FilterSnoc<T>(s: seq<T>, x: T, p: T -> bool)
    ensures Filter(s + [x], p) == if p(x) then Filter(s, p) + [x] else Filter(s, p)
  {
    assert (s + [x])[..|s|] == s;
  }

  /** Filtering one prefix of `s` more. */
  lemma FilterPrefix<T>(s: seq<T>, p: T -> bool, k: nat)
    requires 0 < k <= |s|
    ensures Filter(s[..k], p) == Filter(s[..k - 1], p) + if p(s[k - 1]) then [s[k - 1]] else []
  {
    assert s[..k][..k - 1] == s[..k - 1];
  }

  /** The filter unfolded along all the prefixes of `s`, for evaluating it on a short literal sequence. */
  lemma FilterByPrefixes<T>(s: seq<T>, p: T -> bool)
    ensures forall k :: 0 < k <= |s| ==> Filter(s[..k], p) == Filter(s[..k - 1], p) + if p(s[k - 1]) then [s[k - 1]] else []
    ensures Filter(s, p) == Filter(s[..|s|], p) && Filter(s[..0], p) == []
  {
    forall k | 0 < k <= |s|
      ensures Filter(s[..k], p) == Filter(s[..k - 1], p) + if p(s[k - 1]) then [s[k - 1]] else []
    {
      FilterPrefix(s, p, k);
    }
    assert s[..|s|] == s && s[..0] == [];
  }

  /** Every survivor satisfies the test. */
  lemma {:induction false} FilterSatisfies<T>(s: seq<T>, p: T -> bool)
    ensures forall i :: 0 <= i < |Filter(s, p)| ==> p(Filter(s, p)[i])
  {
    if s != [] {
      FilterSatisfies(s[..|s| - 1], p);
    }
  }

  /** The negation of a predicate. */
  function Not<T>(p: T -> bool): T -> bool
  {
    x => !p(x)
  }

  /** The test "equals `value`". */
  function Equals<T(==)>(value: T): T -> bool
  {
    x => x == value
  }

  /** Two tests that agree on every element of `s` filter it alike. */
  lemma {:induction false} FilterSameTest<T>(s: seq<T>, p: T -> bool, q: T -> bool)
    requires forall i :: 0 <= i < |s| ==> p(s[i]) == q(s[i])
    ensures Filter(s, p) == Filter(s, q)
  {
    if s != [] {
      FilterSameTest(s[..|s| - 1], p, q);
    }
  }

  /** Filtering distributes over concatenation: survivors keep their relative order. */
  lemma {:induction false} FilterConcat<T>(a: seq<T>, b: seq<T>, p: T -> bool)
    ensures Filter(a + b, p) == Filter(a, p) + Filter(b, p)
  {
    if b == [] {
      assert a + b == a;
    } else {
      var b' := b[..|b| - 1];
      var x := b[|b| - 1];
      assert b == b' + [x];
      assert a + b == (a + b') + [x];
      FilterSnoc(a + b', x, p);
      FilterSnoc(b', x, p);
      FilterConcat(a, b', p);
    }
  }

  /** Each value keeps all its occurrences if it satisfies `p`, and none otherwise. */
  lemma {:induction false} FilterCount<T>(s: seq<T>, p: T -> bool, x: T)
    ensures multiset(Filter(s, p))[x] == if p(x) then multiset(s)[x] else 0
  {
    if s != [] {
      var s' := s[..|s| - 1];
      FilterCount(s', p, x);
      assert s == s' + [s[|s| - 1]];
      assert multiset(s) == multiset(s') + multiset([s[|s| - 1]]);
    }
  }

  /** A value survives the filter exactly when it was present and satisfies `p`. */
  lemma FilterMembership<T>(s: seq<T>, p: T -> bool, x: T)
    ensures x in Filter(s, p) <==> x in s && p(x)
  {
    FilterCount(s, p, x);
    assert x in Filter(s, p) <==> x in multiset(Filter(s, p));
    assert x in s <==> x in multiset(s);
  }

  /** What the filter keeps and what it drops add up to the whole sequence. */
  lemma {:induction false} FilterSplit<T>(s: seq<T>, p: T -> bool)
    ensures |Filter(s, p)| + |Filter(s, Not(p))| == |s|
  {
    if s != [] {
      FilterSplit(s[..|s| - 1], p);
    }
  }

  /** Filtering an element in front of a sequence. */
  lemma FilterCons<T>(x: T, s: seq<T>, p: T -> bool)
    ensures Filter([x] + s, p) == (if p(x) then [x] else []) + Filter(s, p)
  {
    assert Filter([x], p) == if p(x) then [x] else [] by {
      assert [x][..0] == [];
    }
    FilterConcat([x], s, p);
  }

  /**
   * What a loop that erases while iterating leaves of `s` once it has run
   * from the cursor `i` to the end: an element failing `keep` is erased and the
   * cursor stays on its successor, any other element is stepped over.
   */
  function EraseLoop<T>(s: seq<T>, i: nat, keep: T -> bool): seq<T>
    decreases |s| - i
  {
    if i >= |s| then s
    else if keep(s[i]) then EraseLoop(s, i + 1, keep)
    else EraseLoop(s[..i] + s[i + 1..], i, keep)
  }

  /** Such a loop keeps what it has passed and filters the rest. */
  lemma {:induction false} EraseLoopIsFilter<T>(s: seq<T>, i: nat, keep: T -> bool)
    requires i <= |s|
    ensures EraseLoop(s, i, keep) == s[..i] + Filter(s[i..], keep)
    decreases |s| - i
  {
    if i < |s| {
      assert s[i..] == [s[i]] + s[i + 1..];
      FilterCons(s[i], s[i + 1..], keep);
      if keep(s[i]) {
        EraseLoopIsFilter(s, i + 1, keep);
        assert s[..i + 1] == s[..i] + [s[i]];
      } else {
        var t := s[..i] + s[i + 1..];
        EraseLoopIsFilter(t, i, keep);
        assert t[..i] == s[..i];
        assert t[i..] == s[i + 1..];
      }
    } else {
      assert s[..i] == s && s[i..] == [];
    }
  }

  /** From the start, the loop computes the filter. */
  lemma EraseLoopFromStart<T>(s: seq<T>, keep: T -> bool)
    ensures EraseLoop(s, 0, keep) == Filter(s, keep)
  {
    EraseLoopIsFilter(s, 0, keep);
    assert s[..0] == [] && s[0..] == s;
  }

  /**
   * The same loop over the range `[i, e)` only: erasing an element moves the
   * end of the range one place down, since it stays on the same element.
   */
  function EraseRangeLoop<T>(s: seq<T>, i: nat, e: nat, keep: T -> bool): seq<T>
    requires i <= e <= |s|
    decreases e - i
  {
    if i == e then s
    else if keep(s[i]) then EraseRangeLoop(s, i + 1, e, keep)
    else EraseRangeLoop(s[..i] + s[i + 1..], i, e - 1, keep)
  }

  /** The range loop keeps what lies outside the range and filters the range. */
  lemma {:induction false} EraseRangeLoopIsFilter<T>(s: seq<T>, i: nat, e: nat, keep: T -> bool)
    requires i <= e <= |s|
    ensures EraseRangeLoop(s, i, e, keep) == s[..i] + Filter(s[i..e], keep) + s[e..]
    decreases e - i
  {
    if i < e {
      var x, rest := s[i], s[i + 1..e];
      assert s[i..e] == [x] + rest;
      FilterCons(x, rest, keep);
      var f := Filter(rest, keep);
      if keep(x) {
        EraseRangeLoopIsFilter(s, i + 1, e, keep);
        assert s[..i + 1] == s[..i] + [x];
        assert (s[..i] + [x]) + f + s[e..] == s[..i] + ([x] + f) + s[e..];
      } else {
        var t := s[..i] + s[i + 1..];
        EraseRangeLoopIsFilter(t, i, e - 1, keep);
        RangeAfterErase(s, i, e);
        assert Filter(s[i..e], keep) == f;
      }
    } else {
      assert s == s[..i] + s[i..e] + s[e..];
    }
  }

  /** Erasing position `i` of `s` shifts the range `(i, e)` one place down. */
  lemma RangeAfterErase<T>(s: seq<T>, i: nat, e: nat)
    requires i < e <= |s|
    ensures var t := s[..i] + s[i + 1..];
      t[..i] == s[..i] && t[i..e - 1] == s[i + 1..e] && t[e - 1..] == s[e..]
  {
  }

  ghost predicate Irreflexive<T(!new)>(less: (T, T) -> bool)
  {
    forall x :: !less(x, x)
  }

  ghost predicate Transitive<T(!new)>(less: (T, T) -> bool)
  {
    forall x, y, z :: less(x, y) && less(y, z) ==> less(x, z)
  }

  /** Two values neither of which is smaller than the other are equivalent. */
  predicate Equivalent<T>(less: (T, T) -> bool, x: T, y: T)
  {
    !less(x, y) && !less(y, x)
  }

  ghost predicate EquivalenceTransitive<T(!new)>(less: (T, T) -> bool)
  {
    forall x, y, z :: Equivalent(less, x, y) && Equivalent(less, y, z) ==> Equivalent(less, x, z)
  }

  /** What the ordered containers demand of a comparator. */
  ghost predicate StrictWeakOrder<T(!new)>(less: (T, T) -> bool)
  {
    Irreflexive(less) && Transitive(less) && EquivalenceTransitive(less)
  }

  ghost predicate Connected<T(!new)>(less: (T, T) -> bool)
  {
    forall x, y :: x != y ==> less(x, y) || less(y, x)
  }

  /** A comparator under which only equal values are equivalent. */
  ghost predicate StrictTotalOrder<T(!new)>(less: (T, T) -> bool)
  {
    Irreflexive(less) && Transitive(less) && Connected(less)
  }

  /**
   * Comparing values by a key under a strict total order is a strict weak
   * order, under which two values are equivalent exactly when their keys are equal.
   */
  lemma InducedOrder<A(!new), B(!new)>(less: (B, B) -> bool, key: A -> B, induced: (A, A) -> bool)
    requires StrictTotalOrder(less)
    requires forall x, y :: induced(x, y) == less(key(x), key(y))
    ensures StrictWeakOrder(induced)
    ensures forall x, y :: Equivalent(induced, x, y) <==> key(x) == key(y)
  {
    forall x, y ensures Equivalent(induced, x, y) <==> key(x) == key(y) {
      assert induced(x, y) == less(key(x), key(y)) && induced(y, x) == less(key(y), key(x));
    }
    forall x, y, z | induced(x, y) && induced(y, z) ensures induced(x, z) {
      assert less(key(x), key(y)) && less(key(y), key(z));
      assert induced(x, z) == less(key(x), key(z));
    }
  }

  /** Strictly ascending: the order in which an ordered container is iterated. */
  predicate StrictlySorted<T>(less: (T, T) -> bool, s: seq<T>)
  {
    forall i, j :: 0 <= i < j < |s| ==> less(s[i], s[j])
  }

  predicate Distinct<T(==)>(s: seq<T>)
  {
    forall i, j :: 0 <= i < j < |s| ==> s[i] != s[j]
  }

  lemma SortedIsDistinct<T(!new)>(less: (T, T) -> bool, s: seq<T>)
    requires Irreflexive(less) && StrictlySorted(less, s)
    ensures Distinct(s)
  {
    forall i, j | 0 <= i < j < |s| ensures s[i] != s[j] {
      assert less(s[i], s[j]);
    }
  }

  /** Removing elements keeps a sequence strictly ascending. */
  lemma {:induction false} FilterSorted<T>(less: (T, T) -> bool, s: seq<T>, p: T -> bool)
    requires StrictlySorted(less, s)
    ensures StrictlySorted(less, Filter(s, p))
  {
    if s != [] {
      var s' := s[..|s| - 1];
      var last := s[|s| - 1];
      var a := Filter(s', p);
      FilterSorted(less, s', p);
      forall y | y in a ensures less(y, last) {
        FilterMembership(s', p, y);
        var k :| 0 <= k < |s'| && s'[k] == y;
      }
      if p(last) {
        var r := a + [last];
        forall i, j | 0 <= i < j < |r| ensures less(r[i], r[j]) {
          if j == |a| {
            assert r[i] in a;
          }
        }
      }
    }
  }

  /** A sequence without repetitions has as many distinct values as positions. */
  lemma {:induction false} DistinctCard<T>(s: seq<T>)
    requires Distinct(s)
    ensures |set x | x in s| == |s|
  {
    if s != [] {
      var t := s[..|s| - 1];
      assert Distinct(t);
      DistinctCard(t);
      var last := s[|s| - 1];
      assert (set x | x in s) == (set x | x in t) + {last} by {
        assert s == t + [last];
      }
      assert last !in t;
    }
  }
}
