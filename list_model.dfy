/**
 * `std::list`, modelled by its observable state: its elements in order. An
 * iterator is a position in `elems`; `|elems|` is `end()`. A position does
 * not follow its node: after an insertion or an erasure before it, the same
 * position names a different element.
 */
module Lists {
  import opened Seqs

  class List<T(==)> {
    var elems: seq<T>

    /** A list holding `init`, as built from an initializer list or left empty. */
    constructor (init: seq<T>)
      ensures elems == init
    {
      elems := init;
    }

    /** `push_back(x)`. */
    method PushBack(x: T)
      modifies this
      ensures elems == old(elems) + [x]
    {
      elems := elems + [x];
    }

    /** `push_front(x)`. */
    method PushFront(x: T)
      modifies this
      ensures elems == [x] + old(elems)
    {
      elems := [x] + elems;
    }

    /** `insert(pos, x)`: puts `x` before position `pos` and returns the position of `x`. */
    method Insert(pos: nat, x: T) returns (it: nat)
      requires pos <= |elems|
      modifies this
      ensures elems == old(elems[..pos]) + [x] + old(elems[pos..])
      ensures it == pos && it < |elems| && elems[it] == x
    {
      elems := elems[..pos] + [x] + elems[pos..];
      it := pos;
    }

    /** `erase(pos)`: removes the element at `pos` and returns the position of its successor. */
    method Erase(pos: nat) returns (next: nat)
      requires pos < |elems|
      modifies this
      ensures elems == old(elems[..pos] + elems[pos + 1..])
      ensures next == pos
    {
      elems := elems[..pos] + elems[pos + 1..];
      next := pos;
    }

    /** `erase(first, last)`: removes the half-open range `[first, last)` and returns the position after it. */
    method EraseRange(first: nat, last: nat) returns (next: nat)
      requires first <= last <= |elems|
      modifies this
      ensures elems == old(elems[..first] + elems[last..])
      ensures next == first
    {
      elems := elems[..first] + elems[last..];
      next := first;
    }

    /** `remove(val)`: removes every element equal to `val`. */
    method Remove(val: T)
      modifies this
      ensures elems == Filter(old(elems), Not(Equals(val)))
    {
      elems := Filter(elems, Not(Equals(val)));
    }

    /** `remove_if(pred)`: removes every element satisfying `pred`. */
    method RemoveIf(pred: T -> bool)
      modifies this
      ensures elems == Filter(old(elems), Not(pred))
    {
      elems := Filter(elems, Not(pred));
    }
  }

  /**
   * What `remove_if(pred)` leaves: exactly the elements failing `pred`, each
   * as often as before, in their original order, and no element it removed.
   */
  lemma RemoveIfKeepsSurvivors<T>(s: seq<T>, pred: T -> bool)
    ensures forall x :: x in Filter(s, Not(pred)) <==> x in s && !pred(x)
    ensures forall x :: multiset(Filter(s, Not(pred)))[x] == if pred(x) then 0 else multiset(s)[x]
    ensures |Filter(s, Not(pred))| == |s| - |Filter(s, pred)|
  {
    forall x ensures x in Filter(s, Not(pred)) <==> x in s && !pred(x) {
      FilterMembership(s, Not(pred), x);
    }
    forall x ensures multiset(Filter(s, Not(pred)))[x] == if pred(x) then 0 else multiset(s)[x] {
      FilterCount(s, Not(pred), x);
    }
    FilterSplit(s, pred);
  }

  /** What `remove(val)` leaves: every element other than `val`, each as often as before, in order. */
  lemma RemoveKeepsOthers<T>(s: seq<T>, val: T)
    ensures val !in Filter(s, Not(Equals(val)))
    ensures forall x :: x != val ==> multiset(Filter(s, Not(Equals(val))))[x] == multiset(s)[x]
    ensures |Filter(s, Not(Equals(val)))| == |s| - multiset(s)[val]
  {
    FilterMembership(s, Not(Equals(val)), val);
    forall x | x != val ensures multiset(Filter(s, Not(Equals(val))))[x] == multiset(s)[x] {
      FilterCount(s, Not(Equals(val)), x);
    }
    RemovedCount(s, val);
  }

  /** Each occurrence of `val` is one element fewer. */
  lemma {:induction false} RemovedCount<T>(s: seq<T>, val: T)
    ensures |Filter(s, Not(Equals(val)))| + multiset(s)[val] == |s|
  {
    if s != [] {
      var t, x := s[..|s| - 1], s[|s| - 1];
      RemovedCount(t, val);
      assert s == t + [x];
      assert multiset(s) == multiset(t) + multiset{x};
    }
  }
}
