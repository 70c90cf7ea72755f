/**
 * `std::set`, modelled by its observable state: its elements in ascending
 * order under the set's comparator, which is the order in which an iterator
 * visits them. An iterator is a position in `elems`; `|elems|` is `end()`.
 */
module OrderedSets {
  import opened Seqs

  class OrderedSet<T(==,!new)> {
    const less: (T, T) -> bool
    var elems: seq<T>

    /** No two elements are equivalent under `less`, and they are kept in ascending order. */
    ghost predicate Valid()
      reads this
    {
      StrictWeakOrder(less) && StrictlySorted(less, elems)
    }

    /** An empty set ordered by `less`. */
    constructor (less: (T, T) -> bool)
      requires StrictWeakOrder(less)
      ensures Valid()
      ensures this.less == less && elems == []
    {
      this.less := less;
      elems := [];
    }

    /**
     * `insert(x)`: adds `x` at its place in the order unless an equivalent
     * element is already present, and returns the position of `x` or of that
     * element together with whether `x` was added.
     */
    method Insert(x: T) returns (pos: nat, inserted: bool)
      requires Valid()
      modifies this
      ensures Valid()
      ensures inserted <==> forall y :: y in old(elems) ==> !Equivalent(less, x, y)
      ensures inserted ==> pos <= |old(elems)| && elems == old(elems)[..pos] + [x] + old(elems)[pos..]
      ensures inserted ==> forall j :: 0 <= j < pos ==> less(old(elems)[j], x)
      ensures inserted ==> forall j :: pos <= j < |old(elems)| ==> less(x, old(elems)[j])
      ensures !inserted ==> elems == old(elems) && pos < |elems| && Equivalent(less, elems[pos], x)
    {
      var i := 0;
      while i < |elems| && less(elems[i], x)
        invariant 0 <= i <= |elems|
        invariant forall j :: 0 <= j < i ==> less(elems[j], x)
      {
        i := i + 1;
      }
      if i < |elems| && !less(x, elems[i]) {
        assert elems[i] in elems && Equivalent(less, x, elems[i]);
        pos, inserted := i, false;
      } else {
        forall j | i <= j < |elems| ensures less(x, elems[j]) {
          if j > i {
            assert less(elems[i], elems[j]);
          }
        }
        forall y | y in elems ensures !Equivalent(less, x, y) {
          var j :| 0 <= j < |elems| && elems[j] == y;
          assert j < i ==> less(elems[j], x);
        }
        elems := elems[..i] + [x] + elems[i..];
        pos, inserted := i, true;
      }
    }

    /** `erase(it)`: removes the element at position `pos` and returns the iterator to its successor. */
    method EraseAt(pos: nat) returns (next: nat)
      requires Valid() && pos < |elems|
      modifies this
      ensures Valid()
      ensures elems == old(elems[..pos] + elems[pos + 1..])
      ensures next == pos
    {
      ghost var before := elems;
      elems := elems[..pos] + elems[pos + 1..];
      forall j | 0 <= j < |elems| ensures elems[j] == before[if j < pos then j else j + 1] {
      }
      next := pos;
    }
  }

}
