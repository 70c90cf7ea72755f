/**
 * The two standard containers the map tutorial's helpers work on, modelled by
 * their observable state: `std::map` and `std::vector`.
 */
module OrderedMaps {
  import opened Seqs

  /**
   * `std::map<K, V>`: its entries, and its keys in ascending order under the
   * map's comparator, which is the order in which an iterator visits them.
   * An iterator is a position in `keys`; `|keys|` is `end()`.
   */
  class OrderedMap<K(==,!new), V> {
    const less: (K, K) -> bool
    var keys: seq<K>
    var m: map<K, V>

    ghost predicate Valid()
      reads this
    {
      && StrictTotalOrder(less)
      && StrictlySorted(less, keys)
      && (forall k :: k in m <==> k in keys)
    }

    /** An empty map ordered by `less`. */
    constructor (less: (K, K) -> bool)
      requires StrictTotalOrder(less)
      ensures Valid()
      ensures this.less == less && keys == [] && m == map[]
    {
      this.less := less;
      keys := [];
      m := map[];
    }

    /** `map[k] = v`: overwrites the entry for `k`, or adds one at its place in the order. */
    method Put(k: K, v: V)
      requires Valid()
      modifies this
      ensures Valid()
      ensures m == old(m)[k := v]
      ensures k in old(m) ==> keys == old(keys)
    {
      var i := 0;
      while i < |keys| && less(keys[i], k)
        invariant 0 <= i <= |keys|
        invariant forall j :: 0 <= j < i ==> less(keys[j], k)
      {
        i := i + 1;
      }
      if i < |keys| && keys[i] == k {
        m := m[k := v];
      } else {
        forall j | i <= j < |keys| ensures less(k, keys[j]) {
          assert keys[i] != k && !less(keys[i], k);
          assert less(k, keys[i]);
        }
        forall j | 0 <= j < |keys| ensures keys[j] != k {
          assert j < i ==> less(keys[j], k);
        }
        keys := keys[..i] + [k] + keys[i..];
        m := m[k := v];
      }
    }

    /** `erase(it)`: removes the entry at position `pos` and returns the iterator to its successor. */
    method EraseAt(pos: nat) returns (next: nat)
      requires Valid() && pos < |keys|
      modifies this
      ensures Valid()
      ensures keys == old(keys[..pos] + keys[pos + 1..])
      ensures m == old(m) - {old(keys[pos])}
      ensures next == pos
    {
      SortedIsDistinct(less, keys);
      var k := keys[pos];
      ghost var before := keys;
      keys := keys[..pos] + keys[pos + 1..];
      m := m - {k};
      forall j | 0 <= j < |keys| ensures keys[j] == before[if j < pos then j else j + 1] {
      }
      next := pos;
    }
  }

  /** `std::vector<T>`, of which the helpers only use `push_back`. */
  class Vector<T> {
    var elems: seq<T>

    method PushBack(x: T)
      modifies this
      ensures elems == old(elems) + [x]
    {
      elems := elems + [x];
    }
  }
}
