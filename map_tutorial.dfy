/**
 * The search and erase helpers of the `std::map` tutorial: searching by value,
 * collecting the keys that hold a value, and the two `erase_if` overloads that
 * erase while iterating.
 */
module MapTutorial {
  import opened Seqs
  import opened Cpp
  import opened OrderedMaps

  /** The test on a key "it is in `m` and its value satisfies `p`". */
  function HasValueWhere<K, V>(m: map<K, V>, p: V -> bool): K -> bool
  {
    k => k in m && p(m[k])
  }

  /** The entries of `m` whose value fails `p`: what erasing the others leaves. */
  function EraseWhere<K(!new), V>(m: map<K, V>, p: V -> bool): map<K, V>
  {
    map k | k in m && !p(m[k]) :: m[k]
  }

  /**
   * The keys picked out of an ascending key sequence by a test on their values
   * are again ascending, and they are exactly the keys whose values pass.
   */
  lemma MatchingKeys<K(!new), V>(less: (K, K) -> bool, keys: seq<K>, m: map<K, V>, p: V -> bool)
    requires StrictlySorted(less, keys)
    requires forall k :: k in m <==> k in keys
    ensures StrictlySorted(less, Filter(keys, HasValueWhere(m, p)))
    ensures forall k :: k in Filter(keys, HasValueWhere(m, p)) <==> k in m && p(m[k])
  {
    FilterSorted(less, keys, HasValueWhere(m, p));
    forall k ensures k in Filter(keys, HasValueWhere(m, p)) <==> k in m && p(m[k]) {
      FilterMembership(keys, HasValueWhere(m, p), k);
    }
  }

  /**
   * `serachByValue`: the iterator to the first entry, in key order, whose value
   * is `val`. The source falls off its end without returning when no entry
   * holds `val`, so the model requires that one does.
   */
  method SerachByValue(mapOfWords: OrderedMap<string, int32>, val: int32) returns (it: nat)
    requires mapOfWords.Valid()
    requires val in mapOfWords.m.Values
    ensures it < |mapOfWords.keys| && mapOfWords.m[mapOfWords.keys[it]] == val
    ensures forall k :: k in mapOfWords.m && mapOfWords.m[k] == val ==>
              k == mapOfWords.keys[it] || mapOfWords.less(mapOfWords.keys[it], k)
  {
    ghost var k0 :| k0 in mapOfWords.m && mapOfWords.m[k0] == val;
    assert k0 in mapOfWords.keys;
    it := 0;
    while mapOfWords.m[mapOfWords.keys[it]] != val
      invariant 0 <= it < |mapOfWords.keys|
      invariant exists j :: it <= j < |mapOfWords.keys| && mapOfWords.m[mapOfWords.keys[j]] == val
      invariant forall j :: 0 <= j < it ==> mapOfWords.m[mapOfWords.keys[j]] != val
      decreases |mapOfWords.keys| - it
    {
      it := it + 1;
    }
  }

  /**
   * `findByValue`: appends to `vec`, in ascending key order, every key whose
   * value is `value`, and tells whether there was one. The map is passed by
   * copy and is not changed.
   */
  method FindByValue<K(==,!new), V(==)>(vec: Vector<K>, mapOfElemen: OrderedMap<K, V>, value: V)
    returns (bResult: bool)
    requires mapOfElemen.Valid()
    modifies vec
    ensures vec.elems == old(vec.elems) + Filter(mapOfElemen.keys, HasValueWhere(mapOfElemen.m, Equals(value)))
    ensures bResult <==> value in mapOfElemen.m.Values
  {
    ghost var keys := mapOfElemen.keys;
    ghost var test := HasValueWhere(mapOfElemen.m, Equals(value));
    bResult := false;
    var it := 0;
    while it < |mapOfElemen.keys|
      invariant 0 <= it <= |keys|
      invariant vec.elems == old(vec.elems) + Filter(keys[..it], test)
      invariant bResult <==> Filter(keys[..it], test) != []
    {
      FilterSnoc(keys[..it], keys[it], test);
      assert keys[..it + 1] == keys[..it] + [keys[it]];
      if mapOfElemen.m[mapOfElemen.keys[it]] == value {
        bResult := true;
        vec.PushBack(mapOfElemen.keys[it]);
      }
      it := it + 1;
    }
    assert keys[..it] == keys;
    MatchingKeys(mapOfElemen.less, keys, mapOfElemen.m, Equals(value));
    if value in mapOfElemen.m.Values {
      var k :| k in mapOfElemen.m && mapOfElemen.m[k] == value;
      assert k in Filter(keys, test);
    }
    if Filter(keys, test) != [] {
      var k := Filter(keys, test)[0];
      assert k in Filter(keys, test);
      assert mapOfElemen.m[k] == value;
    }
  }

  /**
   * `erase_if(map, value)`: erases, while iterating, every entry whose value
   * equals `value`, and returns how many it erased.
   */
  method EraseIfValue<K(==,!new), V(==)>(mapOfElemen: OrderedMap<K, V>, value: V)
    returns (totalDeletedElements: int)
    requires mapOfElemen.Valid()
    modifies mapOfElemen
    ensures mapOfElemen.Valid()
    ensures mapOfElemen.m == EraseWhere(old(mapOfElemen.m), Equals(value))
    ensures mapOfElemen.keys == Filter(old(mapOfElemen.keys), HasValueWhere(old(mapOfElemen.m), Not(Equals(value))))
    ensures totalDeletedElements == |Filter(old(mapOfElemen.keys), HasValueWhere(old(mapOfElemen.m), Equals(value)))|
    ensures totalDeletedElements == |old(mapOfElemen.keys)| - |mapOfElemen.keys|
  {
    ghost var keys0, m0 := mapOfElemen.keys, mapOfElemen.m;
    ghost var keep := HasValueWhere(m0, Not(Equals(value)));
    totalDeletedElements := 0;
    var it := 0;
    while it < |mapOfElemen.keys|
      invariant mapOfElemen.Valid()
      invariant 0 <= it <= |mapOfElemen.keys|
      invariant EraseLoop(mapOfElemen.keys, it, keep) == EraseLoop(keys0, 0, keep)
      invariant totalDeletedElements == |keys0| - |mapOfElemen.keys|
      invariant SubMap(mapOfElemen.m, m0)
      decreases |mapOfElemen.keys| - it
    {
      assert mapOfElemen.keys[it] in mapOfElemen.m;
      if mapOfElemen.m[mapOfElemen.keys[it]] == value {
        totalDeletedElements := totalDeletedElements + 1;
        it := mapOfElemen.EraseAt(it);
      } else {
        it := it + 1;
      }
    }
    EraseLoopResult(keys0, m0, Equals(value), mapOfElemen.keys, mapOfElemen.m);
  }

  /**
   * `erase_if(map, functor)`: erases, while iterating, every entry whose value
   * satisfies `functor`, and returns how many it erased.
   */
  method EraseIf<K(==,!new), V>(mapOfElemen: OrderedMap<K, V>, functor: V -> bool)
    returns (totalDeletedElements: int)
    requires mapOfElemen.Valid()
    modifies mapOfElemen
    ensures mapOfElemen.Valid()
    ensures mapOfElemen.m == EraseWhere(old(mapOfElemen.m), functor)
    ensures mapOfElemen.keys == Filter(old(mapOfElemen.keys), HasValueWhere(old(mapOfElemen.m), Not(functor)))
    ensures totalDeletedElements == |Filter(old(mapOfElemen.keys), HasValueWhere(old(mapOfElemen.m), functor))|
    ensures totalDeletedElements == |old(mapOfElemen.keys)| - |mapOfElemen.keys|
  {
    ghost var keys0, m0 := mapOfElemen.keys, mapOfElemen.m;
    ghost var keep := HasValueWhere(m0, Not(functor));
    totalDeletedElements := 0;
    var it := 0;
    while it < |mapOfElemen.keys|
      invariant mapOfElemen.Valid()
      invariant 0 <= it <= |mapOfElemen.keys|
      invariant EraseLoop(mapOfElemen.keys, it, keep) == EraseLoop(keys0, 0, keep)
      invariant totalDeletedElements == |keys0| - |mapOfElemen.keys|
      invariant SubMap(mapOfElemen.m, m0)
      decreases |mapOfElemen.keys| - it
    {
      assert mapOfElemen.keys[it] in mapOfElemen.m;
      if functor(mapOfElemen.m[mapOfElemen.keys[it]]) {
        totalDeletedElements := totalDeletedElements + 1;
        it := mapOfElemen.EraseAt(it);
      } else {
        it := it + 1;
      }
    }
    EraseLoopResult(keys0, m0, functor, mapOfElemen.keys, mapOfElemen.m);
  }

  /** Every entry of `m` is an entry of `m0`. */
  ghost predicate SubMap<K(!new), V>(m: map<K, V>, m0: map<K, V>)
  {
    forall k :: k in m ==> k in m0 && m[k] == m0[k]
  }

  /** What the erase loops' invariants give once the cursor has reached the end. */
  lemma EraseLoopResult<K(!new), V>(keys0: seq<K>, m0: map<K, V>, p: V -> bool, keys: seq<K>, m: map<K, V>)
    requires forall k :: k in m0 <==> k in keys0
    requires forall k :: k in m <==> k in keys
    requires SubMap(m, m0)
    requires EraseLoop(keys, |keys|, HasValueWhere(m0, Not(p))) == EraseLoop(keys0, 0, HasValueWhere(m0, Not(p)))
    ensures keys == Filter(keys0, HasValueWhere(m0, Not(p)))
    ensures m == EraseWhere(m0, p)
    ensures |keys0| - |keys| == |Filter(keys0, HasValueWhere(m0, p))|
  {
    var keep := HasValueWhere(m0, Not(p));
    EraseLoopFromStart(keys0, keep);
    assert keys == Filter(keys0, keep);
    ErasedEntries(keys0, m0, p, keys, m);
    ErasedCount(keys0, m0, p);
  }

  /** The entries whose keys survive the filter are those whose values fail `p`. */
  lemma ErasedEntries<K(!new), V>(keys0: seq<K>, m0: map<K, V>, p: V -> bool, keys: seq<K>, m: map<K, V>)
    requires forall k :: k in m0 <==> k in keys0
    requires forall k :: k in m <==> k in keys
    requires SubMap(m, m0)
    requires keys == Filter(keys0, HasValueWhere(m0, Not(p)))
    ensures m == EraseWhere(m0, p)
  {
    forall k ensures k in m <==> k in m0 && !p(m0[k]) {
      FilterMembership(keys0, HasValueWhere(m0, Not(p)), k);
    }
  }

  /** The keys erased and the keys kept add up to all the keys. */
  lemma ErasedCount<K, V>(keys0: seq<K>, m0: map<K, V>, p: V -> bool)
    requires forall i :: 0 <= i < |keys0| ==> keys0[i] in m0
    ensures |keys0| - |Filter(keys0, HasValueWhere(m0, Not(p)))| == |Filter(keys0, HasValueWhere(m0, p))|
  {
    FilterSplit(keys0, HasValueWhere(m0, p));
    FilterSameTest(keys0, Not(HasValueWhere(m0, p)), HasValueWhere(m0, Not(p)));
  }

  /**
   * `isODD`: `val % 2 == 1` with C++'s truncating `%`, so a negative odd
   * number is not reported odd.
   */
  function IsOdd(val: int32): (r: bool)
    ensures r <==> val > 0 && (val as int) % 2 == 1
  {
    Rem(val as int, 2) == 1
  }
}
