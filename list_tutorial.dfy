/**
 * The `std::list` tutorial: searching with `std::find`, the generic
 * `contains`, erasing while iterating, and the push, insert, erase and
 * remove sequences of its examples.
 */
module ListTutorial {
  import opened Seqs
  import opened Cpp
  import opened Lists

  /**
   * `std::find(begin, end, element)`: the position of the first occurrence of
   * `element`, or `|s|` (the end iterator) when there is none.
   */
  function Find<T(==)>(s: seq<T>, element: T): (it: nat)
    ensures it <= |s|
    ensures it < |s| ==> s[it] == element
    ensures forall j :: 0 <= j < it ==> s[j] != element
  {
    if s == [] then 0
    else if s[0] == element then 0
    else 1 + Find(s[1..], element)
  }

  /** `contains`: whether `find` stops before the end. */
  function Contains<T(==)>(listOfElements: List<T>, element: T): (r: bool)
    reads listOfElements
    ensures r <==> element in listOfElements.elems
  {
    Find(listOfElements.elems, element) != |listOfElements.elems|
  }

  /** The search examples: `"the"` and `"is"` are found in their list, `"at"` is not. */
  lemma SearchDemo(listOfStrs: List<string>)
    requires listOfStrs.elems == ["is", "of", "the", "Hi", "Hello", "from"]
    ensures Find(listOfStrs.elems, "the") == 2
    ensures Contains(listOfStrs, "is")
    ensures !Contains(listOfStrs, "at")
  {
    assert listOfStrs.elems[2] == "the";
    assert listOfStrs.elems[0] == "is";
  }

  /** The elements the erase loop keeps: those that `% 3` does not send to zero. */
  predicate NotMultipleOfThree(val: int32)
  {
    Rem(val as int, 3) != 0
  }

  /**
   * The loop of `removeElementsFromListWhileIterating`: walks the list and
   * erases every multiple of three, stepping onto the successor each time.
   */
  method EraseMultiplesOfThree(listOfInts: List<int32>)
    modifies listOfInts
    ensures listOfInts.elems == Filter(old(listOfInts.elems), NotMultipleOfThree)
  {
    ghost var s0 := listOfInts.elems;
    var it := 0;
    while it != |listOfInts.elems|
      invariant 0 <= it <= |listOfInts.elems|
      invariant EraseLoop(listOfInts.elems, it, NotMultipleOfThree) == EraseLoop(s0, 0, NotMultipleOfThree)
      decreases |listOfInts.elems| - it
    {
      if Rem(listOfInts.elems[it] as int, 3) == 0 {
        it := listOfInts.Erase(it);
      } else {
        it := it + 1;
      }
    }
    EraseLoopFromStart(s0, NotMultipleOfThree);
  }

  /**
   * The erase loop keeps exactly the elements that are not multiples of three,
   * each as often as before, in their original order.
   */
  lemma MultiplesOfThreeErased(s: seq<int32>)
    ensures forall x :: x in Filter(s, NotMultipleOfThree) <==> x in s && (x as int) % 3 != 0
    ensures forall x :: multiset(Filter(s, NotMultipleOfThree))[x] == if (x as int) % 3 == 0 then 0 else multiset(s)[x]
  {
    forall x: int32 ensures NotMultipleOfThree(x) <==> (x as int) % 3 != 0 {
      RemThree(x as int);
    }
    forall x ensures x in Filter(s, NotMultipleOfThree) <==> x in s && (x as int) % 3 != 0 {
      FilterMembership(s, NotMultipleOfThree, x);
    }
    forall x ensures multiset(Filter(s, NotMultipleOfThree))[x] == if (x as int) % 3 == 0 then 0 else multiset(s)[x] {
      FilterCount(s, NotMultipleOfThree, x);
    }
  }

  /** The erase-while-iterating example: the list keeps `[2, 4, 8, 4, 8]`. */
  method EraseWhileIteratingDemo() returns (result: seq<int32>)
    ensures result == [2, 4, 8, 4, 8]
  {
    var listOfInts := new List<int32>([2, 3, 3, 4, 8, 9, 4, 6, 8, 3]);
    EraseMultiplesOfThree(listOfInts);
    result := listOfInts.elems;
    MultiplesOfThreeDemo();
  }

  /** Which elements of the example are multiples of three. */
  lemma MultiplesOfThreeDemo()
    ensures Filter([2, 3, 3, 4, 8, 9, 4, 6, 8, 3], NotMultipleOfThree) == [2, 4, 8, 4, 8]
  {
    var a: seq<int32> := [2, 3, 3, 4, 8];
    var b: seq<int32> := [9, 4, 6, 8, 3];
    FilterFive(a, NotMultipleOfThree);
    FilterFive(b, NotMultipleOfThree);
    FilterConcat(a, b, NotMultipleOfThree);
    assert a + b == [2, 3, 3, 4, 8, 9, 4, 6, 8, 3];
  }

  /** The `remove(4)` example: every 4 goes, the other elements stay in order. */
  method RemoveDemo() returns (result: seq<int32>)
    ensures result == [2, 3, 6, 9, 1, 2, 8, 9, 6, 2]
  {
    var listOfInts := new List<int32>([2, 3, 4, 6, 4, 9, 1, 2, 8, 9, 4, 6, 2]);
    listOfInts.Remove(4);
    result := listOfInts.elems;
    RemoveFours();
  }

  lemma RemoveFours()
    ensures Filter([2, 3, 4, 6, 4, 9, 1, 2, 8, 9, 4, 6, 2], Not(Equals(4 as int32))) == [2, 3, 6, 9, 1, 2, 8, 9, 6, 2]
  {
    var p := Not(Equals(4 as int32));
    var a: seq<int32> := [2, 3, 4, 6, 4];
    var b: seq<int32> := [9, 1, 2, 8, 9];
    var c: seq<int32> := [4, 6, 2];
    assert Filter(a, p) == [2, 3, 6] by {
      FilterFive(a, p);
    }
    assert Filter(b, p) == [9, 1, 2, 8, 9] by {
      FilterFive(b, p);
    }
    assert Filter(c, p) == [6, 2] by {
      FilterByPrefixes(c, p);
    }
    assert Filter(a + b, p) == [2, 3, 6, 9, 1, 2, 8, 9] by {
      FilterConcat(a, b, p);
    }
    assert Filter(a + b + c, p) == [2, 3, 6, 9, 1, 2, 8, 9, 6, 2] by {
      FilterConcat(a + b, c, p);
    }
    assert a + b + c == [2, 3, 4, 6, 4, 9, 1, 2, 8, 9, 4, 6, 2];
  }

  /** The test of the second `remove_if` example: from 2 up to, not including, 5. */
  predicate FromTwoBelowFive(val: int32)
  {
    val >= 2 && val < 5
  }

  /**
   * The second `remove_if` example: every element from 2 to 4 goes, not only
   * the first 4, and the others stay in order.
   */
  method RemoveIfDemo() returns (result: seq<int32>)
    ensures result == [6, 9, 1, 8, 9, 6]
  {
    var listOfInts := new List<int32>([2, 3, 4, 6, 4, 9, 1, 2, 8, 9, 4, 6, 2]);
    listOfInts.RemoveIf(FromTwoBelowFive);
    result := listOfInts.elems;
    RemoveFromTwoBelowFive();
  }

  /**
   * The elements the second `remove_if` example keeps: the same test as
   * `Not(FromTwoBelowFive)`, written out as a named predicate so that the
   * solver can evaluate it on the example's literals. `RemoveFromTwoBelowFive`
   * swaps one for the other by `FilterSameTest`.
   */
  predicate OutsideTwoToFour(val: int32)
  {
    !FromTwoBelowFive(val)
  }

  lemma RemoveFromTwoBelowFive()
    ensures Filter([2, 3, 4, 6, 4, 9, 1, 2, 8, 9, 4, 6, 2], Not(FromTwoBelowFive)) == [6, 9, 1, 8, 9, 6]
  {
    var s: seq<int32> := [2, 3, 4, 6, 4, 9, 1, 2, 8, 9, 4, 6, 2];
    FilterSameTest(s, Not(FromTwoBelowFive), OutsideTwoToFour);
    KeptOutsideTwoToFour();
  }

  lemma KeptOutsideTwoToFour()
    ensures Filter([2, 3, 4, 6, 4, 9, 1, 2, 8, 9, 4, 6, 2], OutsideTwoToFour) == [6, 9, 1, 8, 9, 6]
  {
    var s: seq<int32> := [2, 3, 4, 6, 4, 9, 1, 2, 8, 9, 4, 6, 2];
    var p := OutsideTwoToFour;
    var a: seq<int32> := [2, 3, 4, 6, 4];
    var b: seq<int32> := [9, 1, 2, 8, 9];
    var c: seq<int32> := [4, 6, 2];
    assert Filter(a, p) == [6] by {
      FilterFive(a, p);
    }
    assert Filter(b, p) == [9, 1, 8, 9] by {
      FilterFive(b, p);
    }
    assert Filter(c, p) == [6] by {
      FilterByPrefixes(c, p);
    }
    assert Filter(a + b, p) == [6, 9, 1, 8, 9] by {
      FilterConcat(a, b, p);
    }
    assert Filter(a + b + c, p) == [6, 9, 1, 8, 9, 6] by {
      FilterConcat(a + b, c, p);
    }
    assert a + b + c == s;
  }

  /** The filter of five elements, element by element. */
  lemma FilterFive<T>(s: seq<T>, p: T -> bool)
    requires |s| == 5
    ensures Filter(s, p) == (if p(s[0]) then [s[0]] else []) + (if p(s[1]) then [s[1]] else [])
      + (if p(s[2]) then [s[2]] else []) + (if p(s[3]) then [s[3]] else []) + (if p(s[4]) then [s[4]] else [])
  {
    assert s[..0] == [];
    FilterPrefix(s, p, 1);
    assert Filter(s[..1], p) == if p(s[0]) then [s[0]] else [];
    FilterPrefix(s, p, 2);
    FilterPrefix(s, p, 3);
    FilterPrefix(s, p, 4);
    FilterPrefix(s, p, 5);
    assert s[..5] == s;
  }

  /** The test of the tutorial's `remove_if`: greater than three. */
  predicate GreaterThanThree(elem: int32)
  {
    elem > 3
  }

  /**
   * The tutorial example: two `push_back`s and two `push_front`s, an `insert`
   * at the third position, an `erase` there, and a `remove_if`.
   */
  method TutorialDemo() returns (pushed: seq<int32>, inserted: seq<int32>, erased: seq<int32>, removed: seq<int32>)
    ensures pushed == [1, 2, 5, 6]
    ensures inserted == [1, 2, 4, 5, 6]
    ensures erased == [1, 2, 5, 6]
    ensures removed == [1, 2]
  {
    var listOfNumbers := new List<int32>([]);
    listOfNumbers.PushBack(5);
    listOfNumbers.PushBack(6);
    listOfNumbers.PushFront(2);
    listOfNumbers.PushFront(1);
    pushed := listOfNumbers.elems;
    var it := 0;
    it := it + 1;
    it := it + 1;
    it := listOfNumbers.Insert(it, 4);
    inserted := listOfNumbers.elems;
    it := 0;
    it := it + 1;
    it := it + 1;
    it := listOfNumbers.Erase(it);
    erased := listOfNumbers.elems;
    listOfNumbers.RemoveIf(GreaterThanThree);
    removed := listOfNumbers.elems;
    TutorialRemoveIf();
  }

  /** The tutorial's `remove_if` keeps the elements up to three. */
  lemma TutorialRemoveIf()
    ensures Filter([1, 2, 5, 6], Not(GreaterThanThree)) == [1, 2]
  {
    var s: seq<int32> := [1, 2, 5, 6];
    var p := Not(GreaterThanThree);
    assert p(1);
    assert p(2);
    assert !p(5);
    assert !p(6);
    FilterByPrefixes(s, p);
    assert Filter(s[..2], p) == [1, 2];
  }

  /**
   * The erase example: erasing the second element returns the position of its
   * successor, and erasing from the position after that to the end leaves `[2, 4]`.
   */
  method EraseDemo() returns (afterErase: seq<int32>, itList: nat, result: seq<int32>)
    ensures afterErase == [2, 4, 6, 4, 9, 1, 2, 8, 9, 4, 6, 2, 4, 9] && itList == 1
    ensures result == [2, 4]
  {
    var listOfInts := new List<int32>([2, 3, 4, 6, 4, 9, 1, 2, 8, 9, 4, 6, 2, 4, 9]);
    itList := 0;
    itList := itList + 1;
    itList := listOfInts.Erase(itList);
    afterErase := listOfInts.elems;
    var next := itList + 1;
    next := listOfInts.EraseRange(next, |listOfInts.elems|);
    result := listOfInts.elems;
  }
}
