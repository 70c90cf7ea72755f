/**
 * The `std::set` tutorial: ordering messages by `operator<` and by an
 * external comparator, reading the n-th element, inserting with a result,
 * and erasing while iterating.
 */
module SetTutorial {
  import opened Seqs
  import opened Strings
  import opened Cpp
  import opened OrderedSets

  /** A message; one class of this shape serves both the default-order and the comparator examples. */
  datatype Message = Message(msgContent: string, sentBy: string, recivedBy: string)

  /**
   * The constructor `Message(sentBy, recBy, msg)`: note the order of its
   * parameters, which differs from the order of the fields.
   */
  function NewMessage(sentBy: string, recBy: string, msg: string): Message
  {
    Message(msg, sentBy, recBy)
  }

  /** The string `operator<` compares: content, sender and receiver concatenated. */
  function Key(m: Message): string
  {
    m.msgContent + m.sentBy + m.recivedBy
  }

  /** `Message::operator<`. */
  predicate MessageLess(left: Message, right: Message)
  {
    StrLess(Key(left), Key(right))
  }

  /**
   * `operator<` is a valid ordering for `std::set`, and two messages are
   * duplicates under it exactly when their concatenated strings are equal.
   */
  lemma MessageLessIsWeakOrder()
    ensures StrictWeakOrder(MessageLess)
    ensures forall a, b :: Equivalent(MessageLess, a, b) <==> Key(a) == Key(b)
  {
    StrLessIsTotalOrder();
    InducedOrder(StrLess, Key, MessageLess);
  }

  /**
   * Equal concatenations do not make equal messages: the comparison cannot
   * tell where one field ends and the next begins.
   */
  lemma AmbiguousKey()
    ensures var a, b := Message("ab", "c", ""), Message("a", "bc", "");
      a != b && Equivalent(MessageLess, a, b)
  {
    var a, b := Message("ab", "c", ""), Message("a", "bc", "");
    assert Key(a) == Key(b) == "abc";
    MessageLessIsWeakOrder();
  }

  /** Two messages whose contents first differ at position `i` are ordered by their contents. */
  lemma ContentsDecide(a: Message, b: Message, i: nat)
    requires i < |a.msgContent| && i < |b.msgContent|
    requires a.msgContent[..i] == b.msgContent[..i] && a.msgContent[i] < b.msgContent[i]
    ensures MessageLess(a, b) && !MessageLess(b, a)
  {
    var ka, kb := Key(a), Key(b);
    assert ka[..i] == a.msgContent[..i] && ka[i] == a.msgContent[i] by {
      assert ka == a.msgContent + (a.sentBy + a.recivedBy);
    }
    assert kb[..i] == b.msgContent[..i] && kb[i] == b.msgContent[i] by {
      assert kb == b.msgContent + (b.sentBy + b.recivedBy);
    }
    StrLessAt(ka, kb, i);
  }

  /** How the default order ranks the three distinct messages of its example: by their contents. */
  lemma DefaultOrderFacts(msg1: Message, msg2: Message, msg3: Message)
    requires msg1 == NewMessage("user_1", "Hello", "user_2")
    requires msg2 == NewMessage("user_1", "Hello", "user_3")
    requires msg3 == NewMessage("user_3", "Hello", "user_1")
    ensures MessageLess(msg3, msg1) && !MessageLess(msg1, msg3)
    ensures MessageLess(msg1, msg2) && !MessageLess(msg2, msg1)
    ensures MessageLess(msg3, msg2) && !MessageLess(msg2, msg3)
  {
    assert "user_1"[..5] == "user_2"[..5] == "user_3"[..5];
    ContentsDecide(msg3, msg1, 5);
    ContentsDecide(msg1, msg2, 5);
    ContentsDecide(msg3, msg2, 5);
  }

  /**
   * The default-order example: of the four messages the fourth duplicates the
   * second and is not inserted, and the set holds the other three in the
   * order of their concatenated strings.
   */
  method DefaultOrderDemo() returns (contents: seq<Message>, inserted4: bool)
    ensures contents == [NewMessage("user_3", "Hello", "user_1"), NewMessage("user_1", "Hello", "user_2"),
                         NewMessage("user_1", "Hello", "user_3")]
    ensures !inserted4
  {
    var msg1 := NewMessage("user_1", "Hello", "user_2");
    var msg2 := NewMessage("user_1", "Hello", "user_3");
    var msg3 := NewMessage("user_3", "Hello", "user_1");
    var msg4 := NewMessage("user_1", "Hello", "user_3");
    assert StrictWeakOrder(MessageLess) by {
      MessageLessIsWeakOrder();
    }
    var setOfMsgs := new OrderedSet(MessageLess);
    var pos, ins := setOfMsgs.Insert(msg1);
    assert setOfMsgs.elems == [msg1];
    ghost var before := setOfMsgs.elems;
    pos, ins := setOfMsgs.Insert(msg2);
    assert ins && pos == 1 by {
      DefaultOrderFacts(msg1, msg2, msg3);
      assert !Equivalent(MessageLess, msg2, before[0]);
      assert var y := before[0]; pos == 0 ==> MessageLess(msg2, y);
    }
    assert setOfMsgs.elems == [msg1, msg2];
    before := setOfMsgs.elems;
    pos, ins := setOfMsgs.Insert(msg3);
    assert ins && pos == 0 by {
      DefaultOrderFacts(msg1, msg2, msg3);
      assert !Equivalent(MessageLess, msg3, before[0]) && !Equivalent(MessageLess, msg3, before[1]);
      assert var y := before[0]; pos > 0 ==> MessageLess(y, msg3);
    }
    assert setOfMsgs.elems == [msg3, msg1, msg2];
    pos, inserted4 := setOfMsgs.Insert(msg4);
    assert !inserted4 by {
      assert msg4 in [msg3, msg1, msg2] && Equivalent(MessageLess, msg4, msg4);
    }
    contents := setOfMsgs.elems;
  }

  /** `MessageUserComparator`: orders messages by sender; the user name it is built with is unused. */
  datatype MessageUserComparator = MessageUserComparator(userName: string)
  {
    predicate Compare(msg1: Message, msg2: Message)
    {
      StrLess(msg1.sentBy, msg2.sentBy)
    }
  }

  /** The comparator as the function a `std::set` calls. */
  function UserOrder(c: MessageUserComparator): (Message, Message) -> bool
  {
    (msg1, msg2) => c.Compare(msg1, msg2)
  }

  /**
   * The sender of a message, as a function: it exists only to serve as the
   * key argument of `InducedOrder` in `UserOrderIsWeakOrder`.
   */
  function Sender(m: Message): string
  {
    m.sentBy
  }

  /**
   * The comparator is a valid ordering for `std::set`, under which two
   * messages are duplicates exactly when they have the same sender.
   */
  lemma UserOrderIsWeakOrder(c: MessageUserComparator)
    ensures StrictWeakOrder(UserOrder(c))
    ensures forall a, b :: Equivalent(UserOrder(c), a, b) <==> a.sentBy == b.sentBy
  {
    StrLessIsTotalOrder();
    InducedOrder(StrLess, Sender, UserOrder(c));
  }

  /** Messages from the same sender are duplicates under the comparator. */
  lemma SameSender(c: MessageUserComparator, a: Message, b: Message)
    requires a.sentBy == b.sentBy
    ensures Equivalent(UserOrder(c), a, b)
  {
    StrLessIrreflexive(a.sentBy);
  }

  /** How the comparator ranks the two senders of its example. */
  lemma SenderFacts(c: MessageUserComparator, a: Message, b: Message)
    requires a.sentBy == "user_1" && b.sentBy == "user_3"
    ensures UserOrder(c)(a, b) && !UserOrder(c)(b, a)
  {
    assert "user_1"[..5] == "user_3"[..5];
    StrLessAt("user_1", "user_3", 5);
  }

  /**
   * The comparator example: the first, second and fourth messages share a
   * sender, so only the first of them is inserted, and the set holds it and
   * the third message, in the order of their senders.
   */
  method UserComparatorDemo() returns (contents: seq<Message>, inserted2: bool, inserted4: bool)
    ensures contents == [NewMessage("user_1", "Hello", "user_2"), NewMessage("user_3", "Hello", "user_1")]
    ensures !inserted2 && !inserted4
  {
    var msg1 := NewMessage("user_1", "Hello", "user_2");
    var msg2 := NewMessage("user_1", "Hello", "user_3");
    var msg3 := NewMessage("user_3", "Hello", "user_1");
    var msg4 := NewMessage("user_1", "Hello", "user_3");
    var comparator := MessageUserComparator("user_1");
    var less := UserOrder(comparator);
    assert StrictWeakOrder(less) by {
      UserOrderIsWeakOrder(comparator);
    }
    var setOfMsgs_1 := new OrderedSet(less);
    var pos, ins := setOfMsgs_1.Insert(msg1);
    assert setOfMsgs_1.elems == [msg1];
    pos, inserted2 := setOfMsgs_1.Insert(msg2);
    assert !inserted2 by {
      SameSender(comparator, msg2, msg1);
      assert msg1 in [msg1];
    }
    ghost var before := setOfMsgs_1.elems;
    pos, ins := setOfMsgs_1.Insert(msg3);
    assert ins && pos == 1 by {
      SenderFacts(comparator, msg1, msg3);
      assert !Equivalent(less, msg3, before[0]);
      assert var y := before[0]; pos == 0 ==> less(msg3, y);
    }
    assert setOfMsgs_1.elems == [msg1, msg3];
    pos, inserted4 := setOfMsgs_1.Insert(msg4);
    assert !inserted4 by {
      SameSender(comparator, msg4, msg1);
      assert msg1 in [msg1, msg3];
    }
    contents := setOfMsgs_1.elems;
  }

  /**
   * `getNthElement`: the element at position `n` in the set's order, paired
   * with `true`, when `size() > n`; otherwise `init`, standing for the
   * default-constructed value, paired with `false`. The comparison converts
   * `n` to `size_t`, so a negative `n` is never found.
   */
  function GetNthElement<T(==,!new)>(searchSet: OrderedSet<T>, n: int32, init: T): (result: (T, bool))
    reads searchSet
    ensures result.1 <==> ToSizeT(n) < |searchSet.elems|
    ensures |searchSet.elems| <= SizeTModulus - 0x8000_0000 ==> (result.1 <==> 0 <= n as int < |searchSet.elems|)
    ensures result.1 ==> result.0 in searchSet.elems
    ensures !result.1 ==> result.0 == init
  {
    if |searchSet.elems| > ToSizeT(n) then (searchSet.elems[ToSizeT(n)], true)
    else (init, false)
  }

  /** The element found at position `n` is the one with exactly `n` elements below it. */
  lemma NthElementRank<T(!new)>(searchSet: OrderedSet<T>, n: int32, init: T)
    requires searchSet.Valid()
    requires n >= 0 && GetNthElement(searchSet, n, init).1
    ensures var x := GetNthElement(searchSet, n, init).0;
      |set y | y in searchSet.elems && searchSet.less(y, x)| == n as int
  {
    var s, less, k := searchSet.elems, searchSet.less, n as int;
    var x := s[k];
    assert GetNthElement(searchSet, n, init).0 == x;
    assert (set y | y in s && less(y, x)) == (set y | y in s[..k]) by {
      forall y | y in s && less(y, x) ensures y in s[..k] {
        var j :| 0 <= j < |s| && s[j] == y;
        if j >= k {
          assert false;
        }
      }
      forall y | y in s[..k] ensures y in s && less(y, x) {
        var j :| 0 <= j < k && s[..k][j] == y;
        assert s[j] == y;
      }
    }
    SortedIsDistinct(less, s);
    assert Distinct(s[..k]);
    DistinctCard(s[..k]);
  }

  /**
   * The index example: inserting `"bb"`, `"ee"`, `"dd"`, `"aa"` and `"ll"`
   * orders them, so the element at position 3 is `"ee"`, and there is none at
   * position 7.
   */
  method NthElementDemo() returns (third: (string, bool), seventh: (string, bool))
    ensures third == ("ee", true)
    ensures !seventh.1
  {
    var setOfStr := NewStringSet();
    InsertBeeDeeEe(setOfStr);
    InsertAa(setOfStr);
    InsertLl(setOfStr);
    third := GetNthElement(setOfStr, 3, "");
    seventh := GetNthElement(setOfStr, 7, "");
  }

  /** The first three insertions of the index example: `"bb"`, `"ee"`, `"dd"`. */
  method InsertBeeDeeEe(setOfStr: OrderedSet<string>)
    requires setOfStr.Valid() && setOfStr.less == StrLess && setOfStr.elems == []
    modifies setOfStr
    ensures setOfStr.Valid() && setOfStr.less == StrLess
    ensures setOfStr.elems == ["bb", "dd", "ee"]
  {
    InsertBetween(setOfStr, "bb", 0);
    FirstCharDecides("bb", "ee");
    InsertBetween(setOfStr, "ee", 1);
    assert setOfStr.elems == ["bb", "ee"];
    FirstCharDecides("bb", "dd");
    FirstCharDecides("dd", "ee");
    InsertBetween(setOfStr, "dd", 1);
  }

  /** The fourth insertion of the index example: `"aa"`. */
  method InsertAa(setOfStr: OrderedSet<string>)
    requires setOfStr.Valid() && setOfStr.less == StrLess && setOfStr.elems == ["bb", "dd", "ee"]
    modifies setOfStr
    ensures setOfStr.Valid() && setOfStr.less == StrLess
    ensures setOfStr.elems == ["aa", "bb", "dd", "ee"]
  {
    FirstCharDecides("aa", "bb");
    FirstCharDecides("aa", "dd");
    FirstCharDecides("aa", "ee");
    InsertBetween(setOfStr, "aa", 0);
  }

  /** The last insertion of the index example: `"ll"`. */
  method InsertLl(setOfStr: OrderedSet<string>)
    requires setOfStr.Valid() && setOfStr.less == StrLess && setOfStr.elems == ["aa", "bb", "dd", "ee"]
    modifies setOfStr
    ensures setOfStr.Valid() && setOfStr.less == StrLess
    ensures setOfStr.elems == ["aa", "bb", "dd", "ee", "ll"]
  {
    FirstCharDecides("aa", "ll");
    FirstCharDecides("bb", "ll");
    FirstCharDecides("dd", "ll");
    FirstCharDecides("ee", "ll");
    InsertBetween(setOfStr, "ll", 4);
  }

  /** An empty `std::set<std::string>`. */
  method NewStringSet() returns (setOfStrs: OrderedSet<string>)
    ensures fresh(setOfStrs) && setOfStrs.Valid()
    ensures setOfStrs.less == StrLess && setOfStrs.elems == []
  {
    StrLessIsTotalOrder();
    setOfStrs := new OrderedSet(StrLess);
  }

  /**
   * An `insert` of `x`, which lies above the first `k` elements and below the
   * rest, adds `x` at position `k`.
   */
  method InsertBetween<T(==,!new)>(container: OrderedSet<T>, x: T, k: nat)
    requires container.Valid() && k <= |container.elems|
    requires forall j :: 0 <= j < k ==> container.less(container.elems[j], x)
    requires forall j :: k <= j < |container.elems| ==> container.less(x, container.elems[j])
    modifies container
    ensures container.Valid()
    ensures container.elems == old(container.elems[..k]) + [x] + old(container.elems[k..])
  {
    ghost var before, less := container.elems, container.less;
    forall y | y in before ensures !Equivalent(less, x, y) {
      var j :| 0 <= j < |before| && before[j] == y;
      assert j < k ==> less(y, x);
    }
    var pos, inserted := container.Insert(x);
    assert pos == k by {
      if k < |before| {
        assert !less(before[k], x);
      }
      if pos < |before| {
        assert less(x, before[pos]);
      }
    }
  }

  /** Strings whose first characters differ are ordered by them. */
  lemma FirstCharDecides(a: string, b: string)
    requires |a| > 0 && |b| > 0 && a[0] < b[0]
    ensures StrLess(a, b) && !StrLess(b, a)
  {
    StrLessAt(a, b, 0);
  }

  /**
   * `insertInSet`: inserts `str` into a set of strings and reports whether it
   * was added, which happens exactly when it was not yet present.
   */
  method InsertInSet(setOfStrs: OrderedSet<string>, str: string) returns (inserted: bool)
    requires setOfStrs.Valid()
    requires forall a, b :: setOfStrs.less(a, b) == StrLess(a, b)
    modifies setOfStrs
    ensures setOfStrs.Valid()
    ensures inserted <==> str !in old(setOfStrs.elems)
    ensures (set s | s in setOfStrs.elems) == (set s | s in old(setOfStrs.elems)) + {str}
    ensures |setOfStrs.elems| == |old(setOfStrs.elems)| + if inserted then 1 else 0
  {
    StrLessIsTotalOrder();
    assert forall a, b :: Equivalent(setOfStrs.less, a, b) <==> a == b;
    var pos;
    pos, inserted := setOfStrs.Insert(str);
    if inserted {
      assert str in setOfStrs.elems;
    }
  }

  /** The strings `test1` keeps: those of at most three characters. */
  predicate Short(s: string)
  {
    |s| <= 3
  }

  /**
   * The loop of `test1`: walks the set and erases every string longer than
   * three characters, stepping onto the successor each time.
   */
  method EraseLongStrings(setOfStrs: OrderedSet<string>)
    requires setOfStrs.Valid()
    modifies setOfStrs
    ensures setOfStrs.Valid()
    ensures setOfStrs.elems == Filter(old(setOfStrs.elems), Short)
    ensures forall s :: s in setOfStrs.elems <==> s in old(setOfStrs.elems) && |s| <= 3
  {
    ghost var s0 := setOfStrs.elems;
    var it := 0;
    while it != |setOfStrs.elems|
      invariant setOfStrs.Valid()
      invariant 0 <= it <= |setOfStrs.elems|
      invariant EraseLoop(setOfStrs.elems, it, Short) == EraseLoop(s0, 0, Short)
      decreases |setOfStrs.elems| - it
    {
      if |setOfStrs.elems[it]| > 3 {
        it := setOfStrs.EraseAt(it);
      } else {
        it := it + 1;
      }
    }
    EraseLoopFromStart(s0, Short);
    forall s ensures s in setOfStrs.elems <==> s in s0 && |s| <= 3 {
      FilterMembership(s0, Short, s);
    }
  }

  /**
   * The generic `erase_if` on a set: walks `[first, last)` and erases every
   * element `checker` accepts. The range's end stays on the same element,
   * so its position moves down with each erasure.
   */
  method EraseIf<S(==,!new)>(container: OrderedSet<S>, first: nat, last: nat, checker: S -> bool)
    requires container.Valid()
    requires first <= last <= |container.elems|
    modifies container
    ensures container.Valid()
    ensures container.elems ==
              old(container.elems[..first]) + Filter(old(container.elems[first..last]), Not(checker)) + old(container.elems[last..])
  {
    ghost var s0 := container.elems;
    ghost var keep := Not(checker);
    var it: nat, end: nat := first, last;
    while it != end
      invariant container.Valid()
      invariant it <= end <= |container.elems|
      invariant EraseRangeLoop(container.elems, it, end, keep) == EraseRangeLoop(s0, first, last, keep)
      decreases end - it
    {
      if checker(container.elems[it]) {
        it := container.EraseAt(it);
        end := end - 1;
      } else {
        it := it + 1;
      }
    }
    EraseRangeLoopIsFilter(s0, first, last, keep);
  }
}
