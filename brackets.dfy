/**
 * The bracket checker of the `std::map` tutorial: a string is accepted when
 * its `{}`, `()` and `[]` brackets are properly nested, found with a stack of
 * pending open brackets and a map from each closing bracket to its opening one.
 */
module Brackets {
  import opened Seqs
  import opened OrderedMaps

  datatype Option<T> = None | Some(value: T)

  predicate IsOpener(c: char)
  {
    c == '{' || c == '(' || c == '['
  }

  predicate IsCloser(c: char)
  {
    c == '}' || c == ')' || c == ']'
  }

  predicate IsBracket(c: char)
  {
    IsOpener(c) || IsCloser(c)
  }

  /** The opening bracket a closing bracket matches. */
  function OpenerOf(c: char): (o: char)
    requires IsCloser(c)
    ensures IsOpener(o)
  {
    if c == '}' then '{' else if c == ')' then '(' else '['
  }

  /** The brackets of `s`, in order: all that the checker looks at. */
  function BracketChars(s: string): string
  {
    Filter(s, IsBracket)
  }

  /**
   * One character seen by the checker, with the stack top at the end of
   * `stack`: an opener is pushed; a closer must find its opener on top, which
   * it pops, and otherwise the string is rejected (`None`); anything else is
   * skipped.
   */
  function Step(stack: string, c: char): Option<string>
  {
    if IsOpener(c) then Some(stack + [c])
    else if IsCloser(c) then
      if stack == [] || stack[|stack| - 1] != OpenerOf(c) then None
      else Some(stack[..|stack| - 1])
    else Some(stack)
  }

  /** The stack after the checker has seen all of `s`, or `None` once it has rejected. */
  function Scan(stack: string, s: string): Option<string>
  {
    if s == [] then Some(stack)
    else
      match Scan(stack, s[..|s| - 1])
      case None => None
      case Some(t) => Step(t, s[|s| - 1])
  }

  /** Continuing a scan that may already have rejected. */
  function Then(r: Option<string>, s: string): Option<string>
  {
    match r
    case None => None
    case Some(stack) => Scan(stack, s)
  }

  /**
   * Properly nested brackets, by their grammar: nothing, or an opener, a
   * nested part, the closer of that opener, and a nested rest.
   */
  ghost predicate WellNested(w: string)
    decreases |w|
  {
    w == [] ||
    (IsOpener(w[0]) &&
     exists j :: 1 <= j < |w| && IsCloser(w[j]) && OpenerOf(w[j]) == w[0] &&
                 WellNested(w[1..j]) && WellNested(w[j + 1..]))
  }

  predicate AllBrackets(w: string)
  {
    forall i :: 0 <= i < |w| ==> IsBracket(w[i])
  }

  /** Scanning one character is one step. */
  lemma ScanOne(stack: string, c: char)
    ensures Scan(stack, [c]) == Step(stack, c)
  {
    assert [c][..0] == [];
  }

  /** Scanning a concatenation scans the second part from where the first part left off. */
  lemma {:induction false} ScanAppend(stack: string, a: string, b: string)
    ensures Scan(stack, a + b) == Then(Scan(stack, a), b)
    decreases |b|
  {
    if b == [] {
      assert a + b == a;
      match Scan(stack, a)
      case None =>
      case Some(t) =>
    } else {
      var b' := b[..|b| - 1];
      var c := b[|b| - 1];
      assert (a + b)[..|a + b| - 1] == a + b';
      assert (a + b)[|a + b| - 1] == c;
      ScanAppend(stack, a, b');
      match Scan(stack, a)
      case None =>
      case Some(t) =>
    }
  }

  /** Once rejected, a string stays rejected whatever follows. */
  lemma RejectedPrefix(s: string, i: nat)
    requires i <= |s| && Scan([], s[..i]) == None
    ensures Scan([], s) == None
  {
    assert s == s[..i] + s[i..];
    ScanAppend([], s[..i], s[i..]);
  }

  /** The checker does not see anything but brackets. */
  lemma {:induction false} ScanBrackets(stack: string, s: string)
    ensures Scan(stack, s) == Scan(stack, BracketChars(s))
  {
    if s != [] {
      var s' := s[..|s| - 1];
      var c := s[|s| - 1];
      ScanBrackets(stack, s');
      if IsBracket(c) {
        ScanAppend(stack, BracketChars(s'), [c]);
        assert BracketChars(s) == BracketChars(s') + [c];
      } else {
        assert BracketChars(s) == BracketChars(s');
        match Scan(stack, s')
        case None =>
        case Some(t) =>
          ScanOne(t, c);
      }
    }
  }

  /** Soundness: a well-nested string leaves any stack as it found it. */
  lemma {:induction false} NestedScan(stack: string, w: string)
    requires WellNested(w)
    ensures Scan(stack, w) == Some(stack)
    decreases |w|
  {
    if w != [] {
      var j :| 1 <= j < |w| && IsCloser(w[j]) && OpenerOf(w[j]) == w[0] &&
               WellNested(w[1..j]) && WellNested(w[j + 1..]);
      NestedScan(stack + [w[0]], w[1..j]);
      NestedScan(stack, w[j + 1..]);
      ScanWrapped(stack, w, j);
    }
  }

  /**
   * An opener, a part that leaves the stack as it found it, the matching
   * closer, and a rest that does the same: the whole leaves the stack as it
   * found it.
   */
  lemma ScanWrapped(stack: string, w: string, j: nat)
    requires 1 <= j < |w| && IsOpener(w[0]) && IsCloser(w[j]) && OpenerOf(w[j]) == w[0]
    requires Scan(stack + [w[0]], w[1..j]) == Some(stack + [w[0]])
    requires Scan(stack, w[j + 1..]) == Some(stack)
    ensures Scan(stack, w) == Some(stack)
  {
    var o, a, c, b := w[0], w[1..j], w[j], w[j + 1..];
    var pushed := stack + [o];
    assert Scan(stack, w[..j]) == Some(pushed) by {
      assert w[..1] == [o];
      ScanOne(stack, o);
      assert w[..j] == w[..1] + a;
      ScanAppend(stack, w[..1], a);
    }
    assert Scan(stack, w[..j + 1]) == Some(stack) by {
      assert w[..j + 1] == w[..j] + [c];
      ScanAppend(stack, w[..j], [c]);
      ScanOne(pushed, c);
      assert pushed[..|pushed| - 1] == stack;
    }
    assert w == w[..j + 1] + b;
    ScanAppend(stack, w[..j + 1], b);
  }

  /**
   * While the stack never empties, the opener at its bottom stays there and
   * the rest of the stack is what scanning from the second character gives.
   */
  lemma {:induction false} BottomStays(w: string, k: nat)
    requires 1 <= k <= |w|
    requires forall i :: 1 <= i <= k ==> Scan([], w[..i]).Some? && Scan([], w[..i]).value != []
    ensures Scan([], w[1..k]).Some?
    ensures Scan([], w[..k]).value == [w[0]] + Scan([], w[1..k]).value
  {
    if k == 1 {
      ScanOne([], w[0]);
      assert w[..1] == [w[0]];
      assert w[1..1] == [];
    } else {
      BottomStays(w, k - 1);
      var u := Scan([], w[1..k - 1]).value;
      var c := w[k - 1];
      assert w[..k][..k - 1] == w[..k - 1];
      assert w[1..k][..k - 2] == w[1..k - 1];
      assert Scan([], w[..k]) == Step([w[0]] + u, c) by {
        ScanOne([w[0]] + u, c);
      }
      assert Scan([], w[1..k]) == Step(u, c) by {
        ScanOne(u, c);
      }
      if IsCloser(c) {
        assert u != [];
        assert ([w[0]] + u)[..|u|] == [w[0]] + u[..|u| - 1];
      } else if IsOpener(c) {
        assert [w[0]] + u + [c] == [w[0]] + (u + [c]);
      }
    }
  }

  /** The first return of the stack to empty, for a string that ends with an empty stack. */
  lemma FirstReturn(w: string) returns (m: nat)
    requires w != [] && Scan([], w) == Some([])
    ensures 1 <= m <= |w| && Scan([], w[..m]) == Some([])
    ensures forall i :: 1 <= i < m ==> Scan([], w[..i]).Some? && Scan([], w[..i]).value != []
  {
    m := 1;
    while Scan([], w[..m]) != Some([])
      invariant 1 <= m <= |w|
      invariant forall i :: 1 <= i < m ==> Scan([], w[..i]).Some? && Scan([], w[..i]).value != []
      decreases |w| - m
    {
      if Scan([], w[..m]) == None {
        RejectedPrefix(w, m);
        assert false;
      }
      assert w[..|w|] == w;
      m := m + 1;
    }
  }

  /** Completeness: brackets that the checker accepts are well nested. */
  lemma {:induction false} ScanNested(w: string)
    requires AllBrackets(w) && Scan([], w) == Some([])
    ensures WellNested(w)
    decreases |w|
  {
    if w != [] {
      var m := FirstReturn(w);
      assert m >= 2 by {
        ScanOne([], w[0]);
        assert w[..1] == [w[0]];
        assert IsBracket(w[0]);
      }
      BottomStays(w, m - 1);
      var j := m - 1;
      var a := w[1..j];
      var u := Scan([], a).value;
      var c := w[j];
      assert w[..m][..j] == w[..j];
      assert Scan([], w[..m]) == Step([w[0]] + u, c) by {
        ScanOne([w[0]] + u, c);
      }
      assert IsCloser(c) && u == [] && OpenerOf(c) == w[0] by {
        assert IsBracket(c);
      }
      assert IsOpener(w[0]);
      assert AllBrackets(a) by {
        forall i | 0 <= i < |a| ensures IsBracket(a[i]) {
          assert a[i] == w[1 + i];
        }
      }
      ScanNested(a);
      var b := w[j + 1..];
      assert w == w[..m] + b;
      ScanAppend([], w[..m], b);
      assert AllBrackets(b) by {
        forall i | 0 <= i < |b| ensures IsBracket(b[i]) {
          assert b[i] == w[j + 1 + i];
        }
      }
      ScanNested(b);
    }
  }

  lemma {:induction false} BracketsAreBrackets(s: string)
    ensures AllBrackets(BracketChars(s))
  {
    FilterSatisfies(s, IsBracket);
  }

  /** The checker accepts exactly the strings whose brackets are properly nested. */
  lemma AcceptedIffNested(s: string)
    ensures Scan([], s) == Some([]) <==> WellNested(BracketChars(s))
  {
    ScanBrackets([], s);
    if WellNested(BracketChars(s)) {
      NestedScan([], BracketChars(s));
    }
    if Scan([], s) == Some([]) {
      BracketsAreBrackets(s);
      ScanNested(BracketChars(s));
    }
  }

  /** A string without brackets is accepted: everything but brackets is skipped. */
  lemma NoBracketsAccepted(s: string)
    requires forall i :: 0 <= i < |s| ==> !IsBracket(s[i])
    ensures Scan([], s) == Some([])
  {
    ScanBrackets([], s);
    FilterMembership(s, IsBracket, if BracketChars(s) == [] then 'x' else BracketChars(s)[0]);
  }

  /** A closer met while no opener is pending rejects the string. */
  lemma UnderflowRejected(s: string, i: nat)
    requires i < |s| && Scan([], s[..i]) == Some([]) && IsCloser(s[i])
    ensures Scan([], s) == None && !WellNested(BracketChars(s))
  {
    ScanPrefixStep([], s, i, []);
    Rejected(s, i + 1);
  }

  /** A closer that does not match the innermost pending opener rejects the string. */
  lemma MismatchRejected(s: string, i: nat, stack: string)
    requires i < |s| && Scan([], s[..i]) == Some(stack) && stack != []
    requires IsCloser(s[i]) && stack[|stack| - 1] != OpenerOf(s[i])
    ensures Scan([], s) == None && !WellNested(BracketChars(s))
  {
    ScanPrefixStep([], s, i, stack);
    Rejected(s, i + 1);
  }

  /** Openers left pending at the end reject the string. */
  lemma LeftoverRejected(s: string, stack: string)
    requires Scan([], s) == Some(stack) && stack != []
    ensures !WellNested(BracketChars(s))
  {
    AcceptedIffNested(s);
  }

  /** The stack only ever holds openers. */
  lemma {:induction false} StackHoldsOpeners(s: string)
    ensures Scan([], s).Some? ==> forall k :: 0 <= k < |Scan([], s).value| ==> IsOpener(Scan([], s).value[k])
  {
    if s != [] {
      StackHoldsOpeners(s[..|s| - 1]);
    }
  }

  /** The comparator of `std::map<char, char>`. */
  function CharLess(): (char, char) -> bool
  {
    (a: char, b: char) => a < b
  }

  lemma CharLessIsTotalOrder()
    ensures StrictTotalOrder(CharLess())
  {
  }

  /**
   * `isOpenBracket`: whether `val` is one of the map's values, found by
   * walking the map in key order. The map is passed by copy.
   */
  method IsOpenBracket(val: char, mapOfBrackets: OrderedMap<char, char>) returns (r: bool)
    requires mapOfBrackets.Valid()
    ensures r <==> val in mapOfBrackets.m.Values
  {
    var it := 0;
    while it < |mapOfBrackets.keys|
      invariant 0 <= it <= |mapOfBrackets.keys|
      invariant forall i :: 0 <= i < it ==> mapOfBrackets.m[mapOfBrackets.keys[i]] != val
    {
      if mapOfBrackets.m[mapOfBrackets.keys[it]] == val {
        return true;
      }
      it := it + 1;
    }
    return false;
  }

  /** The map from each closing bracket to its opening bracket. */
  ghost predicate IsBracketMap(m: map<char, char>)
  {
    m == map['}' := '{', ')' := '(', ']' := '[']
  }

  /** The bracket map's keys are the closers, each mapped to its opener, and its values the openers. */
  lemma BracketMapFacts(m: map<char, char>, c: char)
    requires IsBracketMap(m)
    ensures c in m <==> IsCloser(c)
    ensures c in m ==> m[c] == OpenerOf(c)
    ensures c in m.Values <==> IsOpener(c)
  {
    assert m['}'] == '{' && m[')'] == '(' && m[']'] == '[';
  }

  /**
   * `testBracket`: scans `s` with a stack of pending openers and accepts it
   * when every closer met its opener on top and no opener is left over.
   */
  method TestBracket(s: string) returns (ok: bool)
    ensures ok <==> Scan([], s) == Some([])
    ensures ok <==> WellNested(BracketChars(s))
  {
    var bracketStack: string := [];
    CharLessIsTotalOrder();
    var bracketMap := new OrderedMap(CharLess());
    bracketMap.Put('}', '{');
    bracketMap.Put(')', '(');
    bracketMap.Put(']', '[');
    assert IsBracketMap(bracketMap.m);

    var i := 0;
    while i < |s|
      invariant 0 <= i <= |s|
      invariant bracketMap.Valid() && IsBracketMap(bracketMap.m)
      invariant Scan([], s[..i]) == Some(bracketStack)
    {
      ScanPrefixStep([], s, i, bracketStack);
      BracketMapFacts(bracketMap.m, s[i]);
      var isOpen := IsOpenBracket(s[i], bracketMap);
      if isOpen {
        bracketStack := bracketStack + [s[i]];
      }
      if s[i] in bracketMap.m {
        if bracketStack == [] {
          Rejected(s, i + 1);
          return false;
        }
        if bracketStack[|bracketStack| - 1] != bracketMap.m[s[i]] {
          Rejected(s, i + 1);
          return false;
        } else {
          bracketStack := bracketStack[..|bracketStack| - 1];
        }
      }
      i := i + 1;
    }
    assert s[..i] == s;
    AcceptedIffNested(s);
    if |bracketStack| > 0 {
      return false;
    } else {
      return true;
    }
  }

  /** A string with a rejected prefix is neither accepted nor well nested. */
  lemma Rejected(s: string, i: nat)
    requires i <= |s| && Scan([], s[..i]) == None
    ensures Scan([], s) == None
    ensures !WellNested(BracketChars(s))
  {
    RejectedPrefix(s, i);
    AcceptedIffNested(s);
  }

  /** One more character of a prefix is one more step. */
  lemma ScanPrefixStep(stack0: string, s: string, k: nat, stack: string)
    requires k < |s| && Scan(stack0, s[..k]) == Some(stack)
    ensures Scan(stack0, s[..k + 1]) == Step(stack, s[k])
  {
    assert s[..k + 1][..k] == s[..k];
  }

  /** The doc comment's first example opens `(` and `{`. */
  lemma DocExampleHead()
    ensures Scan("", "(4+{8-") == Some("({")
  {
    assert "(4+{8-"[..0] == [];
    ScanPrefixStep("", "(4+{8-", 0, "");
    assert "" + ['('] == "(";
    ScanPrefixStep("", "(4+{8-", 1, "(");
    ScanPrefixStep("", "(4+{8-", 2, "(");
    ScanPrefixStep("", "(4+{8-", 3, "(");
    assert "(" + ['{'] == "({";
    ScanPrefixStep("", "(4+{8-", 4, "({");
    ScanPrefixStep("", "(4+{8-", 5, "({");
    assert "(4+{8-"[..6] == "(4+{8-";
  }

  /** Then `[22+8]` is closed again. */
  lemma DocExampleMiddle()
    ensures Scan("({", "[22+8]") == Some("({")
  {
    assert "[22+8]"[..0] == [];
    ScanPrefixStep("({", "[22+8]", 0, "({");
    assert "({" + ['['] == "({[";
    ScanPrefixStep("({", "[22+8]", 1, "({[");
    ScanPrefixStep("({", "[22+8]", 2, "({[");
    ScanPrefixStep("({", "[22+8]", 3, "({[");
    ScanPrefixStep("({", "[22+8]", 4, "({[");
    ScanPrefixStep("({", "[22+8]", 5, "({[");
    assert "[22+8]"[..6] == "[22+8]";
  }

  /** Then `}` closes the `{`, and `]` meets the `(`. */
  lemma DocExampleTail()
    ensures Scan("({", "*}]") == None
  {
    assert "*}]"[..0] == [];
    ScanPrefixStep("({", "*}]", 0, "({");
    ScanPrefixStep("({", "*}]", 1, "({");
    assert "({"[..1] == "(";
    ScanPrefixStep("({", "*}]", 2, "(");
  }

  /**
   * The string the checker's doc comment calls validly bracketed: the closing
   * `]` meets the `(`, so it is rejected, and its brackets are not nested.
   */
  lemma DocExampleRejected()
    ensures Scan([], "(4+{8-[22+8]*}]") == None
    ensures !WellNested(BracketChars("(4+{8-[22+8]*}]"))
  {
    var s := "(4+{8-[22+8]*}]";
    DocExampleHead();
    DocExampleMiddle();
    DocExampleTail();
    assert s == "(4+{8-" + "[22+8]" + "*}]";
    ScanAppend([], "(4+{8-", "[22+8]");
    ScanAppend([], "(4+{8-" + "[22+8]", "*}]");
    assert s[..|s|] == s;
    Rejected(s, |s|);
  }

  /** The doc comment's second example fails at its `]`. */
  lemma DocExampleInvalidPrefix()
    ensures Scan("", "({5+8]") == None
  {
    assert "({5+8]"[..0] == [];
    ScanPrefixStep("", "({5+8]", 0, "");
    assert "" + ['('] == "(";
    ScanPrefixStep("", "({5+8]", 1, "(");
    assert "(" + ['{'] == "({";
    ScanPrefixStep("", "({5+8]", 2, "({");
    ScanPrefixStep("", "({5+8]", 3, "({");
    ScanPrefixStep("", "({5+8]", 4, "({");
    ScanPrefixStep("", "({5+8]", 5, "({");
  }

  /** The string the doc comment calls invalid is indeed rejected. */
  lemma DocExampleInvalid()
    ensures Scan([], "({5+8])") == None
    ensures !WellNested(BracketChars("({5+8])"))
  {
    var s := "({5+8])";
    DocExampleInvalidPrefix();
    assert s[..6] == "({5+8]";
    Rejected(s, 6);
  }
}
