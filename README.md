# STL container tutorials, modelled in Dafny

The repository is a set of C++ tutorial programs about the standard
containers. This project models their algorithmic core, which is the helper
functions and example sequences that work on `std::map`, `std::set` and
`std::list`:

- **map**: searching a map by value (`serachByValue`, `findByValue`), the two
  `erase_if` overloads that erase while iterating, `isODD`, and the bracket
  checker (`isOpenBracket`, `testBracket`).
- **set**: the `Message` class ordered by its `operator<` and by
  `MessageUserComparator`, `getNthElement`, `insertInSet`, the
  erase-while-iterating loop of `test1`, and the generic `erase_if`.
- **list**: `std::find` and the generic `contains`, the erase-while-iterating
  loop, and the `push_back`/`push_front`/`insert`/`erase`/`remove`/`remove_if`
  examples.

## How the model is built

- **The containers are classes.** A container's observable state is a field,
  and its operations change that field.
  - `OrderedMaps.OrderedMap`: the keys in ascending order plus a `map` of entries.
  - `OrderedSets.OrderedSet`: the elements in ascending order.
  - `Lists.List`: the elements in order.
  - `OrderedMaps.Vector`: the elements in order.
  - A map or set holds its comparator as a `const less` field. Its `Valid()`
    says the keys are strictly sorted under `less`, and `less` is a strict
    weak order (a strict total order for the maps).
  - `OrderedMap.Valid()` asks for a strict total order, in which only equal
    keys are equivalent. A `std::map` whose comparator is merely a strict
    weak order is therefore outside the model. Every map in the modelled code
    has `std::string` or `char` keys under their built-in `<`, which is total.
- **An iterator is a position.** It is a `nat` index into the ordered
  sequence, and `end()` is the sequence's length. `erase(it)` returns the
  same position, which now holds the successor.
- **The erase-while-iterating loops are imperative.** Each one is a `while`
  loop over such a position.
  - Each loop is proved against `Seqs.EraseLoop`, a reference function giving
    what the loop leaves when it starts from a given cursor.
  - `Seqs.EraseLoopFromStart` and `Seqs.EraseRangeLoopIsFilter` then show
    that the loop keeps exactly `Filter(s, keep)`: the elements that pass,
    in their original order.
  - `Seqs.Filter` is the specification of what erasing leaves from a
    sequence. For a map, `MapTutorial.EraseWhere` is the definition of the
    entries that remain: those whose value fails the test, with their values.
- **Definitions the contracts are stated with.** These carry no contract of
  their own; the lemmas named in the table state their properties.
  - `SetTutorial.NewMessage` is the `Message` constructor
    (set/main.cpp:134-136). Its parameters come as sender, receiver and
    content, while the fields come in the order content, sender, receiver.
  - `SetTutorial.MessageLess` is `Message::operator<`.
  - `SetTutorial.MessageUserComparator.Compare` is the comparator's
    `operator()`.
  - `Brackets.Step` is one pass of `testBracket`'s loop body, and
    `Brackets.Scan` is the loop over the whole string.
  - The tests passed to the erase loops and `remove_if` are named predicates:
    `ListTutorial.NotMultipleOfThree`, `ListTutorial.GreaterThanThree`,
    `ListTutorial.FromTwoBelowFive` and `SetTutorial.Short`.
- **C++ arithmetic is written out** in module `Cpp`:
  - `int` is `Cpp.int32`: the list elements, `isODD`'s argument, `getNthElement`'s
    index and `serachByValue`'s map values. The erase counters are the exception,
    as "## Left out" says.
  - `%` truncates toward zero (`Cpp.Rem`).
  - Comparing an `int` with `size()` converts it to a 64-bit `size_t`
    (`Cpp.ToSizeT`), so a negative `n` wraps to a huge value.
- **String order** is `Strings.StrLess`: lexicographic, character by
  character, which is `std::string`'s `operator<` on `char` values.
- **The bracket checker** is related to a grammar.
  - `Brackets.Scan` is the stack machine that `testBracket` runs.
  - `Brackets.WellNested` is the grammar of properly nested brackets.
  - `Brackets.AcceptedIffNested` proves that the checker accepts a string
    exactly when its brackets are nested according to that grammar.

Where the comments in the source and its code disagree, the model follows
the code:

- **The bracket checker's doc comment.** `map/main.cpp:1040` calls
  `(4+{8-[22+8]*}]` a valid combination. The code rejects it, because `}`
  closes `{` and then `]` meets `(`. `Brackets.DocExampleRejected` proves
  the rejection.
- **The second `remove_if` list example.** The comment at
  `list/main.cpp:280` speaks of removing "only the first occurrence" of 4.
  The code removes every element from 2 to 4 (`ListTutorial.RemoveIfDemo`).

## Model

| member | source | states |
|---|---|---|
| MapTutorial.SerachByValue | map/main.cpp:100-110 | the returned iterator is the first entry in key order whose value is `val` |
| MapTutorial.FindByValue | map/main.cpp:623-643 | appends to the vector exactly the keys holding `value`, in ascending key order; the result is true iff some entry holds `value` |
| MapTutorial.MatchingKeys | map/main.cpp:623-643 | the keys collected by value are ascending and are exactly the keys whose values pass the test |
| MapTutorial.EraseIfValue | map/main.cpp:917-940 | the map keeps exactly the entries whose value differs from `value`, its keys stay in order, and the count returned is the number of entries erased |
| MapTutorial.EraseIf | map/main.cpp:972-995 | the map keeps exactly the entries whose value fails `functor`, and the count returned is the number of entries erased |
| MapTutorial.EraseLoopResult | map/main.cpp:923-938 | once the erase loop's cursor reaches the end, the keys and entries left are the filtered ones, and the erased count is the number of matching keys |
| MapTutorial.ErasedEntries | map/main.cpp:923-938 | the entries whose keys survive the loop are the entries whose values fail the test |
| MapTutorial.ErasedCount | map/main.cpp:920-939 | erased keys plus kept keys are all the keys |
| MapTutorial.IsOdd | map/main.cpp:997-1003 | true iff `val` is positive and odd: with truncating `%`, a negative odd number gives -1 |
| OrderedMaps.OrderedMap.Put | map/main.cpp:1079-1081 | `map[k] = v` overwrites or adds the entry and keeps the keys sorted |
| OrderedMaps.OrderedMap.EraseAt | map/main.cpp:931 | `erase(it)` removes that entry, keeps the order, and returns the successor's position |
| OrderedMaps.Vector.PushBack | map/main.cpp:637 | `push_back` appends one element |
| Brackets.IsOpenBracket | map/main.cpp:1061-1073 | true iff `val` is one of the map's values |
| Brackets.BracketMapFacts | map/main.cpp:1077-1081 | the bracket map's keys are the three closers, each mapped to its opener, and its values are the three openers |
| Brackets.TestBracket | map/main.cpp:1074-1105 | the result is the verdict of `Scan`, the stack machine built from `Step`, which models one pass of the loop body (map/main.cpp:1085-1099); and it is true iff the brackets of `s` are properly nested |
| Brackets.AcceptedIffNested | map/main.cpp:1050-1058 | `Scan`, the model of the loop of map/main.cpp:1083-1100, reaches an empty stack iff the string's brackets are properly nested, in both directions |
| Brackets.NoBracketsAccepted | map/main.cpp:1083-1100 | a string without brackets is accepted |
| Brackets.UnderflowRejected | map/main.cpp:1090-1091 | a closer met with an empty stack rejects the string, which is then not nested |
| Brackets.MismatchRejected | map/main.cpp:1092-1095 | a closer that does not match the top of the stack rejects the string |
| Brackets.LeftoverRejected | map/main.cpp:1101-1102 | openers left on the stack at the end mean the brackets are not nested |
| Brackets.StackHoldsOpeners | map/main.cpp:1085-1086 | the stack only ever holds opening brackets |
| Brackets.Rejected | map/main.cpp:1090-1095 | once a prefix is rejected, the whole string is rejected |
| Brackets.DocExampleRejected | map/main.cpp:1040 | the documented example `(4+{8-[22+8]*}]` is rejected and not nested |
| Brackets.DocExampleInvalid | map/main.cpp:1042 | the documented invalid example `({5+8])` is rejected |
| Brackets.CharLessIsTotalOrder | map/main.cpp:1077 | `char` order is a valid `std::map` comparator |
| SetTutorial.MessageLessIsWeakOrder | set/main.cpp:138-143 | `MessageLess`, the model of `operator<`, is a strict weak order, and two messages are duplicates iff their concatenated strings are equal |
| SetTutorial.AmbiguousKey | set/main.cpp:140-142 | two different messages can be duplicates under `operator<`, because the concatenation loses the field boundaries |
| SetTutorial.ContentsDecide | set/main.cpp:140-142 | messages whose contents first differ at position `i` are ordered by their contents there |
| SetTutorial.DefaultOrderFacts | set/main.cpp:157-159 | how `operator<` ranks the three distinct example messages |
| SetTutorial.DefaultOrderDemo | set/main.cpp:155-168 | the fourth message is not inserted, and the set holds the other three in the order of their concatenated strings |
| SetTutorial.UserOrderIsWeakOrder | set/main.cpp:219-225 | `MessageUserComparator.Compare`, the model of the comparator's `operator()`, is a strict weak order, and two messages are duplicates under it iff they have the same sender |
| SetTutorial.SameSender | set/main.cpp:219-225 | messages with the same sender are duplicates under the comparator |
| SetTutorial.SenderFacts | set/main.cpp:221 | `user_1` is ordered before `user_3` |
| SetTutorial.UserComparatorDemo | set/main.cpp:229-243 | the second and fourth messages are not inserted, and the set holds two messages, ordered by sender |
| SetTutorial.GetNthElement | set/main.cpp:297-310 | found iff `n`, converted to `size_t`, is below the size; a negative `n` is never found; a found element is in the set, and otherwise the default value is returned |
| SetTutorial.NthElementRank | set/main.cpp:301-305 | the element found at position `n` has exactly `n` elements below it in the set's order |
| SetTutorial.NthElementDemo | set/main.cpp:312-338 | the set is built by inserting `"bb"`, `"ee"`, `"dd"`, `"aa"` and `"ll"` in that order; position 3 then holds `"ee"` and position 7 is not found |
| SetTutorial.InsertInSet | set/main.cpp:350-363 | `insert` reports true iff the string was absent; the set afterwards holds the old elements plus the string, and grows by one exactly when it reports true |
| SetTutorial.EraseLongStrings | set/main.cpp:627-639 | the loop leaves exactly the strings of at most three characters (`Short`, the negation of the test at line 632), in order |
| SetTutorial.EraseIf | set/main.cpp:660-673 | the elements in `[first, last)` that `checker` accepts are erased; everything outside the range stays |
| OrderedSets.OrderedSet.Insert | set/main.cpp:356 | `insert` adds `x` at its place in the order unless an equivalent element is present, whose position it then returns |
| OrderedSets.OrderedSet.EraseAt | set/main.cpp:635 | `erase(it)` removes that element, keeps the order, and returns the successor's position |
| Strings.StrLessIsTotalOrder | set/main.cpp:142 | `std::string`'s `operator<` is a strict total order |
| Strings.StrLessAt | set/main.cpp:142 | strings that first differ at `i` are ordered by their characters at `i`, in one direction only |
| Seqs.InducedOrder | set/main.cpp:138-143 | comparing keys under a total order gives a strict weak order whose duplicates are the elements with equal keys |
| Seqs.EraseLoopFromStart | list/main.cpp:304-314 | an erase-while-iterating loop from the beginning keeps exactly the filtered sequence |
| Seqs.EraseRangeLoopIsFilter | set/main.cpp:663-671 | the range erase loop filters only the range, with the end position moving down at each erasure |
| Seqs.FilterSorted | map/main.cpp:629-641 | a subsequence of a strictly sorted sequence is strictly sorted |
| Cpp.ToSizeT | set/main.cpp:301 | the `int`-to-`size_t` conversion in `size() > n` is the value modulo 2^64: non-negative values are kept, and negative ones wrap to at least 2^64 - 2^31 |
| Cpp.Rem | list/main.cpp:307 | C++ `%` for a positive divisor: dividend = divisor * truncated quotient + remainder, with the remainder taking the dividend's sign |
| Cpp.RemThree | list/main.cpp:307 | `x % 3 == 0` in C++ holds exactly for multiples of three |
| ListTutorial.Find | list/main.cpp:390 | `std::find` returns the first occurrence, or the end when there is none |
| ListTutorial.Contains | list/main.cpp:408-416 | true iff the element is in the list |
| ListTutorial.SearchDemo | list/main.cpp:379-423 | `"the"` is found at position 2 (line 390) and `"is"` is contained (line 423); the source searches for nothing absent, so the model adds its own not-found case, `"at"` |
| ListTutorial.EraseMultiplesOfThree | list/main.cpp:304-314 | the loop leaves exactly the elements that pass `NotMultipleOfThree`, the negation of the truncating `% 3 == 0` test at line 307, in order |
| ListTutorial.MultiplesOfThreeErased | list/main.cpp:307-313 | the elements `NotMultipleOfThree` keeps are exactly the non-multiples of three, each as often as before |
| ListTutorial.EraseWhileIteratingDemo | list/main.cpp:297-321 | the example list becomes `[2, 4, 8, 4, 8]` |
| ListTutorial.TutorialDemo | list/main.cpp:79-155 | the pushes give `[1, 2, 5, 6]`, the insert at the third position `[1, 2, 4, 5, 6]`, the erase there `[1, 2, 5, 6]`, and `remove_if` with `GreaterThanThree` (lines 141-146) `[1, 2]` |
| ListTutorial.EraseDemo | list/main.cpp:218-249 | erasing the second element returns the next position, and erasing from the position after it to the end leaves `[2, 4]` |
| ListTutorial.RemoveDemo | list/main.cpp:258-270 | `remove(4)` removes every 4 and keeps the rest in order |
| ListTutorial.RemoveIfDemo | list/main.cpp:275-293 | `remove_if` with `FromTwoBelowFive` (lines 282-287, `2 <= val < 5`) removes every element from 2 to 4, not only the first 4 |
| Lists.List.PushBack | list/main.cpp:84-85 | `push_back(x)` appends `x` |
| Lists.List.PushFront | list/main.cpp:88-89 | `push_front(x)` prepends `x` |
| Lists.List.Insert | list/main.cpp:108 | `insert(pos, x)` puts `x` before `pos` and returns its position |
| Lists.List.Erase | list/main.cpp:232 | `erase(it)` removes one element and returns its successor's position |
| Lists.List.EraseRange | list/main.cpp:243 | `erase(first, last)` removes the half-open range |
| Lists.List.Remove | list/main.cpp:264 | `remove(val)` leaves the elements different from `val`, in order |
| Lists.List.RemoveIf | list/main.cpp:141-146 | `remove_if(pred)` leaves the elements failing `pred`, in order |
| Lists.RemoveIfKeepsSurvivors | list/main.cpp:282-287 | after `remove_if`, an element is present iff it was present and fails the test; each one keeps its count, and the length drops by the number removed |
| Lists.RemoveKeepsOthers | list/main.cpp:264 | after `remove(val)`, `val` is absent, every other value keeps its count, and the length drops by the number of occurrences of `val` |

## Left out

- Printing is left out: console output, the display loops and `main`. They compute nothing the model needs.
- The `deque` tutorial is left out because it is outside the modelled core.
- The containers' internals are not modelled: the red-black tree, the list nodes and the allocation.
  - Each container is modelled by its observable contents.
  - An iterator is a position, so the model does not capture that a list iterator keeps pointing to its node when other elements are inserted or erased.
  - Iterator invalidation after `erase` is not modelled either.
- The `User` class's `operator<` (map tutorial) is not modelled. It falls off its end without returning when the ids are not in descending order, so a `std::map` keyed by `User` has undefined behaviour.
- The `operator[]` word-count example (`operatorUsageDetauls::test1`, map/main.cpp:820-870) is left out. It reads and writes a `std::map<std::string, int>` through `operator[]`, which inserts a zero entry for a missing key, and prints the results. `OrderedMaps.OrderedMap.Put` models only the write form `map[k] = v`.
- The `Occurance` example (`operatorUsageDetauls::test2`, map/main.cpp:876-911) is left out. It is ill-formed as written: `wordMap["Hello"]` (line 908) needs a default constructor, which is commented out (lines 881-887). Showing that is the example's point, and there is no behaviour to model.
- The `WordGreaterComparator` and `UserNameComparator` examples are left out.
- Several set tutorial examples are not modelled as worked examples:
  - the introductory `test`/`test2`/`test3`, which use `insert`, `find` and `erase` by value;
  - the insert variants of `test2`/`test3`, which insert ranges and initializer lists;
  - the iteration examples;
  - `differnetWaysToEraseDeleteAnElement`, which erases by iterator, by range and by value;
  - the erase-while-iterating `test2`, an example of calling the generic `erase_if`, which is modelled as `SetTutorial.EraseIf`.

  Their `find`, erase-by-value and range operations are not part of the model. Single-element `insert` and `erase` are modelled by `OrderedSets.OrderedSet`.
- MapTutorial.SerachByValue: requires that some entry holds `val`. When none does, the source falls off the end of a non-void function, which is undefined behaviour.
- SetTutorial.GetNthElement: the model takes the element at the converted position whenever it is below the size. In C++, for `std::next` to receive a negative distance, the set would need more than 2^64 - 2^31 elements.
- SetTutorial.EraseIf: the checker is modelled as receiving the element. The C++ version passes it the iterator, and the only use is to dereference it.
- Cpp.ToSizeT: takes `size_t` to be 64 bits wide.
- MapTutorial.EraseIfValue, MapTutorial.EraseIf: the erase counter is an `int` in the source, but the model's counter is unbounded, so it does not overflow.
- Brackets.TestBracket: the loop index is unbounded. In the source, `int i` (map/main.cpp:1083) overflows, which is undefined behaviour, on strings longer than `INT_MAX`. The model accepts or rejects strings of any length.
- `Message` is modelled once, as `SetTutorial.Message`. The source defines it twice, in two namespaces. The first definition (set/main.cpp:127-146) has `operator<`, modelled by `SetTutorial.MessageLess`. The second (set/main.cpp:193-205) has the same fields and constructor but no `operator<`, and it is ordered only by `MessageUserComparator`.
- Strings.StrLess: compares Dafny characters, which are Unicode scalar values, not bytes. `std::string` compares its bytes as `unsigned char`, and `StrLess` agrees with that for every character up to 255. A string holding a character above 255 has no C++ counterpart. Likewise `|s|` in `SetTutorial.Short` counts characters where `size()` (set/main.cpp:632) counts bytes. The two agree on the single-byte strings of the examples.
