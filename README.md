# ft containers in Dafny

A model of the `ft` containers library: a re-implementation, in C++98, of
the standard containers `vector`, `list`, `map`, `set` and `stack`, with
their iterators, `pair`, `reverse_iterator`, `distance`, `swap`, `max` and
`min`. `map` and `set` are thin forwarders to a red-black tree engine, and
that engine, with its cursor, is the heart of the model.

The model keeps the program's own form:

- **Red-black tree** (`rb_tree.dfy`, with the shape facts in `rb_shape.dfy`,
  `rb_search.dfy`, `rb_fixup.dfy`, `rb_erase.dfy` and `rb_clone.dfy`). The
  class `RBTree` owns heap nodes `RBNode` linked by `left`, `right` and
  `parent`, a sentinel `end` whose `left` is the root, and a size counter.
  A ghost `Tree` records the shape and colours of the linked nodes, and a
  ghost `Path` (the ancestors of a subtree, innermost first) stands for the
  parent pointers while a loop walks the tree. `Valid()` states the
  invariants the engine keeps:
  - the in-order values are strictly increasing under the comparator;
  - `size` counts them;
  - the root is black;
  - the sentinel is anchored.

  Insert proves, in addition, that the red rule and the black balance are kept.
- **Tree cursor** (`rb_tree_iterator.dfy`). `++` and `--` walk the links as
  the source does. They are proved to reach the in-order successor and
  predecessor.
- **map and set** (`map.dfy`, `set.dfy`). Classes wrap a tree. `map`
  orders pairs by key alone, and its lookups go through a dummy pair
  holding the value-initialised mapped value.
- **list** (`list.dfy`, `list_iterator.dfy`). A circular doubly linked ring
  of `ListNode`s with a sentinel. A ghost sequence of the ring's nodes, their
  links and their values ties the heap to the contents. Splice, the stable
  merge and the merge sort over `_split` relink nodes in place, and are
  proved against sequence functions (`MergeSort`, `Merged`, `Kept`, `Uniq`,
  `Backwards`).
- **vector** (`vector.dfy`, `vector_iterator.dfy`). A class over an `array`
  buffer with `capacity` and `size`. The shift loops and the reallocation
  copy loop carry their invariants. Iterators are offsets into the buffer.
- **Utilities** (`iterator.dfy`, `stack.dfy`, `utility.dfy`,
  `algorithm.dfy`, `ordering.dfy`, `wrappers.dfy`). These cover:
  - `reverse_iterator` over positions;
  - the counting and the random-access `distance`;
  - the stack adapter over the vector model;
  - `pair` and its lexicographic order;
  - `swap`, `max` and `min`;
  - sorted-sequence facts shared by the tree, map and set;
  - `Option`.

The comparator `Compare` (by default `ft::less`, which forwards to the
element type's `operator<`) is a parameter `less: (T, T) -> bool`.
Containers that order their elements require it to be a strict weak order.
The C++ standard demands the same of every `Compare`.

The model leaves out:
- allocators, which become `new` and the garbage collector;
- console output;
- the compile-time overload selection (`enable_if`, `is_integral`);
- the driver program `main_std.cpp`. Its scenarios appear only as lemmas
  and methods over the model.

## Model

| member | source | states |
|---|---|---|
| Algorithm.Swap | srcs/algorithm.hpp:6-11 | after swap each variable holds the value the other one had |
| Algorithm.Max | srcs/algorithm.hpp:13-18 | max returns one of its two arguments |
| Algorithm.Min | srcs/algorithm.hpp:20-25 | min returns one of its two arguments |
| Algorithm.MaxBounds | srcs/algorithm.hpp:13-18 | max returns one of its two arguments and neither argument goes after it; for equivalent arguments it returns `b`; it returns `a` exactly when `b < a` or the two are the same value |
| Algorithm.MinBounds | srcs/algorithm.hpp:20-25 | min returns one of its two arguments and it goes after neither of them; for equivalent arguments it returns `b`; it returns `a` exactly when `a < b` or the two are the same value |
| Utility.MakePair | srcs/utility.hpp:86-89 | make_pair builds the pair whose first is `x` and whose second is `y` |
| Utility.Eq | srcs/utility.hpp:50-53 | pair `==` holds exactly when the two pairs are equal |
| Utility.Ne | srcs/utility.hpp:55-58 | pair `!=` holds exactly when the two pairs differ |
| Utility.Lt | srcs/utility.hpp:60-63 | pair `<`: a less first makes the pair less, a greater first makes it not less, and for equivalent firsts the seconds decide |
| Utility.Le | srcs/utility.hpp:65-68 | pair `<=` is the negation of pair `>` |
| Utility.Gt | srcs/utility.hpp:70-73 | pair `>`: a greater first makes the pair greater, and for equivalent firsts the seconds decide |
| Utility.Ge | srcs/utility.hpp:75-78 | pair `>=` is pair `<=` with the arguments swapped |
| Utility.PairEquivalent | srcs/utility.hpp:60-63 | two pairs are equivalent under pair `<` exactly when their firsts are equivalent and their seconds are equivalent |
| Utility.LexTransitive | srcs/utility.hpp:60-63 | pair `<` is transitive when both component orders are strict weak orders |
| Utility.LexicographicStrictWeakOrder | srcs/utility.hpp:60-63 | if both component orders are strict weak orders, then the lexicographic pair `<` is one too |
| Utility.DerivedComparisons | srcs/utility.hpp:65-78 | `<=` means less or equivalent, `>` is `<` with the arguments swapped, `>=` means greater or equivalent, and `<` is asymmetric |
| Iterator.CountingDistance | srcs/iterator.hpp:71-81 | the counting loop of distance for non-random-access iterators returns the same number as `last - first` |
| Iterator.ReverseIterator.constructor | srcs/iterator.hpp:129-130 | a reverse iterator built from an iterator has that iterator as its base |
| Iterator.ReverseIterator.Increment | srcs/iterator.hpp:154-158 | `++` moves the base back one position |
| Iterator.ReverseIterator.PostIncrement | srcs/iterator.hpp:160-165 | `++(int)` returns the old base and moves the base back one position |
| Iterator.ReverseIterator.Decrement | srcs/iterator.hpp:178-182 | `--` moves the base forward one position |
| Iterator.ReverseIterator.PostDecrement | srcs/iterator.hpp:184-189 | `--(int)` returns the old base and moves the base forward one position |
| Iterator.ReverseIterator.AddAssign | srcs/iterator.hpp:167-171 | `+= n` moves the base back `n` positions |
| Iterator.ReverseIterator.SubAssign | srcs/iterator.hpp:191-195 | `-= n` moves the base forward `n` positions |
| Iterator.ReverseTraversal | srcs/iterator.hpp:144-152 | after `k` increments from rbegin, `*` designates the element `k` places from the back; `r[n]` designates the element that `r + n` dereferences to |
| Iterator.Distance | srcs/iterator.hpp:65-69 | distance for random-access iterators is the number of steps that takes `first` to `last` |
| Iterator.ReverseIterator.Deref | srcs/iterator.hpp:144-147 | `*r` is what `r[0]` designates |
| Iterator.ReverseIterator.Index | srcs/iterator.hpp:202-205 | `r[n]` is the element just before the base of `r + n`, the one `r + n` dereferences to |
| Iterator.ReverseIterator.Plus | srcs/iterator.hpp:149-152 | `r + n` is `r - (-n)` |
| Iterator.ReverseIterator.Minus | srcs/iterator.hpp:173-176 | `r - n` moves the base forward `n` positions |
| Iterator.Difference | srcs/iterator.hpp:242-245 | `rhs + (lhs - rhs)` has the base of `lhs` |
| Iterator.Equal | srcs/iterator.hpp:207-210 | reverse `==` holds exactly when the difference of the two iterators is 0 |
| Iterator.NotEqual | srcs/iterator.hpp:212-215 | reverse `!=` is the negation of `==` |
| Iterator.Less | srcs/iterator.hpp:217-220 | reverse `<` holds exactly when `lhs - rhs` is negative |
| Iterator.Greater | srcs/iterator.hpp:222-225 | reverse `>` is `<` with the arguments swapped |
| Iterator.LessEq | srcs/iterator.hpp:227-230 | reverse `<=` is `<` or `==` |
| Iterator.GreaterEq | srcs/iterator.hpp:232-235 | reverse `>=` is the negation of `<` |
| Iterator.PlusLeft | srcs/iterator.hpp:237-240 | the non-member `n + x` has its base `n` positions before `x`'s |
| Iterator.ReverseOrder | srcs/iterator.hpp:207-245 | the reverse iterators are totally ordered: of `<`, `==` and `>` exactly one holds, and `<` is transitive |
| Iterator.PlusFromLeft | srcs/iterator.hpp:237-240 | the non-member `n + x` is `x + n`: its base is `n` before `x`'s, and it dereferences to what `x[n]` designates |
| Stack.Stack.constructor | srcs/stack.hpp:64-65 | stack(ctnr) holds a fresh copy of the contents of `ctnr` |
| Stack.Stack.Empty | srcs/stack.hpp:71-74 | empty() holds exactly when the size is 0, that is, when the stack has no element |
| Stack.Stack.Size | srcs/stack.hpp:80-83 | size() is the underlying vector's size, the number of elements on the stack |
| Stack.Stack.Top | srcs/stack.hpp:89-101 | top() is the last element of the underlying vector |
| Stack.Stack.Push | srcs/stack.hpp:107-110 | push(val) appends `val`, so that it becomes top() and the size grows by one |
| Stack.Stack.Pop | srcs/stack.hpp:115-118 | pop() drops the last element and keeps the storage |
| Stack.Equal | srcs/stack.hpp:35-37 | `==` on stacks holds exactly when their contents are equal |
| Stack.NotEqual | srcs/stack.hpp:39-41 | `!=` on stacks holds exactly when their contents differ |
| Stack.Less | srcs/stack.hpp:51-53 | `<` on stacks is the lexicographic `<` of their contents |
| Stack.LessEq | srcs/stack.hpp:55-57 | `<=` on stacks is the negation of the lexicographic `<` with the arguments swapped |
| Stack.Greater | srcs/stack.hpp:43-45 | `>` on stacks is the lexicographic `<` with the arguments swapped |
| Stack.GreaterEq | srcs/stack.hpp:47-49 | `>=` on stacks is the negation of the lexicographic `<` |
| Stack.PushPopScenario | main_std.cpp:979-996 | after pushing 4, 8, 15, 16, 23 and 42 the stack holds six elements, and after one pop 23 is on top |
| Set.Set.constructor | srcs/set.hpp:98-100 | the empty-container constructor gives an empty set that orders its values by `comp` |
| Set.Set.FromRange | srcs/set.hpp:110-117 | the range constructor holds what inserting the values of the range one after the other into an empty set gives |
| Set.Set.Copy | srcs/set.hpp:123-124 | the copy constructor holds the same elements under the same comparator, in fresh nodes |
| Set.Set.Assign | srcs/set.hpp:135-142 | after operator= the set holds the elements and the comparator that `other` had, in a tree anchored as the corrected tree assignment leaves it |
| Set.Set.Empty | srcs/set.hpp:219-222 | empty() holds exactly when the set has no element |
| Set.Set.Size | srcs/set.hpp:228-231 | size() is the number of elements |
| Set.Set.KeyComp | srcs/set.hpp:327-340 | key_comp() and value_comp() return the set's comparator, which is a strict weak order; the elements are strictly increasing under it |
| Set.Set.Insert | srcs/set.hpp:249-252 | insert(val) adds `val` at its place in the order exactly when no equivalent element is held, and reports whether it did; the returned node holds the element equivalent to `val` |
| Set.Set.InsertHint | srcs/set.hpp:260-263 | insert(position, val) ignores the hint: the set changes as insert(val) would change it, and the node of the equivalent element is returned |
| Set.Set.InsertRange | srcs/set.hpp:270-275 | insert(first, last) inserts the values of the range one after the other |
| Set.Set.EraseAt | srcs/set.hpp:281-284 | erase(position) removes exactly the element at that position |
| Set.Set.Erase | srcs/set.hpp:291-294 | erase(val) returns 1 and removes the element equivalent to `val` when there is one; otherwise it returns 0 and changes nothing; afterwards no element is equivalent to `val` |
| Set.Set.EraseRange | srcs/set.hpp:301-304 | erase(first, last) removes exactly the elements from `first` up to `last` |
| Set.Set.Swap | srcs/set.hpp:310-313 | swap(x) exchanges the contents and the comparators of the two sets |
| Set.Set.Clear | srcs/set.hpp:318-321 | clear() leaves the set empty and keeps its comparator |
| Set.Set.Find | srcs/set.hpp:346-349 | find(val) returns the end node exactly when no element is equivalent to `val`, and otherwise the node of that element |
| Set.Set.Count | srcs/set.hpp:356-359 | count(val) is 1 when an element is equivalent to `val` and 0 otherwise |
| Set.Set.LowerBound | srcs/set.hpp:367-370 | lower_bound(val) returns the node of the first element that does not go before `val`, or the end node when there is none |
| Set.Set.UpperBoundAsWritten | srcs/set.hpp:378-381 | upper_bound(val), as written, returns what lower_bound(val) returns |
| Set.Set.UpperBoundAsWrittenWrong | srcs/set.hpp:378-381 | the as-written upper_bound agrees with the documented one exactly when no element is equivalent to `val`; when one is, it returns that element's node |
| Set.Set.UpperBound | srcs/set.hpp:372-381 | upper_bound(val), as its documentation states it: the node of the first element that goes after `val`, or the end node when there is none |
| Set.Set.EqualRange | srcs/set.hpp:389-393 | equal_range(val) is the pair (lower bound, upper bound); the range is empty when no element is equivalent to `val`, and otherwise holds exactly that element |
| Map.ValueCompare | srcs/map.hpp:126-129 | value_compare orders two pairs exactly as the key comparator orders their keys |
| Map.Keys | srcs/map.hpp:127-129 | the keys of a sequence of pairs, position by position: the only part of a pair that value_compare looks at |
| Map.ValueCompareOrder | srcs/map.hpp:124-129 | value_compare is a strict weak order whenever the key comparator is, and two pairs are equivalent under it exactly when their keys are |
| Map.ByKey | srcs/map.hpp:127-129 | searching the pairs for a dummy pair (k, d) gives the same lower bound, upper bound and presence answer as searching the keys for `k`, whatever `d` is |
| Map.SortedByKey | srcs/map.hpp:127-129 | the pairs are strictly sorted under value_compare exactly when their keys are strictly increasing |
| Map.AssignedFacts | srcs/map.hpp:287-290 | `m[k] = x` on strictly increasing keys replaces only the mapped value of a present `k`, or inserts (k, x) at `k`'s place; the keys stay strictly increasing and `k` maps to `x` |
| Map.AssignedAfterIndex | srcs/map.hpp:287-290 | what operator[] leaves, with `x` written at `k`'s position, is the assignment `m[k] = x` |
| Map.Map.KeysStrictlySorted | srcs/map.hpp:300-302 | the keys of a valid map are strictly increasing: no key occurs twice |
| Map.Map.constructor | srcs/map.hpp:138-139 | the empty-container constructor gives an empty map ordered by `comp` |
| Map.Map.FromRange | srcs/map.hpp:151-156 | the range constructor holds what inserting the pairs of the range one after the other into an empty map gives |
| Map.Map.Copy | srcs/map.hpp:163 | the copy constructor holds the same pairs under the same comparator, in fresh nodes |
| Map.Map.Assign | srcs/map.hpp:175-180 | after operator= the map holds the pairs and the comparator that `other` had, in a tree anchored as the corrected tree assignment leaves it |
| Map.Map.Empty | srcs/map.hpp:259-261 | empty() holds exactly when the map has no pair |
| Map.Map.Size | srcs/map.hpp:268-270 | size() is the number of pairs |
| Map.Map.ValueComp | srcs/map.hpp:387-389 | value_comp() compares two pairs by their keys alone |
| Map.Map.Insert | srcs/map.hpp:300-302 | insert(val) adds the pair at its key's place and answers true exactly when the key was absent; a present key keeps its old mapped value; the iterator names the pair with that key |
| Map.Map.InsertHint | srcs/map.hpp:311-313 | insert with a hint gives the same pairs as insert without it and names the pair with the key |
| Map.Map.InsertRange | srcs/map.hpp:322-325 | inserting a range is inserting its pairs one after the other |
| Map.Map.Index | srcs/map.hpp:287-290 | operator[](k) leaves a present key's pair alone and inserts (k, default) for an absent key; the result names the pair with key `k` |
| Map.Map.IndexAssign | srcs/map.hpp:287-290 | `m[k] = x` gives the Assigned pairs: `k` maps to `x`, every other pair is kept |
| Map.Map.SetMapped | srcs/map.hpp:287-290 | writing `x` through the reference operator[] returns changes the mapped value of that pair only, and keeps its key |
| Map.Map.EraseAt | srcs/map.hpp:332-334 | erase(position) removes exactly the pair at that position |
| Map.Map.Erase | srcs/map.hpp:342-344 | erase(k) returns 1 and removes the pair with key `k` when there is one, returns 0 and changes nothing otherwise; afterwards `k` is absent |
| Map.Map.EraseRange | srcs/map.hpp:352-354 | erase(first, last) removes exactly the pairs from `first` up to `last` |
| Map.Map.Swap | srcs/map.hpp:361-363 | swap exchanges the pairs and the comparators of the two maps |
| Map.Map.Clear | srcs/map.hpp:369-371 | clear() leaves an empty map |
| Map.Map.Find | srcs/map.hpp:397-399 | find(k) names the pair with key `k`, and is end() exactly when the key is absent |
| Map.Map.Count | srcs/map.hpp:417-419 | count(k) is 1 when the key is present and 0 otherwise |
| Map.Map.LowerBound | srcs/map.hpp:428-430 | lower_bound(k) names the first pair whose key is not less than `k`, or end() |
| Map.Map.UpperBound | srcs/map.hpp:450-452 | upper_bound(k) names the first pair whose key is greater than `k`, or end() |
| Map.Map.EqualRange | srcs/map.hpp:471-473 | equal_range(k) is (lower_bound(k), upper_bound(k)): empty when the key is absent, exactly the pair with key `k` otherwise |
| Map.InsertScenario | main_std.cpp:761-771 | inserting pairs with keys 42, 5, 5, 16, 8, 42 into an empty map leaves the keys 5, 8, 16, 42, each with the mapped value of its first insert |
| Map.BoundsScenario | main_std.cpp:918-957 | on the keys b, d, f, g, j: lower_bound of e and of f is f, lower_bound of k is end, upper_bound of d is f and upper_bound of j is end |
| Vector.GrowOne | srcs/vector.hpp:457-458 | the one-element growth request is at least 1, at most max_size, and never below a capacity within max_size |
| Vector.GrowMany | srcs/vector.hpp:481-482 | the many-element growth request leaves room for `size + n` elements, and stays between the capacity and max_size when both fit |
| Vector.GrowthFits | srcs/vector.hpp:457-458 | the growth requests of the inserts, max(min(2 * capacity, max_size), 1) and max(min(2 * capacity, max_size), size + n), leave room for the new elements, never exceed max_size, and double a non-zero capacity while that fits |
| Vector.LexLessPrefix | srcs/vector.hpp:626-638 | under operator<, a proper prefix is less than the longer vector, and no vector is less than itself |
| Vector.AssignAsWritten | srcs/vector.hpp:182-194 | operator= as written leaves other's elements with at least other's capacity recorded; while other's elements fit its capacity, the old buffer is kept and other's capacity is recorded for it |
| Vector.AssignAsWrittenOverflows | srcs/vector.hpp:182-194 | operator= as written, from a 3-element vector of capacity 4 into a vector with a 1-slot buffer, records capacity 4 and constructs 3 elements in the 1-slot buffer |
| Vector.Vector.constructor | srcs/vector.hpp:134-136 | the default constructor gives an empty vector of capacity 0 |
| Vector.Vector.Fill | srcs/vector.hpp:145-149 | the fill constructor holds `n` copies of `val` in a buffer of exactly `n` slots |
| Vector.Vector.FromRange | srcs/vector.hpp:157-163 | the range constructor holds the range's elements, in a fresh buffer of exactly as many slots |
| Vector.Vector.Copy | srcs/vector.hpp:170-173 | the copy constructor holds src's elements in a fresh buffer of src's capacity |
| Vector.Vector.Realloc | srcs/vector.hpp:113-127 | _realloc(n) keeps the elements; it moves them to a fresh buffer of exactly `n` slots when `n` exceeds the capacity and leaves everything alone otherwise |
| Vector.Vector.Begin | srcs/vector.hpp:200-203 | begin() is position 0 |
| Vector.Vector.End | srcs/vector.hpp:218-221 | end() is the position just past the last element, within the buffer |
| Vector.Vector.Size | srcs/vector.hpp:272-275 | size() is the number of elements |
| Vector.Vector.Capacity | srcs/vector.hpp:312-315 | capacity() is the length of the buffer, at least the size and at most max_size |
| Vector.Vector.Empty | srcs/vector.hpp:322-324 | empty() holds exactly when the vector has no element |
| Vector.Vector.Get | srcs/vector.hpp:337-339 | operator[](n) is the element at position `n`, for `n` below the size |
| Vector.Vector.At | srcs/vector.hpp:352-356 | at(n) fails with out_of_range exactly when `n` is not below the size, and is the element at position `n` otherwise |
| Vector.Vector.Front | srcs/vector.hpp:375-377 | front() is the first element of a non-empty vector |
| Vector.Vector.Back | srcs/vector.hpp:393-395 | back() is the last element of a non-empty vector |
| Vector.Vector.Reserve | srcs/vector.hpp:331-334 | reserve(n) keeps the elements and grows the capacity to `n` only when `n` exceeds it |
| Vector.Vector.Resize | srcs/vector.hpp:293-306 | resize(n, val) keeps the first `n` elements or pads with copies of `val` up to `n`; the buffer grows to exactly `n` when `n` exceeds the capacity |
| Vector.Vector.Insert | srcs/vector.hpp:454-469 | insert(position, val) puts `val` at `position` with the elements before and after it kept in order, returns `position`, and grows the capacity by the one-element policy only when the vector was full |
| Vector.Vector.ShiftUp | srcs/vector.hpp:462-464 | the shift loop of the inserts moves every element from `position` on up by `n` slots and leaves the slots below `position` alone |
| Vector.Vector.InsertFill | srcs/vector.hpp:478-495 | insert(position, n, val) puts `n` copies of `val` at `position` with the other elements kept in order, growing by the many-element policy only when they do not fit |
| Vector.Vector.InsertRange | srcs/vector.hpp:505-525 | insert(position, first, last) puts the range's elements at `position` with the other elements kept in order, growing by the many-element policy only when they do not fit |
| Vector.Vector.Place | srcs/vector.hpp:484-494 | once the buffer has room, shifting the tail up and constructing the new elements in the gap inserts them at the offset, in the same buffer |
| Vector.Vector.CopyIn | srcs/vector.hpp:519-522 | the construct loop of the inserts writes the new elements into the gap and touches no other slot |
| Vector.Vector.Erase | srcs/vector.hpp:534-543 | erase(position) removes exactly the element at `position`, keeps the buffer, and returns `position` |
| Vector.Vector.EraseRange | srcs/vector.hpp:553-566 | erase(first, last) removes exactly the elements from `first` up to `last`, keeps the buffer, and returns `first` |
| Vector.Vector.ShiftDown | srcs/vector.hpp:560-562 | the shift loop of the erases moves every element from `last` on down to `first` and leaves the slots below `first` alone |
| Vector.Vector.PushBack | srcs/vector.hpp:435-437 | push_back(val) appends `val`, growing by the one-element policy only when the vector was full |
| Vector.Vector.PopBack | srcs/vector.hpp:443-445 | pop_back() removes the last element and keeps the buffer |
| Vector.Vector.Clear | srcs/vector.hpp:594-596 | clear() leaves no element and keeps the buffer and its capacity |
| Vector.Vector.AssignFill | srcs/vector.hpp:425-428 | assign(n, val) leaves exactly `n` copies of `val` |
| Vector.Vector.AssignRange | srcs/vector.hpp:413-417 | assign(first, last) leaves exactly the range's elements |
| Vector.Vector.Assign | srcs/vector.hpp:182-194 | operator= leaves other's elements, with a buffer of at least other's capacity; assigning a vector to itself changes nothing |
| Vector.Vector.Swap | srcs/vector.hpp:573-590 | swap exchanges the buffers, capacities and sizes of the two vectors |
| Vector.Equal | srcs/vector.hpp:608-619 | operator== holds exactly when the two vectors hold the same elements in the same order |
| Vector.Less | srcs/vector.hpp:626-638 | operator< is the lexicographic order: the first differing element decides, and a proper prefix is less |
| Vector.NotEqual | srcs/vector.hpp:621-624 | operator!= holds exactly when the contents differ |
| Vector.LessEq | srcs/vector.hpp:640-643 | operator<= holds exactly when rhs is not lexicographically less than lhs |
| Vector.Greater | srcs/vector.hpp:645-648 | operator> holds exactly when rhs is lexicographically less than lhs |
| Vector.GreaterEq | srcs/vector.hpp:650-653 | operator>= holds exactly when lhs is not lexicographically less than rhs |
| Vector.ReserveScenario | main_std.cpp:600-604 | on an empty vector, reserve(5) gives capacity 5 and a later reserve(3) leaves it at 5 |
| VectorIter.VectorIterator.constructor | srcs/iterators/vector_iterator.hpp:64 | the iterator built from a pointer stands at that pointer's offset |
| VectorIter.VectorIterator.Increment | srcs/iterators/vector_iterator.hpp:96-100 | operator++ moves one element forward |
| VectorIter.VectorIterator.PostIncrement | srcs/iterators/vector_iterator.hpp:102-107 | operator++(int) moves one element forward and returns where it stood before |
| VectorIter.VectorIterator.Decrement | srcs/iterators/vector_iterator.hpp:109-113 | operator-- moves one element back |
| VectorIter.VectorIterator.PostDecrement | srcs/iterators/vector_iterator.hpp:115-120 | operator--(int) moves one element back and returns where it stood before |
| VectorIter.VectorIterator.AddAssign | srcs/iterators/vector_iterator.hpp:132-136 | operator+=(n) moves `n` elements forward and returns a copy of the moved iterator |
| VectorIter.VectorIterator.SubAssign | srcs/iterators/vector_iterator.hpp:138-142 | operator-=(n) moves `n` elements back and returns a copy of the moved iterator |
| VectorIter.ArithmeticAgrees | srcs/iterators/vector_iterator.hpp:122-187 | `(it + n) - it == n`, `n + it == it + n`, `it - n == it + (-n)`, and `it[n]` is `*(it + n)` |
| VectorIter.VectorIterator.Base | srcs/iterators/vector_iterator.hpp:73-76 | base() is the wrapped pointer's offset |
| VectorIter.VectorIterator.Deref | srcs/iterators/vector_iterator.hpp:85-88 | `*it` is the element at base() |
| VectorIter.VectorIterator.Plus | srcs/iterators/vector_iterator.hpp:121-124 | `it + n` stands `n` elements after `it` |
| VectorIter.VectorIterator.Minus | srcs/iterators/vector_iterator.hpp:126-129 | `it - n` is `it + (-n)` |
| VectorIter.VectorIterator.Index | srcs/iterators/vector_iterator.hpp:143-146 | `it[n]` is the element `n` places after `it` |
| VectorIter.Difference | srcs/iterators/vector_iterator.hpp:183-187 | `rhs + (lhs - rhs)` stands where `lhs` stands |
| VectorIter.PlusLeft | srcs/iterators/vector_iterator.hpp:178-181 | the non-member `n + it` stands `n` elements after `it` |
| VectorIter.Equal | srcs/iterators/vector_iterator.hpp:148-151 | `==` holds exactly when the difference of the two iterators is 0 |
| VectorIter.NotEqual | srcs/iterators/vector_iterator.hpp:153-156 | `!=` is the negation of `==` |
| VectorIter.Greater | srcs/iterators/vector_iterator.hpp:163-166 | `>` holds exactly when `lhs - rhs` is positive |
| VectorIter.Less | srcs/iterators/vector_iterator.hpp:158-161 | `<`, written as `rhs > lhs`, holds exactly when `lhs` stands before `rhs` |
| VectorIter.LessEq | srcs/iterators/vector_iterator.hpp:168-171 | `<=`, written as `!(lhs > rhs)`, holds exactly when `lhs` does not stand after `rhs` |
| VectorIter.GreaterEq | srcs/iterators/vector_iterator.hpp:173-176 | `>=`, written as `!(rhs > lhs)`, holds exactly when `lhs` does not stand before `rhs` |
| VectorIter.OrderIsPositionOrder | srcs/iterators/vector_iterator.hpp:148-176 | the iterators are totally ordered: of `<`, `==` and `>` exactly one holds, `<` is transitive, and `<=` is `<` or `==` |
| RbShape.RBNode.constructor | srcs/rb_tree.hpp:34 | a new node holds its value, has no children and no parent, and is red |
| RbShape.PlugRedRule | srcs/rb_tree.hpp:444-495 | a tree keeps the red rule (no red node has a red child) exactly when the part around a subtree does and the subtree does below its parent's colour |
| RbShape.PlugBalanced | srcs/rb_tree.hpp:444-495 | a tree is black-balanced exactly when a subtree is and every other path of the surrounding part carries the subtree's black height |
| RbShape.RotateLeftKeeps | srcs/rb_tree.hpp:394-412 | a left rotation changes neither the in-order values, nor the in-order nodes, nor the node set |
| RbShape.RotateRightKeeps | srcs/rb_tree.hpp:419-437 | a right rotation changes neither the in-order values, nor the in-order nodes, nor the node set |
| RbShape.RotateLeftPlug | srcs/rb_tree.hpp:394-412 | _rotateLeft at any node with a right child: once the node, its right child, that child's left subtree and the parent are relinked, the links follow the rotated shape and the in-order values, nodes and root are kept |
| RbShape.RotateRightPlug | srcs/rb_tree.hpp:419-437 | _rotateRight at any node with a left child: the mirror image of the left rotation |
| RbShape.PaintPlug | srcs/rb_tree.hpp:444-495 | recolouring one node keeps the tree linked and changes neither its nodes, their order, its values nor its root |
| RbShape.AttachLeaf | srcs/rb_tree.hpp:199-227 | the last step of _bst_insert, hanging a new red leaf below the node where the descent fell off the tree, keeps the tree linked |
| RbShape.AttachLeafShape | srcs/rb_tree.hpp:199-227 | the new leaf adds exactly one node, and its value goes between the values before and after the place the descent reached |
| RbShape.HeapValueAt | srcs/iterators/rb_tree_iterator.hpp:79-81 | the node at in-order position `k` holds the value at position `k` |
| RbShape.DistinctNodeSeq | srcs/rb_tree.hpp:199-227 | in a tree without shared nodes, no node occurs twice in the in-order sequence |
| RbShape.SuccessorBelow | srcs/iterators/rb_tree_iterator.hpp:92-95 | the in-order successor of a node with a right child is the first node of its right subtree |
| RbShape.SuccessorAbove | srcs/iterators/rb_tree_iterator.hpp:96-102 | once the climb over right edges stops below a left edge, the successor is that parent; at the root, the next position is the end |
| RbShape.PredecessorBelow | srcs/iterators/rb_tree_iterator.hpp:119-122 | the in-order predecessor of a node with a left child is the last node of its left subtree |
| RbShape.PredecessorAbove | srcs/iterators/rb_tree_iterator.hpp:123-129 | once the climb over left edges stops below a right edge, the predecessor is that parent |
| RbTreeIterator.TreeIterator.constructor | srcs/iterators/rb_tree_iterator.hpp:56 | the iterator built from a node stands on that node |
| RbTreeIterator.TreeIterator.Increment | srcs/iterators/rb_tree_iterator.hpp:89-106 | operator++ moves from in-order position `k` to position `k + 1`; from the last element it reaches the end sentinel |
| RbTreeIterator.TreeIterator.SuccessorDown | srcs/iterators/rb_tree_iterator.hpp:92-95 | the first branch of operator++, down to the right child and then left while possible, reaches the next position |
| RbTreeIterator.TreeIterator.SuccessorUp | srcs/iterators/rb_tree_iterator.hpp:96-102 | the second branch of operator++, the climb while the node is its parent's right child, reaches the next position |
| RbTreeIterator.TreeIterator.Decrement | srcs/iterators/rb_tree_iterator.hpp:116-133 | operator-- moves from position `k` to position `k - 1`; from the end sentinel it reaches the last element |
| RbTreeIterator.TreeIterator.PredecessorDown | srcs/iterators/rb_tree_iterator.hpp:119-122 | the first branch of operator--, down to the left child and then right while possible, reaches the previous position |
| RbTreeIterator.TreeIterator.PredecessorUp | srcs/iterators/rb_tree_iterator.hpp:123-129 | the second branch of operator--, the climb while the node is its parent's left child, reaches the previous position |
| RbTreeIterator.TreeIterator.PostIncrement | srcs/iterators/rb_tree_iterator.hpp:109-113 | operator++(int) moves to the next position and returns an iterator on the position it left |
| RbTreeIterator.TreeIterator.PostDecrement | srcs/iterators/rb_tree_iterator.hpp:136-140 | operator--(int) moves to the previous position and returns an iterator on the position it left |
| RbTreeIterator.TreeIterator.StepForthAndBack | srcs/iterators/rb_tree_iterator.hpp:89-133 | `--(++it)` comes back to where `it` stood, for every position before the end |
| RbTreeIterator.TreeIterator.Get | srcs/iterators/rb_tree_iterator.hpp:79-86 | operator* and operator-> give the element at the iterator's position |
| RbTreeIterator.TreeIterator.Equals | srcs/iterators/rb_tree_iterator.hpp:142-150 | an iterator is equal to itself, and equal iterators stand at the same node |
| RbTreeIterator.TreeIterator.EqualsIsSamePosition | srcs/iterators/rb_tree_iterator.hpp:143-150 | two iterators over one valid tree are equal exactly when they stand at the same position |
| RbTreeIterator.EraseStep | srcs/rb_tree.hpp:758-762 | one turn of the range-erase loop takes the successor first and then erases the current element: one element fewer, with `last`'s node keeping its place |
| RbTreeIterator.EraseRange | srcs/rb_tree.hpp:756-764 | erase(first, last) removes exactly the elements from position `i` up to position `j` and lowers the size by `j - i` |
| RbTreeIterator.DropNext | srcs/rb_tree.hpp:756-764 | erasing the element right after the kept prefix removes the next element of the original range |
| RedBlackTree.RBTree.constructor | srcs/rb_tree.hpp:505-509 | the default constructor gives an empty tree with no root, size 0 and a fresh sentinel |
| RedBlackTree.RBTree.RotateLeft | srcs/rb_tree.hpp:394-412 | _rotateLeft at a node with a right child leaves the heap linked as the left-rotated shape, with the same in-order values, in-order nodes and node set |
| RedBlackTree.RBTree.RotateRight | srcs/rb_tree.hpp:419-437 | _rotateRight at a node with a left child leaves the heap linked as the right-rotated shape, with the same in-order values, in-order nodes and node set |
| RedBlackTree.RBTree.Descend | srcs/rb_tree.hpp:204-216 | the descent of _bst_insert stops either at a node equivalent to `v`, or below the node `y` where it fell off the tree, with `v` ordered between the values on either side of that place |
| RedBlackTree.RBTree.BstInsert | srcs/rb_tree.hpp:199-227 | _bst_insert returns an equivalent element with `false` and changes nothing, or hangs the new node where the descent fell off and returns it with `true` |
| RedBlackTree.RBTree.HangLeaf | srcs/rb_tree.hpp:218-224 | the last step of _bst_insert hangs the new node below `y` on the side its value compares to |
| RedBlackTree.RBTree.Recolor | srcs/rb_tree.hpp:456-460 | the red-uncle case recolours grandparent, parent and uncle and moves up to the grandparent, keeping nodes, values and their order |
| RedBlackTree.RBTree.AlignLeft | srcs/rb_tree.hpp:462-466 | the inner-child case on the left rotates the parent left and continues from the old parent, keeping nodes, values and their order |
| RedBlackTree.RBTree.RotateOutLeft | srcs/rb_tree.hpp:468-470 | the outer-child case on the left rotates the grandparent right and swaps the colours of parent and grandparent, keeping nodes, values and their order |
| RedBlackTree.RBTree.FixLeft | srcs/rb_tree.hpp:453-471 | one iteration of the loop of _balance with the parent on the left keeps the nodes and their order, climbs closer to the root, and keeps the invariant of the loop |
| RedBlackTree.RBTree.FixRight | srcs/rb_tree.hpp:472-491 | the mirror image of FixLeft, for a parent on the right of the grandparent |
| RedBlackTree.RBTree.Balance | srcs/rb_tree.hpp:444-495 | _balance keeps the nodes, values and their order, leaves the root black, restores the red rule where it held away from the new red node, and keeps black heights equal |
| RedBlackTree.RBTree.Insert | srcs/rb_tree.hpp:673-695 | insert(val) answers true exactly when no equivalent element was present; a duplicate leaves the tree and size as they were; the returned node holds an element equivalent to `v` at its lower-bound position; the red rule and black balance are kept |
| RedBlackTree.RBTree.InsertHint | srcs/rb_tree.hpp:698-701 | insert with a hint ignores it: the contents are what insert(val) gives and the returned node is at `v`'s lower bound |
| RedBlackTree.RBTree.InsertRange | srcs/rb_tree.hpp:710-716 | inserting a range is inserting its values one after the other |
| RedBlackTree.RBTree.Store | srcs/map.hpp:287-290 | writing an equivalent value through the reference map::operator[] returns replaces exactly that element and keeps the tree ordered |
| RedBlackTree.RBTree.ExciseLeaf | srcs/rb_tree.hpp:241-251 | _bst_erase of a leaf removes exactly its value and its node from the in-order sequences |
| RedBlackTree.RBTree.ExciseOnly | srcs/rb_tree.hpp:254-288 | _bst_erase of a node with one child puts that child in its place and removes exactly its value and node |
| RedBlackTree.RBTree.BstErase | srcs/rb_tree.hpp:235-296 | _bst_erase removes exactly the value at the erased position from the in-order sequence, keeps the nodes after it in their order, and returns where _balance would start |
| RedBlackTree.RBTree.CopyDown | srcs/rb_tree.hpp:290-295 | for a node with two children, copying the predecessor's value into it and erasing the predecessor removes exactly the value at the node's position |
| RedBlackTree.RBTree.Predecessor | srcs/rb_tree.hpp:290 | the rightmost node of the left subtree of a two-child node is its in-order predecessor, and it has no right child |
| RedBlackTree.RBTree.Erase | srcs/rb_tree.hpp:723-734 | erase(position) removes exactly the element at that position, lowers the size by one and leaves the tree ordered and anchored to its sentinel |
| RedBlackTree.RBTree.EraseValue | srcs/rb_tree.hpp:741-748 | erase(val) returns 1 and removes the equivalent element when there is one, returns 0 and changes nothing otherwise; afterwards no element is equivalent to `v` |
| RedBlackTree.RBTree.Copy | srcs/rb_tree.hpp:516-525 | the copy constructor gives a valid tree of fresh nodes with the same values, colours, shape, size and comparator |
| RedBlackTree.RBTree.AssignAsWritten | srcs/rb_tree.hpp:542-555 | operator= as written copies values, size and comparator, but a non-empty result has a root hanging from no node and a sentinel still naming the old root, so it is not a valid tree |
| RedBlackTree.RBTree.Assign | srcs/rb_tree.hpp:516-525 | operator= with the copy constructor's re-anchoring gives a valid tree with the other tree's values, size and comparator |
| RedBlackTree.RBTree.AnchorClone | srcs/rb_tree.hpp:521-524 | hanging a sorted cloned root from the sentinel makes the tree valid |
| RedBlackTree.RBTree.Clear | srcs/rb_tree.hpp:798-802 | clear() leaves no root, no element and size 0 |
| RedBlackTree.RBTree.Swap | srcs/rb_tree.hpp:771-792 | swap exchanges the comparators, roots, sentinels, sizes and contents of the two trees, and both stay valid |
| RedBlackTree.RBTree.FindFrom | srcs/rb_tree.hpp:340-349 | _bst_find returns the sentinel exactly when no element of the subtree is equivalent to `v`, and otherwise the node at `v`'s position |
| RedBlackTree.RBTree.LowerBoundFrom | srcs/rb_tree.hpp:359-368 | _bst_lower_bound returns the node of the first element not ordered before `v`, or the sentinel when there is none |
| RedBlackTree.RBTree.UpperBoundFrom | srcs/rb_tree.hpp:378-387 | _bst_upper_bound returns the node of the first element ordered after `v`, or the sentinel when there is none |
| RedBlackTree.RBTree.AtInjective | srcs/iterators/rb_tree_iterator.hpp:142-150 | distinct positions of a valid tree hold distinct nodes, so node identity is position identity |
| RedBlackTree.RBTree.Find | srcs/rb_tree.hpp:819-821 | find(val) is the sentinel exactly when no element is equivalent to `v`, and otherwise the node of that element |
| RedBlackTree.RBTree.Count | srcs/rb_tree.hpp:839-842 | count(val) is 1 when an equivalent element is present and 0 otherwise |
| RedBlackTree.RBTree.LowerBound | srcs/rb_tree.hpp:851-853 | lower_bound(val) is the node of the first element not ordered before `v`, or the sentinel |
| RedBlackTree.RBTree.UpperBound | srcs/rb_tree.hpp:873-875 | upper_bound(val) is the node of the first element ordered after `v`, or the sentinel |
| RedBlackTree.RBTree.EqualRange | srcs/rb_tree.hpp:895-897 | equal_range(val) is (lower_bound(val), upper_bound(val)): empty when no element is equivalent to `v`, exactly that element otherwise |
| RedBlackTree.RBTree.Empty | srcs/rb_tree.hpp:644-646 | empty() holds exactly when the tree has no element |
| RedBlackTree.RBTree.Size | srcs/rb_tree.hpp:653-655 | size() is the number of elements |
| RedBlackTree.RBTree.Begin | srcs/rb_tree.hpp:562-569 | begin() is the node of the first element in order, or the sentinel for an empty tree |
| RedBlackTree.Leftmost | srcs/rb_tree.hpp:146-150 | _find_leftmost_node is the first node of the subtree in order, or null for an empty one |
| RedBlackTree.Rightmost | srcs/rb_tree.hpp:158-162 | _find_rightmost_node is the last node of the subtree in order, which has no right child, or null for an empty one |
| RedBlackTree.RBTree.AlignRight | srcs/rb_tree.hpp:481-485 | for an inner left child of a right child, the rotation at the parent makes the old parent the red outer child, keeping the nodes, values and in-order sequence |
| RedBlackTree.RBTree.RotateOutRight | srcs/rb_tree.hpp:487-489 | for an outer right child of a red parent under a black uncle, the rotation at the grandparent with the colour swap puts the parent on top of the subtree, keeping the nodes, values and in-order sequence |
| RedBlackTree.RBTree.Detach | srcs/rb_tree.hpp:676-677 | before the descent the root loses its parent link, and nothing else changes |
| RedBlackTree.RBTree.Anchor | srcs/rb_tree.hpp:683-691 | after a mutation the root's parent is the sentinel and the sentinel's left link is the root, and nothing else changes |
| RedBlackTree.RBTree.DropLeaf | srcs/rb_tree.hpp:241-251 | the parent of an erased leaf forgets it: the tree is the old tree with that leaf replaced by nothing |
| RedBlackTree.RBTree.LiftChild | srcs/rb_tree.hpp:254-288 | when the erased node is the root with one child, that child becomes the root with no parent |
| RedBlackTree.RBTree.SpliceOut | srcs/rb_tree.hpp:254-288 | when the erased node has one child and a parent, the parent takes that child in its place |
| RedBlackTree.RBTree.Revalue | srcs/rb_tree.hpp:290-293 | the copy step of _bst_erase replaces the value of one node and keeps its links, the nodes and the in-order node sequence |
| RedBlackTree.RBTree.Reroot | srcs/rb_tree.hpp:723-734 | the end of erase(position): the tree is valid again, with the same nodes and values, and the size has shrunk by one |
| RbFixup.RecolorKeeps | srcs/rb_tree.hpp:456-460 | the red-uncle recolouring keeps the loop invariant of _balance, black balance and the black root |
| RbFixup.GrandparentBlack | srcs/rb_tree.hpp:449-451 | when the loop of _balance runs, the grandparent of the current red node is black |
| RbFixup.RecolorRed | srcs/rb_tree.hpp:456-460 | after recolouring, the red rule holds everywhere except possibly between the grandparent and its parent |
| RbFixup.RecolorBalanced | srcs/rb_tree.hpp:456-460 | recolouring keeps the grandparent's subtree black-balanced with the same black height |
| RbFixup.RotateOutKeeps | srcs/rb_tree.hpp:468-470 | the outer rotation with its colour swap keeps the loop invariant, black balance and the black root |
| RbFixup.RotateOutRed | srcs/rb_tree.hpp:468-470 | after the outer rotation the red rule holds on the whole rotated subtree |
| RbFixup.RotateOutBalanced | srcs/rb_tree.hpp:468-470 | the outer rotation keeps the subtree black-balanced with the same black height |
| RbFixup.AlignKeeps | srcs/rb_tree.hpp:462-466 | the inner-child rotation turns the case into the outer one and keeps the loop invariant and black balance |
| RbFixup.StopKeeps | srcs/rb_tree.hpp:449 | when the loop of _balance stops, the red rule holds on the whole tree |
| RbFixup.BlackenRoot | srcs/rb_tree.hpp:494 | painting the root black makes it black and keeps the red rule and black balance |
| RbErase.ExciseNodes | srcs/rb_tree.hpp:241-288 | cutting out a node with at most one child removes exactly that node from the tree and keeps the others distinct |
| RbErase.ExciseValues | srcs/rb_tree.hpp:241-288 | cutting out a node with at most one child removes exactly its value from the in-order sequence |
| RbErase.ExciseNodeSeq | srcs/rb_tree.hpp:241-288 | cutting out a node with at most one child removes exactly that node from the in-order node sequence |
| RbErase.ExciseLinked | srcs/rb_tree.hpp:254-288 | once the parent points to the remaining child and the child back to the parent, the tree without the node is linked |
| RbErase.RevaluePlug | srcs/rb_tree.hpp:292-293 | overwriting a node's value keeps the tree linked and keeps its nodes and their order |
| RbErase.RevalueValues | srcs/rb_tree.hpp:292-293 | the new value replaces the old one at the node's in-order position |
| RbErase.CopyThenRemove | srcs/rb_tree.hpp:290-295 | copying the predecessor's value into position `k` and then removing the predecessor's position removes position `k` |
| RbClone.CloneTree | srcs/rb_tree.hpp:318-330 | _bst_clone of a whole tree gives fresh distinct nodes with the same shape, values and colours, its root hanging from NULL |
| RbClone.CloneNodes | srcs/rb_tree.hpp:318-330 | _bst_clone(node, parent) gives a fresh copy of the subtree whose top points back to `parent`, leaving the old nodes alone |
| RbClone.CloneChildren | srcs/rb_tree.hpp:326-327 | the two recursive calls copy the two subtrees into fresh, disjoint node sets linked below the new node |
| RbClone.CopiedKeeps | srcs/rb_tree.hpp:318-330 | a copy holds the same values in the same order and keeps the black root, the red rule and black balance |
| RbSearch.StepRight | srcs/rb_tree.hpp:209-210 | stepping right past an element ordered before `v` keeps `v` between the values on either side of the descent |
| RbSearch.StepLeft | srcs/rb_tree.hpp:211-212 | stepping left past an element ordered after `v` keeps `v` between the values on either side of the descent |
| RbSearch.SideOf | srcs/rb_tree.hpp:220-223 | where the descent fell off, the side it took from the last node is the side `v` compares to |
| RbSearch.LeafPlace | srcs/rb_tree.hpp:218-226 | a leaf holding `v` hung where the descent fell off puts `v` at its lower bound, and no element was equivalent to it |
| RbSearch.FoundPlace | srcs/rb_tree.hpp:213-214 | a node where the descent stopped on an equivalent element is the node at `v`'s lower bound |
| RbSearch.LowerStep | srcs/rb_tree.hpp:359-368 | at each node of the lower-bound descent, the first position not before `v` lies in the right subtree when the node's element orders before `v`, and in the left subtree otherwise |
| RbSearch.UpperStep | srcs/rb_tree.hpp:378-387 | at each node of the upper-bound descent, the first position after `v` lies in the left subtree when `v` orders before the node's element, and in the right subtree otherwise |
| RbSearch.FindStep | srcs/rb_tree.hpp:340-349 | at each node of the find descent, an element equivalent to `v` is the node's own or lies in the subtree the order selects, at the lower-bound position |
| List.ListNode.constructor | srcs/list.hpp:152-159 | _createNode gives a node holding `v` with null links |
| List.RingInsert | srcs/list.hpp:245-252 | relinking a new node in after position `k` of a circular doubly linked ring keeps it a ring without repeated nodes |
| List.RingRemove | srcs/list.hpp:576-580 | unlinking the node at a position of the ring keeps the rest a ring without repeated nodes |
| List.InsertNodeBefore | srcs/list.hpp:245-252 | _insertNodeBefore links the new node between `node` and the node that was before it, in both directions, and changes no other link |
| List.UnlinkNode | srcs/list.hpp:576-580 | the relinking of erase links the nodes on either side of the erased one to each other in both directions |
| List.KeptSpec | srcs/list.hpp:718-724 | what remove_if(pred) leaves holds exactly the values of the list that `pred` does not select, in their order, and nothing when every value is selected |
| List.Uniq | srcs/list.hpp:747-753 | what unique(same) leaves is no longer than the list and starts with its first value |
| List.UniqAdjacent | srcs/list.hpp:747-753 | no value unique(same) keeps is matched by `same` with the value kept just before it |
| List.UniqSameValues | srcs/list.hpp:731-737 | unique() loses no value and keeps no value equal to its neighbour |
| List.UniqStep | srcs/list.hpp:747-753 | one turn of the unique loop, erasing or stepping over the current value, keeps the loop's account of what has been kept |
| List.UniqDone | srcs/list.hpp:747-753 | when the unique loop reaches the end, the list holds exactly what unique(same) leaves |
| List.KeptStep | srcs/list.hpp:718-724 | one turn of the remove_if loop, erasing or stepping over the current value, keeps the loop's account of what has been kept |
| List.KeptDone | srcs/list.hpp:718-724 | when the remove_if loop reaches the end, the list holds exactly what remove_if(pred) leaves |
| List.Backwards | srcs/list.hpp:828-846 | the reversed values have the same length and hold the value at position `i` from the back at position `i` |
| List.BackwardsTwice | srcs/list.hpp:828-846 | reversing twice gives the values back |
| List.RingReversed | srcs/list.hpp:828-846 | exchanging the two links of every node of a ring, the sentinel included, gives the reversed ring |
| List.HoldingReversed | srcs/list.hpp:828-846 | the reversed ring holds the values in the opposite order |
| List.SwapLinks | srcs/list.hpp:836-838 | the exchange step of reverse makes the node's two links trade places |
| List.MergedPermutation | srcs/list.hpp:773-793 | merge loses no value and adds none: the result is a permutation of both lists together |
| List.NotBeforeTransitive | srcs/list.hpp:773-793 | under a strict weak order, "not before" is transitive, which keeps merged and sorted results in order |
| List.SortedCons | srcs/list.hpp:773-793 | a sorted sequence with a value in front stays sorted exactly when no value of it goes before that value |
| List.MergedSorted | srcs/list.hpp:773-793 | merging two lists sorted under a strict weak order gives a sorted list |
| List.MergeSortPermutation | srcs/list.hpp:811-822 | sort loses no value and adds none |
| List.MultisetHalves | srcs/list.hpp:210-237 | a sequence holds exactly the values of its two halves together |
| List.MergeSortSorted | srcs/list.hpp:811-822 | under a strict weak order, sort leaves the values in order |
| List.MergeDone | srcs/list.hpp:779-788 | when the merge loop has used up `src`, the list holds the merged values |
| List.RingSpliceIn | srcs/list.hpp:678-694 | splice on the receiving list puts the run of moved nodes in after position `k` of the ring, and the ring stays a ring without repeated nodes |
| List.RingSpliceOut | srcs/list.hpp:678-694 | splice on the list the run leaves links the nodes on either side of the run to each other, and the ring stays a ring without repeated nodes |
| List.HoldingSpliceIn | srcs/list.hpp:678-694 | the values of the moved nodes go in, in order, at position `k` of the receiving list |
| List.HoldingSpliceOut | srcs/list.hpp:678-694 | the values of the moved nodes leave the contents of the list they come from |
| List.SplicedFootprints | srcs/list.hpp:678-694 | after splice the node sets of the two lists are disjoint and together are the nodes the two had before: no node is made or lost |
| List.DetachLinks | srcs/list.hpp:687-688 | the two link writes on the list the run leaves make the heap mirror that list's ring with the run cut out |
| List.AttachLinks | srcs/list.hpp:690-693 | the four link writes on the receiving list make the heap mirror the receiving ring with the run linked in |
| List.List.constructor | srcs/list.hpp:260-262 | the default constructor gives an empty list: a sentinel linked to itself |
| List.List.Fill | srcs/list.hpp:271-274 | the fill constructor holds `n` copies of `val` |
| List.List.FromRange | srcs/list.hpp:284-288 | the range constructor holds the values of the range, in order |
| List.List.Insert | srcs/list.hpp:524-534 | insert(position, val) puts a fresh node holding `val` just before `position`, keeps every other value in its order, and returns the new node |
| List.List.LinkBefore | srcs/list.hpp:245-252 | linking a node holding `v` in before the node at position `k` puts `v` at position `k` and moves `position` to `k + 1` |
| List.List.Erase | srcs/list.hpp:571-583 | erase(position) removes exactly the element at that position and returns its former successor |
| List.List.AtLinks | srcs/iterators/list_iterator.hpp:90-113 | the node at position `k` links forward to position `k + 1` and back to position `k - 1`, around the sentinel |
| List.List.AtInjective | srcs/iterators/list_iterator.hpp:115-122 | different positions hold different nodes |
| List.List.AtValue | srcs/iterators/list_iterator.hpp:79-82 | the node at position `k` is the sentinel exactly at the end, and otherwise holds the `k`-th value |
| List.List.Begin | srcs/list.hpp:321-323 | begin() is the node at position 0: the first element, or the sentinel of an empty list |
| List.List.End | srcs/list.hpp:339-341 | end() is the sentinel, the position after the last element |
| List.List.Empty | srcs/list.hpp:393-395 | empty() holds exactly when the list has no element |
| List.List.Front | srcs/list.hpp:426-428 | front() is the first element |
| List.List.Back | srcs/list.hpp:444-446 | back() is the last element |
| List.List.Size | srcs/list.hpp:398-408 | size(), which counts the nodes from the first to the sentinel, is the number of elements |
| List.List.Clear | srcs/list.hpp:643-645 | clear() leaves an empty list whose sentinel links to itself |
| List.List.Swap | srcs/list.hpp:607-619 | swap exchanges the sentinels, and so the elements, of the two lists |
| List.List.PushFront | srcs/list.hpp:486-488 | push_front(val) puts `val` before the first element |
| List.List.PushBack | srcs/list.hpp:503-505 | push_back(val) appends `val` |
| List.List.PopFront | srcs/list.hpp:494-496 | pop_front() removes the first element |
| List.List.PopBack | srcs/list.hpp:511-515 | pop_back() removes the last element |
| List.List.InsertFill | srcs/list.hpp:543-547 | insert(position, n, val) puts `n` copies of `val` before `position`, keeping every other value in its order |
| List.List.InsertRange | srcs/list.hpp:557-563 | insert(position, first, last) puts the range's values, in order, before `position` |
| List.List.EraseRange | srcs/list.hpp:592-599 | erase(first, last) removes exactly the elements from `first` up to `last` and returns `last` |
| List.List.Resize | srcs/list.hpp:628-637 | resize(n, val) cuts the list down to its first `n` values or pads it with copies of `val` up to `n` |
| List.List.AssignFill | srcs/list.hpp:476-479 | assign(n, val) leaves exactly `n` copies of `val` |
| List.List.AssignRange | srcs/list.hpp:464-468 | assign(first, last) leaves exactly the range's values |
| List.List.InsertFrom | srcs/list.hpp:557-563 | inserting the range of another list copies its values from `first` up to `last`, in order, before `position`, into fresh nodes |
| List.List.InsertCopy | srcs/list.hpp:557-563 | one turn of the range insert copies the current value of the other list before `position` and moves on to the next node |
| List.List.Copy | srcs/list.hpp:291-294 | the copy constructor holds the values of `x`, in order, in fresh nodes |
| List.List.Assign | srcs/list.hpp:306-314 | after operator= the list holds the values of `other`; self-assignment changes nothing |
| List.List.EraseOrSkip | srcs/list.hpp:718-724 | one step of the remove_if and unique walks erases the current element or steps over it, and goes on from the node that followed it |
| List.List.RemoveIf | srcs/list.hpp:718-724 | remove_if(pred) leaves exactly the values `pred` does not select, in their order |
| List.List.Remove | srcs/list.hpp:701-707 | remove(val) leaves exactly the values different from `val`, in their order |
| List.List.UniqueBy | srcs/list.hpp:747-753 | unique(same) leaves exactly the first value and every value `same` does not match with the value before it |
| List.List.Unique | srcs/list.hpp:731-737 | unique() drops every value equal to the value kept before it |
| List.List.FlipElements | srcs/list.hpp:829-841 | the loop of reverse() leaves every element node with its `next` and `prev` exchanged, and the sentinel untouched |
| List.List.Reverse | srcs/list.hpp:828-846 | reverse() reverses the ring, sentinel included, and so the values, and uses the same nodes |
| List.List.MergeStep | srcs/list.hpp:779-788 | one turn of the merge loop moves the next node of `src` in before `node1` when `node1` is the sentinel or the value goes before it, and otherwise steps `node1` forward; the loop's account of the merge is kept and the work left shrinks |
| List.List.Merge | srcs/list.hpp:773-793 | merge(src, comp) leaves the stable merge of the two lists, taking `src`'s value only when it goes before this list's, and leaves `src` empty |
| List.List.Splice | srcs/list.hpp:678-694 | splice(position, src, first, last) moves the values from `first` up to `last` out of `src`, in order, to just before `position`, and allocates nothing |
| List.List.SpliceAll | srcs/list.hpp:653-655 | splice(position, src) moves every value of `src` to just before `position` and leaves `src` empty, with no node made or lost; an empty `src` changes neither list |
| List.SpliceEmptyAsWritten | srcs/list.hpp:678-694 | as written, splice with an empty `src` links `src`'s sentinel in after this list's sentinel: begin() is `src`'s sentinel and its successor is end(), so the list gains one element, the sentinel's value (the source's `T()`); `src`'s sentinel no longer links to itself |
| List.List.SpliceOne | srcs/list.hpp:664-668 | splice(position, src, i) moves the single value at `i` out of `src` to just before `position` |
| List.List.Middle | srcs/list.hpp:211-231 | the fast and slow walk of _split ends with `slow` at position (n + 1) / 2 |
| List.List.Split | srcs/list.hpp:210-237 | _split on at least two values keeps the first (n + 1) / 2 of them, a non-empty prefix, and returns a fresh list with the rest, a non-empty suffix; the two are disjoint and together hold the original nodes |
| List.List.Sort | srcs/list.hpp:811-822 | sort(comp) leaves the merge sort of the values, which is a sorted permutation of them |
| List.List.Detach | srcs/list.hpp:680-688 | the first half of splice links the nodes on either side of the run to each other, cutting the run's values out of `src` |
| List.List.Attach | srcs/list.hpp:682-693 | the second half of splice links the run in before `position`, putting its values, in order, at position `k` |
| List.List.SpliceRun | srcs/list.hpp:678-694 | splice of a non-empty run moves exactly its values, in order, from `src` to just before `position` |
| List.Equal | srcs/list.hpp:858-868 | operator== holds exactly when the two lists hold the same values in the same order |
| List.Less | srcs/list.hpp:876-887 | operator< is the lexicographic order: the first differing value decides, and a proper prefix is less |
| List.NotEqual | srcs/list.hpp:871-873 | operator!= holds exactly when the contents differ |
| List.LessEq | srcs/list.hpp:890-892 | operator<= holds exactly when rhs is not lexicographically less than lhs |
| List.Greater | srcs/list.hpp:895-897 | operator> holds exactly when rhs is lexicographically less than lhs |
| List.GreaterEq | srcs/list.hpp:900-902 | operator>= holds exactly when lhs is not lexicographically less than rhs |
| List.SwapLists | srcs/list.hpp:905-907 | the non-member swap exchanges the contents of the two lists |
| ListIter.ListIterator.constructor | srcs/iterators/list_iterator.hpp:51 | the default iterator stands on no node |
| ListIter.ListIterator.FromNode | srcs/iterators/list_iterator.hpp:58 | the iterator built from a node stands on that node |
| ListIter.ListIterator.Copy | srcs/iterators/list_iterator.hpp:60-62 | the converting copy stands on the same node as its source |
| ListIter.ListIterator.Assign | srcs/iterators/list_iterator.hpp:67-72 | operator= moves the iterator to the other one's node |
| ListIter.ListIterator.Get | srcs/iterators/list_iterator.hpp:79-82 | operator* is the value at the iterator's position |
| ListIter.ListIterator.Increment | srcs/iterators/list_iterator.hpp:90-93 | operator++ moves to the next position, and from the sentinel around to the first |
| ListIter.ListIterator.PostIncrement | srcs/iterators/list_iterator.hpp:95-100 | operator++(int) moves like operator++ and returns an iterator on the position it left |
| ListIter.ListIterator.Decrement | srcs/iterators/list_iterator.hpp:102-106 | operator-- moves to the previous position, and from the first around to the sentinel |
| ListIter.ListIterator.PostDecrement | srcs/iterators/list_iterator.hpp:108-113 | operator--(int) moves like operator-- and returns an iterator on the position it left |
| ListIter.Equal | srcs/iterators/list_iterator.hpp:115-118 | `==` holds for an iterator and itself; with `EqualAtSamePosition`, it holds exactly when the two iterators stand on the same node |
| ListIter.NotEqual | srcs/iterators/list_iterator.hpp:120-123 | `!=` is the negation of `==` |
| ListIter.EqualAtSamePosition | srcs/iterators/list_iterator.hpp:115-122 | two iterators over one list are equal exactly when they stand at the same position, and different otherwise |
| Ordering.LowerIndex | srcs/rb_tree.hpp:359-368 | the lower bound of `v` is the first index whose element does not order before `v`; every element before it orders before `v` |
| Ordering.UpperIndex | srcs/rb_tree.hpp:378-387 | the upper bound of `v` is the first index whose element orders after `v`; no element before it orders after `v` |
| Ordering.LowerIndexUnique | srcs/rb_tree.hpp:359-368 | any index with the two defining properties of the lower bound is the lower bound |
| Ordering.UpperIndexUnique | srcs/rb_tree.hpp:378-387 | any index with the two defining properties of the upper bound is the upper bound |
| Ordering.BoundsOfStrictlySorted | srcs/rb_tree.hpp:895-897 | in a strictly sorted sequence an element equivalent to `v` exists exactly when the lower bound holds one, and the upper bound is one past the lower bound exactly then |
| Ordering.BoundsAroundEquivalent | srcs/rb_tree.hpp:895-897 | when the element at `i` is equivalent to `v`, the lower bound is `i` and the upper bound `i + 1` |
| Ordering.BoundsWithoutEquivalent | srcs/rb_tree.hpp:895-897 | with no element equivalent to `v`, the lower and upper bounds coincide, so equal_range is empty |
| Ordering.InsertAtLowerIndex | srcs/rb_tree.hpp:688-694 | putting a new `v` at its lower bound keeps a strictly sorted sequence strictly sorted |
| Ordering.RemoveKeepsStrictlySorted | srcs/rb_tree.hpp:723-734 | removing one element keeps a strictly sorted sequence strictly sorted |
| Ordering.RemoveEquivalent | srcs/rb_tree.hpp:741-748 | removing the element at `v`'s lower bound, when it is equivalent to `v`, leaves no element equivalent to `v` |
| Ordering.RemoveOnlyEquivalent | srcs/rb_tree.hpp:741-748 | in a strictly sorted sequence an element equivalent to `v` is the only one, so removing it leaves none |
| Ordering.ReplaceEquivalentKeepsSorted | srcs/map.hpp:287-290 | replacing an element by an equivalent one keeps a strictly sorted sequence strictly sorted |
| Ordering.InsertedFacts | srcs/rb_tree.hpp:673-695 | insert on a strictly sorted sequence keeps it when an equivalent element is present and otherwise puts `v` at its lower bound; the result is strictly sorted, holds an element equivalent to `v` and keeps every element |
| Ordering.InsertedAllFacts | srcs/rb_tree.hpp:710-716 | inserting a range keeps the sequence strictly sorted, keeps every element already there, and leaves an element equivalent to each inserted one |

## Left out

- `RedBlackTree.RBTree.Erase`: of the `_balance` call after `_bst_erase`, only its last step is modelled, which paints the root black. The source runs the insertion fix-up there. During erase `_root->parent` is the sentinel, so a rotation at the root rewires the sentinel's `left` instead of `_root`. For example, insert 10, 5, 15, 3, 7, 2 and then erase 3: iteration then loses 2 and 5. The model proves what `_bst_erase` does: the designated value leaves the in-order sequence, the order is kept and the size drops by one. After erase it claims neither the red rule nor the black balance.
- `RedBlackTree.RBTree.EraseValue`, `RbTreeIterator.EraseStep`, `RbTreeIterator.EraseRange`, `Set.Set.EraseAt`, `Set.Set.Erase`, `Set.Set.EraseRange`, `Map.Map.EraseAt`, `Map.Map.Erase`, `Map.Map.EraseRange`: these go through `RedBlackTree.RBTree.Erase` and inherit the same gap. Their exact contents after the erase hold for the modelled `_bst_erase`, not for the source's post-erase `_balance`.
- `Map.Map.Assign`, `Set.Set.Assign`: `operator=` of map and set runs the tree's `operator=`, which never re-anchors the sentinel (see Findings). These two members use the corrected `RedBlackTree.RBTree.Assign`, so they promise a valid, anchored tree that the source does not give when the assigned container is non-empty.
- `RedBlackTree.RBTree.Clear`: the sentinel's `left` keeps naming a freed node after `clear()` and after the last erase. `Valid()` demands the anchoring only while there is a root, and no operation of the model reads that stale link. Decrementing `end()` of an empty tree is undefined in the source and is not modelled.
- `List.List.EraseRange`, `List.List.Remove`, `List.List.RemoveIf`, `List.List.Unique`, `List.List.UniqueBy`: the source advances an iterator whose node was just freed. The model captures the successor before erasing, and the freed node keeps its old links, which is the intended behaviour.
- `List.List.Splice`, `List.List.SpliceAll`, `List.List.SpliceOne`: for an empty range (`first == last`) the source still performs all six link writes, which link the whole ring of `src`, its sentinel included, in before `position` (see Findings). `splice(position, src)` with an empty `src` does this through `List.List.SpliceAll`. The model returns at once, as splicing nothing should, and `List.SpliceEmptyAsWritten` states what the writes do. Splicing within one list (`src == this`) is not modelled. For `List.List.SpliceOne` this leaves out the move within a list, `l.splice(position, l, i)`, which the source handles when `position` is neither `i` nor its successor.
- `List.List.Merge`: merging a list with itself (`x.merge(x)`) is not modelled. In the source the loop at srcs/list.hpp:779-788 runs over the list's own nodes, then the writes at srcs/list.hpp:791-792 reset `src`'s sentinel, which is this list's own: the list is left empty and its nodes leak.
- `List.List.Front`, `List.List.Back`, `List.SpliceEmptyAsWritten`: the model's sentinel holds no value (`None`). The source's `_createEndNode` (srcs/list.hpp:166-172) constructs a default `T()` in it. So `front()` and `back()` of an empty list, which return that `T()` in the source, are modelled only for a non-empty list. `List.SpliceEmptyAsWritten` states the source's outcome for a sentinel holding some value.
- `List.List.Merge`, `List.List.Sort`: the overloads without a comparator use `operator<`. They are these members with that comparator passed in.
- List values cannot be written through the references that `front()`, `back()` and `*it` return: a node's value is a constant. For map, writing the mapped value through `operator[]` is modelled by `Map.Map.SetMapped`.
- The list iterator's `operator->` and its conversion to the const iterator are not modelled. Both are the node pointer itself, and `ListIter.ListIterator.Copy` covers the conversion.
- `pair::operator=` is not modelled: `Utility.Pair` is a value, and assigning it copies both fields. The self-assignment test has nothing to guard.
- `Vector.Vector.Insert`, `Vector.Vector.InsertFill`, `Vector.Vector.PushBack`: `val` is taken by value. In the source it is a `const value_type &`, which may name an element of the vector itself. The source reads it only after the tail shift (srcs/vector.hpp:462-466, 488-494), or after `_realloc` has freed the old buffer (srcs/vector.hpp:122-124). An argument that aliases an element of the vector is therefore not modelled: for it the source may construct a shifted or freed value instead of `val`.
- `max_size()` is the constant `Vector.MaxSize`, the value `std::allocator` gives for a four-byte element on a 64-bit target. `get_allocator()` and the allocator members are left out.
- `map::key_comp()` is not modelled. `map::value_comp()` is `Map.Map.ValueComp`.
- `print` and `_print` of the tree write to the console and are left out.
- Sizes, capacities and iterator differences are unbounded integers. The source's `size_t` and `ptrdiff_t` cannot overflow below `max_size()`, which the vector's contracts require.
- The float element types of the set tests are replaced by any type with a strict weak order.
- Of the driver's scenarios, only the following are stated:
  - the stack push and pop (`Stack.PushPopScenario`);
  - the map insert and bounds (`Map.InsertScenario`, `Map.BoundsScenario`);
  - the vector reserve (`Vector.ReserveScenario`).

## Findings

| source | as written | input that shows it | evidently intended | confidence | as-written member | corrected member |
|---|---|---|---|---|---|---|
| srcs/set.hpp:378-381 | `upper_bound(val)` returns `_tree.lower_bound(val)` | a set holding 5; `upper_bound(5)` names 5 instead of `end()` | the first element that goes after `val`, as the doc comment above it says and as `equal_range` computes | high (not executed) | Set.Set.UpperBoundAsWrittenWrong | Set.Set.UpperBound |
| srcs/vector.hpp:182-194 | `operator=` copies `other._capacity` into `_capacity` and keeps the old buffer, then inserts `other`'s elements; insert's growth test reads the copied capacity | assigning a vector of capacity 4 holding 1, 2, 3 to a vector whose buffer has one slot: no reallocation, and three elements are constructed in a one-slot buffer | grow the buffer to `other`'s capacity, as `reserve` would, before inserting | high (not executed) | Vector.AssignAsWrittenOverflows | Vector.Vector.Assign |
| srcs/rb_tree.hpp:542-555 | `operator=` clones `other`'s nodes under a NULL parent and never sets `_root->parent = _end; _end->left = _root` | assigning a non-empty tree to a non-empty one: the sentinel's `left` still names the old root, which `clear()` freed, so `--end()` walks freed nodes | re-anchor the sentinel as the copy constructor does at srcs/rb_tree.hpp:521-524 | high (not executed) | RedBlackTree.RBTree.AssignAsWritten | RedBlackTree.RBTree.Assign |
| srcs/list.hpp:678-694 | the six link writes of `splice(position, src, first, last)` run even when `first == last`: `this_prev->next = first`, `first->prev = this_prev`, `this_next->prev = last->prev` and `last->prev->next = this_next` link the whole ring of `src`, its sentinel included, in before `position` | `splice(position, src)` with an empty `src` (srcs/list.hpp:653-655): `src`'s sentinel becomes an element of this list, which then reports one element, the sentinel's default `T()`, and `src`'s sentinel no longer links to itself | an empty range moves nothing | high (not executed) | List.SpliceEmptyAsWritten | List.List.SpliceAll |
