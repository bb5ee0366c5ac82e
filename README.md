# art::vector in Dafny

A model of `art::vector<Type, Allocator>` from `vector.hpp`. This is a
growable, contiguous sequence container that owns one block of element slots.

- **State.** The C++ object keeps three pointers into its block:
  `_m_first`, `_m_last` and `_m_end_of_capacity`. The model keeps
  `Vectors.Vector` as a class with two fields:
  - `buf: array<T>`: the block. Its length is the capacity.
  - `size: nat`: equal to `_m_last - _m_first`.

  The live elements are `Elements() == buf[..size]`. The "no allocation yet"
  state is a block of length zero.
- **Allocation.** Allocating a block creates a fresh array. Constructing an
  element writes its slot. Destroying an element forgets the slot, because
  the size moves past it.
- **Modifiers.** Every modifier is a method that changes the fields in place.
  Its postcondition ties the new element sequence and the new capacity to the
  old ones, through the specification functions in `Sequences`:
  `InsertAt`, `RemoveAt`, `ErasedAsWritten`, `Resized` and `Repeat`.
  - The shifts run in the block itself, through the loops of `Algorithms`:
    `std::copy`, `std::copy_backward` and `std::fill`.
  - Reallocation is `Vector.AllocateAndCopy`. Its growth rule is the function
    `Grown`: the capacity becomes twice the need when the need reaches the
    current capacity, and exactly the need otherwise.
- **Other modules.**
  - `Iterators`: the random-access iterator as a bare index.
  - `Relational`: the free comparison operators over the two element
    sequences. The element type's own `operator<` is a parameter `less`.
  - `Scenarios`: replays the repository's test cases against the model.

Two things the element type supplies, and which the container cannot see, are
parameters:

- `Type()`, the value a default-constructed element has: the `blank`
  argument of `Vector.Sized` and `Vector.Resize`.
- `Type::operator<`: the `less` argument of the comparison operators.

The element type's `operator!=` is taken to be inequality of values.

Behaviour of the code as written, which the model keeps:

- Every growth that `push_back`, `insert`, `emplace`, `resize`, `assign`,
  `reserve` and copy assignment trigger doubles the requested size. At all
  of these call sites the request is at least the capacity, so `reserve(20)`
  on a vector of capacity 8 yields a capacity of 40. Only `shrink_to_fit` can
  reach the "exactly the need" branch.
- `push_back` grows already when `size() + 1 >= capacity()`. So after a
  `push_back` at least one slot is always free.
- `shrink_to_fit` makes the capacity equal to the size only when some slot
  was free. On a full vector it doubles the capacity. Shrinking a vector of 6
  elements held in a block of 12 gives capacity 6, and shrinking it again
  gives 12 (`Scenarios.ClearAndShrink`).
- `clear` releases the block without destroying the elements. The model
  forgets them either way.
- `erase(first, last)` copies the tail to `first + 1` instead of `first`.
  See Findings.
- `operator<` is not lexicographic, and `operator<=` rejects a proper prefix.
  See Findings.
- The copy-with-allocator constructor never advances `_m_last`, so the copy
  is empty. `Vector.CopyWithAllocator` models this literally.

## Model

| member | source | states |
|---|---|---|
| `Vectors.Grown` | vector.hpp:195-197 | the new capacity is at least the need; it is larger than the old capacity when the need reaches it (and the need is non-zero), and smaller when the need is below it |
| `Vectors.Vector.AllocateAndCopy` | vector.hpp:193-215 | a fresh block of `Grown(need, capacity)` slots; the size and the live elements, in order, are unchanged |
| `Vectors.Vector.constructor` | vector.hpp:244-250 | the default constructor leaves the null state: no elements, capacity 0 |
| `Vectors.Vector.Sized` | vector.hpp:237-242 | `n` default-constructed elements, capacity `Grown(n, 0)` |
| `Vectors.Vector.Filled` | vector.hpp:252-256 | `n` copies of the value, through `assign` |
| `Vectors.Vector.FromRange` | vector.hpp:274-279 | the range constructor (and the initializer-list one, 258-262) holds exactly the source elements |
| `Vectors.Vector.CopyWithAllocator` | vector.hpp:231-236 | as written: the slots hold copies of the other vector's elements, but the size stays 0 |
| `Vectors.Vector.Reserve` | vector.hpp:533-536 | reallocates only when `n` exceeds the capacity, and otherwise keeps the same block; the capacity never shrinks, becomes at least `n`, and the elements are unchanged |
| `Vectors.Vector.ShrinkToFit` | vector.hpp:538-541 | elements unchanged; capacity equals the size when a slot was free, and twice the size when the vector was full |
| `Vectors.Vector.Clear` | vector.hpp:505-509 | back to the null state: no elements and capacity 0 |
| `Vectors.Vector.Size` | vector.hpp:548-551 | the size is the number of live elements and at most the capacity |
| `Vectors.Vector.Capacity` | vector.hpp:543-546 | the capacity is at least the size |
| `Vectors.Vector.Empty` | vector.hpp:558-561 | true exactly when there are no elements |
| `Vectors.Vector.At` | vector.hpp:563-573 | `out_of_range` exactly when `pos >= size()`; otherwise element `pos` |
| `Vectors.Vector.Get` | vector.hpp:605-613 | `operator[]` returns element `pos` for `pos < size()` |
| `Vectors.Vector.Front` | vector.hpp:575-583 | the element at index 0 of a non-empty vector |
| `Vectors.Vector.Back` | vector.hpp:585-593 | the element at index `size() - 1` of a non-empty vector |
| `Vectors.Vector.Begin` | vector.hpp:310-323 | `begin()` is position 0 |
| `Vectors.Vector.End` | vector.hpp:325-338 | `end() - begin() == size()` |
| `Vectors.Vector.Deref` | vector.hpp:31-32 | `*it` is the element at the iterator's distance from `begin()` |
| `Vectors.Vector.AtAgreesWithGet` | vector.hpp:563-573 | `at` and `operator[]` agree inside the bounds, and `at` fails outside them |
| `Vectors.Vector.PushBack` | vector.hpp:395-400 | contents become `s + [v]`; the capacity grows when `size + 1 >= capacity`, and otherwise the block is kept; afterwards a free slot always remains |
| `Vectors.Vector.EmplaceBack` | vector.hpp:402-406 | contents become `s + [v]`, through `emplace(end(), v)` |
| `Vectors.Vector.PopBack` | vector.hpp:408-412 | a non-empty `s` becomes `s[..|s| - 1]`; the block is kept |
| `Vectors.Vector.Insert` | vector.hpp:426-436 | `insert(pos, Type&&)`: contents become `s[..i] + [v] + s[i..]`; the result is the position `i`; capacity as the growth rule says, and the block is kept when the new size fits |
| `Vectors.Vector.InsertCopies` | vector.hpp:438-448 | contents become `s[..i]` + `n` copies of the value + `s[i..]`; the result is position `i` |
| `Vectors.Vector.InsertRange` | vector.hpp:467-479 | the range (or the initializer list, 450-453) is placed before index `i`; the result is position `i` |
| `Vectors.Vector.Emplace` | vector.hpp:455-465 | the same effect as `insert(pos, Type&&)`; the result is position `i` |
| `Vectors.Vector.Erase` | vector.hpp:481-487 | contents become `s[..i] + s[i+1..]`; the result is position `i`; the block is kept |
| `Vectors.Vector.EraseRange` | vector.hpp:489-495 | contents become `ErasedAsWritten(s, first, last)`; the size drops by `last - first`; the result is `first` |
| `Vectors.Vector.Resize` | vector.hpp:516-523 | the size becomes `count`; the first `min(old, count)` elements are kept, and the new slots hold `Type()` |
| `Vectors.Vector.ResizeFill` | vector.hpp:525-531 | as `resize(count)`, but the new slots hold the value |
| `Vectors.Vector.Assign` | vector.hpp:370-376 | exactly `count` copies of the value; grows only when `count` exceeds the capacity |
| `Vectors.Vector.AssignRange` | vector.hpp:378-393 | exactly a copy of the range; grows only when it is longer than the capacity |
| `Vectors.Vector.Swap` | vector.hpp:497-503 | the two vectors exchange their blocks and their sizes |
| `Vectors.Vector.CopyAssign` | vector.hpp:287-300 | the elements become those of the other vector, and the other vector is untouched; self-assignment changes nothing; the two blocks stay distinct |
| `Vectors.Vector.MoveAssign` | vector.hpp:302-308 | takes over the other vector's block and elements and leaves it in the null state; self-move changes nothing |
| `Vectors.ShiftAndStore` | vector.hpp:431-433 | the right shift by one, then the store at `i`, give `InsertAt(s, i, [v])` in the block |
| `Vectors.ShiftAndFill` | vector.hpp:443-445 | the right shift by `n`, then the fill, give `InsertAt(s, i, n copies)` |
| `Vectors.ShiftAndCopy` | vector.hpp:474-476 | the right shift by the range length, then the copy, give `InsertAt(s, i, range)` |
| `Algorithms.Copy` | vector.hpp:484 | `std::copy` to the left inside one block: the destination holds the source elements and nothing else changes |
| `Algorithms.CopyBackward` | vector.hpp:432 | `std::copy_backward` to the right inside one block: the destination holds the source elements and nothing else changes |
| `Algorithms.Fill` | vector.hpp:445 | `std::fill`: the range holds the value and nothing else changes |
| `Iterators.Iterator.Minus` | vector.hpp:41 | `a - b` is the signed distance: zero exactly when the positions coincide, and `b` advanced by it reaches `a` |
| `Iterators.Iterator.Inc` | vector.hpp:35 | `++it` is one position further (`(++it) - it == 1`) |
| `Iterators.Iterator.Dec` | vector.hpp:36 | `--it` is one position back |
| `Iterators.Iterator.Add` | vector.hpp:39 | `(it + n) - it == n` (likewise `+=`, line 28) |
| `Iterators.Iterator.Sub` | vector.hpp:40 | `it - (it - n) == n` (likewise `-=`, line 29) |
| `Iterators.Iterator.Eq` | vector.hpp:43 | equal exactly when the distance is 0 |
| `Iterators.Iterator.Ne` | vector.hpp:44 | the negation of `==` |
| `Iterators.Iterator.Lt` | vector.hpp:46 | `a < b` exactly when `b - a > 0` |
| `Iterators.Iterator.Gt` | vector.hpp:45 | `a > b` exactly when `b < a` |
| `Iterators.Iterator.Le` | vector.hpp:48 | `a <= b` exactly when `a < b` or `a == b` |
| `Iterators.Iterator.Ge` | vector.hpp:47 | `a >= b` exactly when `b <= a` |
| `Iterators.AddSubRoundTrip` | vector.hpp:35-41 | adding and then subtracting `n` returns to the same position; offsets add up; `++` and `--` undo each other |
| `Iterators.Trichotomy` | vector.hpp:43-48 | exactly one of `<`, `==`, `>` holds between two positions |
| `Sequences.Repeat` | vector.hpp:374 | `count` elements, all equal to the value |
| `Sequences.InsertAt` | vector.hpp:414-479 | the prefix before `i`, then the inserted elements, then the rest, each in order |
| `Sequences.RemoveRange` | vector.hpp:489-495 | the intended erase of `[first, last)`: the prefix is kept and the tail moves down by `last - first` |
| `Sequences.RemoveAt` | vector.hpp:481-487 | the prefix before `i` is kept and the tail moves down by one |
| `Sequences.ErasedAsWritten` | vector.hpp:490-494 | the size drops by `last - first`; the prefix up to `first` is kept, and when `last < size` so is the element at `first` |
| `Sequences.Resized` | vector.hpp:516-531 | length `count`; the first `min(|s|, count)` elements are kept; slots from `|s|` on hold the fill value |
| `Sequences.RemoveInsertRoundTrip` | vector.hpp:467-495 | inserting a range and erasing the same positions restores the original |
| `Sequences.RemoveAtInsertRoundTrip` | vector.hpp:426-487 | inserting one value and erasing it restores the original |
| `Sequences.ErasedAsWrittenIff` | vector.hpp:489-495 | the written erase removes `[first, last)` if and only if `last == size` or `s[first] == s[last]` |
| `Sequences.ErasedAsWrittenCounterexample` | vector.hpp:492 | erasing `[0, 1)` from [1, 2, 3] leaves [1, 3], where [2, 3] was meant |
| `Sequences.ResizedPrefix` | vector.hpp:516-523 | shrinking keeps a prefix; resizing to the current size changes nothing; growing keeps all old elements |
| `Relational.EqualFrom` | vector.hpp:622-631 | the scan is true exactly when every pair from `i` on is equal |
| `Relational.Equal` | vector.hpp:615-632 | true if and only if the sizes match and every pair is equal, that is, if and only if the sequences are equal |
| `Relational.NotEqual` | vector.hpp:647-651 | true exactly when the sequences differ |
| `Relational.LessFrom` | vector.hpp:639-644 | true exactly when some pair from `i` on has `lhs[j] < rhs[j]`, or `lhs` is shorter |
| `Relational.Less` | vector.hpp:634-645 | as written: true if and only if some common index has `lhs[i] < rhs[i]`, or `lhs` is shorter |
| `Relational.LessEqFrom` | vector.hpp:671-676 | true exactly when some pair from `i` on has `lhs[j] < rhs[j]`, or the sizes are equal |
| `Relational.LessEq` | vector.hpp:666-677 | as written: true if and only if some common index has `lhs[i] < rhs[i]`, or the sizes are equal |
| `Relational.Greater` | vector.hpp:653-657 | `lhs > rhs` if and only if some common index has `rhs[i] < lhs[i]`, or `rhs` is shorter |
| `Relational.GreaterEq` | vector.hpp:659-664 | `lhs >= rhs` if and only if some common index has `rhs[i] < lhs[i]`, or the sizes are equal |
| `Relational.LexImpliesLess` | vector.hpp:634-645 | whatever is lexicographically smaller is also smaller under the written `operator<` |
| `Relational.LexAsymmetric` | vector.hpp:634-645 | the lexicographic order is asymmetric whenever the element order is |
| `Relational.LexTrichotomy` | vector.hpp:634-645 | for a strict total element order, exactly one of lexicographic `<`, `==`, `>` holds |
| `Relational.LexPrefixLessEq` | vector.hpp:666-677 | under the lexicographic `<=`, a prefix is at most the whole sequence |
| `Relational.LessNotAsymmetric` | vector.hpp:639-644 | the written `<` holds both for [2, 1] < [1, 2] and for [1, 2] < [2, 1] |
| `Relational.LessEqPrefixCounterexample` | vector.hpp:669-676 | the written `<=` is false on [1] <= [1, 2], which holds lexicographically |
| `Scenarios.InsertExamples` | catch_tests.cpp:226-246 | the expected results of the insert and emplace test cases, computed by `InsertAt` |
| `Scenarios.EraseExamples` | catch_tests.cpp:248-260 | the expected results of the erase test cases, computed by `RemoveAt` and `ErasedAsWritten` |
| `Scenarios.ResizeExamples` | catch_tests.cpp:148-167 | the expected results of the resize test cases, computed by `Resized` |
| `Scenarios.Construction` | catch_tests.cpp:8-33 | the default vector has capacity 0; a sized vector of 7 has 7 elements and capacity at least 7; a fill of 7 holds seven copies of 125 |
| `Scenarios.Access` | catch_tests.cpp:79-94 | on [1, 2, 3, 4], `at(3)` is 4 and `at(4)` is out of range; `front` is 1 and `back` is 4 |
| `Scenarios.PushBackFive` | catch_tests.cpp:202-215 | pushing 9, 6, 44, 52, 1 gives [9, 6, 44, 52, 1] |
| `Scenarios.PopThree` | catch_tests.cpp:217-224 | three pops from [1, 2, 3, 4] leave [1] |
| `Scenarios.InsertOneAndRange` | catch_tests.cpp:226-239 | inserting 2 at index 1 of [1, 3, 4] gives [1, 2, 3, 4] and returns index 1; inserting [2, 3, 4] into [1] gives the same |
| `Scenarios.EmplaceScenarios` | catch_tests.cpp:317-339 | emplacing 9 first gives [9, 1, 2, 3]; emplacing 4 at index 3 gives [1 .. 6]; `emplace_back(2)` on [4] gives [4, 2] |
| `Scenarios.EraseOne` | catch_tests.cpp:248-253 | erasing index 2 of [1, 2, 3, 3, 4] gives [1, 2, 3, 4] and returns index 2 |
| `Scenarios.EraseThree` | catch_tests.cpp:255-260 | erasing `[2, 5)` of [1, 2, 3, 3, 3, 3, 4] gives [1, 2, 3, 4] |
| `Scenarios.ResizeScenarios` | catch_tests.cpp:148-167 | `resize(3)` of [1, 2, 3, 4] gives [1, 2, 3]; `resize(6, 3)` gives [1, 2, 3, 4, 3, 3] |
| `Scenarios.ReserveTwenty` | catch_tests.cpp:169-181 | `reserve(20)` keeps [1, 2, 3, 4] and yields capacity 40 |
| `Scenarios.AssignScenarios` | catch_tests.cpp:185-200 | `assign(5, 1)` gives five ones; assigning a range copies it |
| `Scenarios.ClearAndShrink` | catch_tests.cpp:262-273 | after `clear` the capacity is 0 and the vector is empty; `shrink_to_fit` on six elements gives capacity 6, and a second call gives 12 |
| `Scenarios.Assignments` | catch_tests.cpp:122-144 | copy and move assignment carry [1, 2, 3, 4] over; the moved-from vector is empty; self copy and self move change nothing |
| `Scenarios.IteratorCompare` | catch_tests.cpp:284-296 | `begin()` and `end()` of five elements compare as the test expects, and lie 5 apart |
| `Scenarios.CompareShorter` | catch_tests.cpp:50-60 | [1, 2, 3] < [1, 2, 3, 4] |

## Findings

| source | as written | input that shows it | evidently intended | confidence | as-written member | corrected member |
|---|---|---|---|---|---|---|
| vector.hpp:492 | `erase(first, last)` copies `[last + 1, end())` to `first + 1`, so the element at `last` is lost and the one at `first` survives | [1, 2, 3], erase `[0, 1)`: leaves [1, 3] | copy `[last, end())` to `first`, leaving [2, 3]; inserting and then erasing a range restores the original | high (not executed) | `Sequences.ErasedAsWrittenCounterexample` | `Sequences.RemoveInsertRoundTrip` |
| vector.hpp:639-644 | `operator<` returns true on any common index with `lhs[i] < rhs[i]`, even after an earlier index with `rhs[i] < lhs[i]` | [2, 1] < [1, 2] and [1, 2] < [2, 1] are both true | lexicographic order: the first differing pair decides, which is asymmetric and trichotomous | high (not executed) | `Relational.LessNotAsymmetric` | `Relational.LexTrichotomy` |
| vector.hpp:676 | `operator<=` ends with `lhs.size() == rhs.size()`, so a proper prefix is not `<=` | [1] <= [1, 2] is false | `!(rhs < lhs)` lexicographically, under which every prefix is `<=` the whole | high (not executed) | `Relational.LessEqPrefixCounterexample` | `Relational.LexPrefixLessEq` |

## Left out

- The allocator (`allocate`, `deallocate`, `construct`, `destroy`) is not
  modelled. It is a foreign library. Allocation is a fresh array, so the
  early return when the new block equals the old one (vector.hpp:199-200)
  cannot occur.
- Exceptions from element copies are not modelled, and neither is the
  catch-and-rethrow around the relocation (vector.hpp:202-208). Copying an
  element is total here. The only error modelled is `at`'s `out_of_range`,
  as a `Result`.
- `_m_destroy` and the destructor (vector.hpp:224-229, 281-285) are not
  modelled. Destroying an element only ends its lifetime, and the block is
  reclaimed by the runtime. The destroy calls inside `pop_back` and `erase`
  are not modelled either, including `pop_back` destroying the slot one past
  the end. `_m_initialize` is the fill with `Type()` in `Sized` and `Resize`.
- The reverse iterators `rbegin`/`rend`/`crbegin`/`crend` (vector.hpp:340-368)
  are not modelled. Their bases are off by one:
  - The non-const `rbegin` (342) has base `_m_first + size()`, which is
    `end()` and is correct.
  - The const `rbegin` and `crbegin` (347, 352) have base `_m_last - 1`. A
    reverse iterator dereferences the slot before its base, so they start
    at `_m_last - 2` and skip the last element.
  - `rend` and `crend` (357-367) have base `_m_first - 1`, which lies before
    the block. A reverse traversal then goes on to read the slot before
    `_m_first`.
- Post-increment and post-decrement of an iterator (vector.hpp:37-38) are not
  separate members. They advance like `Inc` and `Dec` and return the
  unchanged position. Iterator `operator[]` and `operator->`
  (vector.hpp:32-33) are left out: they are `Deref` at an offset, and a raw
  pointer.
- The comparison of an `art::vector` with a `std::vector` (vector.hpp:679-697)
  is not modelled. It compares against the standard library type and reads
  the first four elements unconditionally.
- The move-with-allocator constructor (vector.hpp:264-271) is not modelled.
  It shares the other vector's block and then assigns that block to itself.
  That is shared ownership, not a state transition.
- `max_size`, `data` and `get_allocator` (vector.hpp:511-514, 553-556,
  595-603) are not modelled. They are `sizeof` arithmetic, a raw pointer and
  a copy of the allocator.
- `size_type` is modelled as an unbounded `nat`. Overflow of `2 * need` and
  of `max_size` is outside the model.
- Aliasing between a vector and the range inserted into it or assigned to it
  is not modelled. The range is passed as a value (`seq`), and so is an
  `initializer_list`.
- `Vectors.Vector.InsertCopies`, `Vectors.Vector.Insert`,
  `Vectors.Vector.Assign`, `Vectors.Vector.ResizeFill` and
  `Vectors.Vector.PushBack` take their single value by value. The source
  takes it by reference: `const Type&` at vector.hpp:439, 371 and 526, and
  `Type&&` at 427 and 396. Such a reference may point at an element of the
  same vector, and the model does not capture that aliasing.
  - In the source, the reference is read after the shift or the
    reallocation (373, 430, 442, 519). By then its slot may hold a shifted
    element, or it may lie in the freed old block, which is undefined
    behaviour.
  - Example: take [1, 2, 3] in a block of 6 and run
    `insert(begin(), 1, v[1])`. `copy_backward` (444) first writes 1 into
    slot 1, so `fill` (445) writes 1. The source yields [1, 1, 2, 3], while
    the model's contract gives [2, 1, 2, 3].
- `Vectors.Vector.Emplace`: the arguments `end()` and `++_m_last` of
  `copy_backward` (vector.hpp:462) are indeterminately sequenced, so their
  order is unspecified. The model reads `end()` before the increment. That
  gives the same shift as `insert(pos, Type&&)`. If the increment comes
  first, `copy_backward` copies the range onto itself, and `construct` then
  overwrites the element at `pos` with no shift. The emplace tests
  (catch_tests.cpp:318-332) look only at indices 0 and 3, which do not tell
  the two orders apart. Arguments are forwarded as one already-constructed
  value.
- `insert(const_iterator, const Type&)` (vector.hpp:414-424) is not modelled.
  Its parameter `pos` is a `const vector_iterator` (vector.hpp:54), and line
  419 assigns to it. So the overload does not compile once it is
  instantiated. Its intended effect is that of `Vectors.Vector.Insert`.
- `Vectors.Vector.AssignRange` and `Vectors.Vector.FromRange`: the cast
  `(unsigned int) count` at vector.hpp:385 is not modelled. For a range of
  `2^32` elements or more, the source allocates
  `Grown(count mod 2^32, capacity())` slots, and the loop at 388-390 writes
  past them. That is `2 * (count mod 2^32)` for the constructors, which start
  at capacity 0. The model allocates `Grown(count, capacity)` for every
  length.
- `Relational.Equal`, `Relational.EqualFrom` and `Relational.NotEqual`: the
  element type's `operator!=` (vector.hpp:626) is taken to be the negation of
  equality on values. `Equal`'s `r <==> lhs == rhs` relies on that choice. An
  element `operator!=` with other behaviour is not modelled.
- `Vectors.Vector.PushBack`: the swap with the argument (vector.hpp:399) is
  modelled as a store. The moved-from argument, which gets the old slot
  contents, is not tracked.
- The copy, move and swap of the allocator object (vector.hpp:233, 502) are
  not modelled.
- Sorting through the iterators (catch_tests.cpp:62-67) is not modelled.
  `std::sort` is library code.
