/**
 * `art::vector<Type, Allocator>`: a growable contiguous sequence that owns one
 * block of slots. The block is `buf` (its length is the capacity, the span
 * `_m_first .. _m_end_of_capacity`) and `size` is `_m_last - _m_first`; the
 * live elements are `buf[..size]`. The null state (no block yet, or after
 * `clear`) is a block of length zero. Allocation is the creation of a fresh
 * array; constructing an element is writing its slot, destroying it is
 * forgetting the slot.
 */
module Vectors {
  import opened Iterators
  import opened Sequences
  import opened Algorithms

  /** `_m_SIZE_INCREASE_FACTOR`. */
  const GrowthFactor: nat := 2

  /** The capacity `_m_allocate_and_copy(need)` allocates when the current
      capacity is `capacity`: twice the need when the need reaches the
      capacity, and exactly the need otherwise. */
  function Grown(need: nat, capacity: nat): (r: nat)
    ensures r >= need
    ensures need >= capacity && need > 0 ==> r > capacity
    ensures need < capacity ==> r < capacity
  {
    if need >= capacity then need * GrowthFactor else need
  }

  /** The outcome of the checked access `at`: the element or `out_of_range`. */
  datatype Result<T> = Ok(value: T) | OutOfRange

  class Vector<T(0)> {
    var buf: array<T>
    var size: nat

    /** `_m_first <= _m_last <= _m_end_of_capacity`. */
    ghost predicate Valid()
      reads this
    {
      size <= buf.Length
    }

    /** The live elements, in order. */
    function Elements(): seq<T>
      reads this, buf
      requires Valid()
    {
      buf[..size]
    }

    // ---------------------------------------------------------------------
    // construction

    /** `vector(const Allocator&)`: the null state. */
    constructor ()
      ensures Valid() && fresh(buf)
      ensures Elements() == [] && buf.Length == 0
    {
      buf := new T[0];
      size := 0;
    }

    /** `vector(size_type n)`: n elements made by `Type()`, here `blank`. */
    constructor Sized(n: nat, blank: T)
      ensures Valid() && fresh(buf)
      ensures Elements() == Repeat(blank, n)
      ensures buf.Length == Grown(n, 0)
    {
      buf := new T[0];
      size := 0;
      new;
      AllocateAndCopy(n);
      size := n;
      Fill(buf, 0, n, blank);
    }

    /** `vector(size_type n, const Type& value)`: forwards to `assign`. */
    constructor Filled(n: nat, value: T)
      ensures Valid() && fresh(buf)
      ensures Elements() == Repeat(value, n)
      ensures buf.Length == if n > 0 then Grown(n, 0) else 0
    {
      buf := new T[0];
      size := 0;
      new;
      Assign(n, value);
    }

    /** `vector(InputIt first, InputIt last)` and the initializer-list
        constructor: a copy of the source range, through `assign`. */
    constructor FromRange(src: seq<T>)
      ensures Valid() && fresh(buf)
      ensures Elements() == src
      ensures buf.Length == if |src| > 0 then Grown(|src|, 0) else 0
    {
      buf := new T[0];
      size := 0;
      new;
      AssignRange(src);
    }

    /** `vector(const vector& other, const Allocator&)` as written: it
        allocates and constructs copies of `other`'s elements but never
        advances `_m_last`, so the new vector is empty. */
    constructor CopyWithAllocator(other: Vector<T>)
      requires other.Valid()
      ensures Valid() && fresh(buf)
      ensures size == 0 && buf.Length == Grown(other.size, 0)
      ensures buf[..other.size] == other.Elements()
    {
      buf := new T[0];
      size := 0;
      new;
      AllocateAndCopy(other.size);
      var i := 0;
      while i < other.size
        invariant 0 <= i <= other.size <= buf.Length
        modifies buf
        invariant forall k :: 0 <= k < i ==> buf[k] == other.buf[k]
      {
        buf[i] := other.buf[i];
        i := i + 1;
      }
    }

    // ---------------------------------------------------------------------
    // storage manager

    /** `_m_allocate_and_copy(need)`: a fresh block of `Grown(need, capacity)`
        slots holding copies of the live elements; the size is kept. Every
        caller passes a need of at least the size. */
    method AllocateAndCopy(need: nat)
      requires Valid() && size <= need
      modifies this
      ensures Valid() && fresh(buf)
      ensures buf.Length == Grown(need, old(buf.Length))
      ensures size == old(size) && Elements() == old(Elements())
    {
      var newFirst := new T[Grown(need, buf.Length)];
      var i := 0;
      while i < size
        invariant 0 <= i <= size
        invariant forall k :: 0 <= k < i ==> newFirst[k] == buf[k]
        modifies newFirst
      {
        newFirst[i] := buf[i];
        i := i + 1;
      }
      buf := newFirst;
    }

    /** `reserve(n)`: reallocates only when `n` exceeds the capacity, so the
        capacity never shrinks and the elements never change. */
    method Reserve(n: nat)
      requires Valid()
      modifies this
      ensures Valid() && Elements() == old(Elements())
      ensures buf.Length == if n > old(buf.Length) then Grown(n, old(buf.Length)) else old(buf.Length)
      ensures buf.Length >= n && buf.Length >= old(buf.Length)
      ensures buf == old(buf) || fresh(buf)
      ensures n <= old(buf.Length) ==> buf == old(buf)
    {
      if n > buf.Length {
        AllocateAndCopy(n);
      }
    }

    /** `shrink_to_fit()`: `_m_allocate_and_copy(size())`. The capacity
        becomes the size when there was room to spare; a full vector has its
        capacity doubled instead. */
    method ShrinkToFit()
      requires Valid()
      modifies this
      ensures Valid() && fresh(buf) && Elements() == old(Elements())
      ensures old(size) < old(buf.Length) ==> buf.Length == size
      ensures old(size) == old(buf.Length) ==> buf.Length == 2 * size
    {
      AllocateAndCopy(size);
    }

    /** `clear()`: releases the block and returns to the null state. */
    method Clear()
      requires Valid()
      modifies this
      ensures Valid() && fresh(buf)
      ensures Elements() == [] && buf.Length == 0
    {
      buf := new T[0];
      size := 0;
    }

    // ---------------------------------------------------------------------
    // queries

    function Size(): (n: nat)
      reads this, buf
      requires Valid()
      ensures n == |Elements()| && n <= Capacity()
    {
      size
    }

    function Capacity(): (n: nat)
      reads this
      requires Valid()
      ensures n >= size
    {
      buf.Length
    }

    predicate Empty()
      reads this, buf
      requires Valid()
      ensures Empty() <==> Elements() == []
    {
      size == 0
    }

    /** `at(pos)`: the element, or `out_of_range` exactly when `pos >= size()`. */
    function At(pos: nat): (r: Result<T>)
      reads this, buf
      requires Valid()
      ensures r.OutOfRange? <==> pos >= |Elements()|
      ensures r.Ok? ==> r.value == Elements()[pos]
    {
      if pos >= size then OutOfRange else Ok(buf[pos])
    }

    /** `operator[](pos)`: unchecked; the caller keeps `pos` below the size. */
    function Get(pos: nat): (r: T)
      reads this, buf
      requires Valid() && pos < size
      ensures r == Elements()[pos]
    {
      buf[pos]
    }

    /** `front()`: `*begin()`. */
    function Front(): (r: T)
      reads this, buf
      requires Valid() && size > 0
      ensures r == Elements()[0]
    {
      Deref(Begin())
    }

    /** `back()`: `*(end() - 1)`. */
    function Back(): (r: T)
      reads this, buf
      requires Valid() && size > 0
      ensures r == Elements()[|Elements()| - 1]
    {
      Deref(End().Sub(1))
    }

    function Begin(): (it: Iterator)
      reads this
      ensures it.index == 0
    {
      Iterator(0)
    }

    /** `end()`: one past the last live element, so `end() - begin() == size()`. */
    function End(): (it: Iterator)
      reads this
      ensures it.Minus(Begin()) == size
    {
      Iterator(size)
    }

    /** `*it` for an iterator into the live elements. */
    function Deref(it: Iterator): (r: T)
      reads this, buf
      requires Valid() && 0 <= it.index < size
      ensures r == Elements()[it.Minus(Begin())]
    {
      buf[it.index]
    }

    /** The checked and the unchecked access agree inside the bounds, and
        `at` fails past them. */
    lemma AtAgreesWithGet(pos: nat)
      requires Valid()
      ensures pos < size ==> At(pos) == Ok(Get(pos))
      ensures pos >= size ==> At(pos) == OutOfRange
    {
    }

    // ---------------------------------------------------------------------
    // modifiers

    /** `push_back(value)`: grows when `size() + 1 >= capacity()`, i.e. also
        when one free slot is left, then writes the value after the last
        element. */
    method PushBack(value: T)
      requires Valid()
      modifies this, buf
      ensures Valid() && Elements() == old(Elements()) + [value]
      ensures buf.Length == if old(size) + 1 >= old(buf.Length) then Grown(old(size) + 1, old(buf.Length)) else old(buf.Length)
      ensures size < buf.Length
      ensures buf == old(buf) || fresh(buf)
      ensures old(size) + 1 < old(buf.Length) ==> buf == old(buf)
    {
      var newSize := size + 1;
      if newSize >= buf.Length {
        AllocateAndCopy(newSize);
      }
      buf[size] := value;
      size := size + 1;
    }

    /** `emplace_back(args...)`: `emplace(end(), args...)`. */
    method EmplaceBack(value: T)
      requires Valid()
      modifies this, buf
      ensures Valid() && Elements() == old(Elements()) + [value]
      ensures buf.Length == if old(size) + 1 > old(buf.Length) then Grown(old(size) + 1, old(buf.Length)) else old(buf.Length)
      ensures buf == old(buf) || fresh(buf)
      ensures old(size) + 1 <= old(buf.Length) ==> buf == old(buf)
    {
      ghost var s := Elements();
      var _ := Emplace(End(), value);
      assert InsertAt(s, |s|, [value]) == s + [value];
    }

    /** `pop_back()`: on a non-empty vector, drops the last element. */
    method PopBack()
      requires Valid() && size > 0
      modifies this
      ensures Valid() && buf == old(buf)
      ensures Elements() == old(Elements())[..old(size) - 1]
    {
      size := size - 1;
    }

    /** `insert(pos, Type&&)`: grows when the new size exceeds the capacity,
        shifts `[pos, end())` one slot right and writes the value at `pos`. */
    method Insert(pos: Iterator, value: T) returns (it: Iterator)
      requires Valid() && 0 <= pos.index <= size
      modifies this, buf
      ensures Valid() && Elements() == InsertAt(old(Elements()), pos.index, [value])
      ensures it == pos
      ensures buf.Length == if old(size) + 1 > old(buf.Length) then Grown(old(size) + 1, old(buf.Length)) else old(buf.Length)
      ensures buf == old(buf) || fresh(buf)
      ensures old(size) + 1 <= old(buf.Length) ==> buf == old(buf)
    {
      var index := pos.Minus(Begin());
      var newSize := size + 1;
      if newSize > buf.Length {
        AllocateAndCopy(newSize);
      }
      it := Begin().Add(index);
      ShiftAndStore(buf, size, index, value);
      size := size + 1;
    }

    /** `insert(pos, n, value)`: shifts `[pos, end())` n slots right and fills
        the gap with the value. */
    method InsertCopies(pos: Iterator, n: nat, value: T) returns (it: Iterator)
      requires Valid() && 0 <= pos.index <= size
      modifies this, buf
      ensures Valid() && Elements() == InsertAt(old(Elements()), pos.index, Repeat(value, n))
      ensures it == pos
      ensures buf.Length == if old(size) + n > old(buf.Length) then Grown(old(size) + n, old(buf.Length)) else old(buf.Length)
      ensures buf == old(buf) || fresh(buf)
      ensures old(size) + n <= old(buf.Length) ==> buf == old(buf)
    {
      var newSize := size + n;
      var index := pos.Minus(Begin());
      if newSize > buf.Length {
        AllocateAndCopy(newSize);
      }
      it := Begin().Add(index);
      ShiftAndFill(buf, size, index, n, value);
      size := newSize;
    }

    /** `insert(pos, first, last)` and `insert(pos, initializer_list)`: shifts
        `[pos, end())` right by the length of the source and copies the source
        into the gap. */
    method InsertRange(pos: Iterator, src: seq<T>) returns (it: Iterator)
      requires Valid() && 0 <= pos.index <= size
      modifies this, buf
      ensures Valid() && Elements() == InsertAt(old(Elements()), pos.index, src)
      ensures it == pos
      ensures buf.Length == if old(size) + |src| > old(buf.Length) then Grown(old(size) + |src|, old(buf.Length)) else old(buf.Length)
      ensures buf == old(buf) || fresh(buf)
      ensures old(size) + |src| <= old(buf.Length) ==> buf == old(buf)
    {
      var distance := |src|;
      var newSize := size + distance;
      var index := pos.Minus(Begin());
      if newSize > buf.Length {
        AllocateAndCopy(newSize);
      }
      it := Begin().Add(index);
      ShiftAndCopy(buf, size, index, src);
      size := newSize;
    }

    /** `emplace(pos, args...)`: the same shift as `insert(pos, Type&&)`, with
        the element constructed in place at `pos`. */
    method Emplace(pos: Iterator, value: T) returns (it: Iterator)
      requires Valid() && 0 <= pos.index <= size
      modifies this, buf
      ensures Valid() && Elements() == InsertAt(old(Elements()), pos.index, [value])
      ensures it == pos
      ensures buf.Length == if old(size) + 1 > old(buf.Length) then Grown(old(size) + 1, old(buf.Length)) else old(buf.Length)
      ensures buf == old(buf) || fresh(buf)
      ensures old(size) + 1 <= old(buf.Length) ==> buf == old(buf)
    {
      var index := pos.Minus(Begin());
      var newSize := size + 1;
      if newSize > buf.Length {
        AllocateAndCopy(newSize);
      }
      it := Begin().Add(index);
      // `copy_backward(new_iter, end(), ++_m_last)` reads `end()` before the
      // increment here, as in `insert(pos, Type&&)`.
      ShiftAndStore(buf, size, index, value);
      size := size + 1;
    }

    /** `erase(pos)`: shifts `(pos, end())` one slot left over `pos`. */
    method Erase(pos: Iterator) returns (it: Iterator)
      requires Valid() && 0 <= pos.index < size
      modifies this, buf
      ensures Valid() && buf == old(buf)
      ensures Elements() == RemoveAt(old(Elements()), pos.index)
      ensures it == pos
    {
      ghost var s := Elements();
      Copy(buf, pos.index + 1, size, pos.index);
      size := size - 1;
      it := pos;
      assert Elements() == RemoveAt(s, pos.index);
    }

    /** `erase(first, last)` as written: the elements after `last` are copied
        to `first + 1`, and only when `end() > last + 1`; then the size drops
        by `last - first`. */
    method EraseRange(first: Iterator, last: Iterator) returns (it: Iterator)
      requires Valid() && 0 <= first.index <= last.index <= size
      modifies this, buf
      ensures Valid() && buf == old(buf)
      ensures Elements() == ErasedAsWritten(old(Elements()), first.index, last.index)
      ensures it == first
    {
      ghost var s := Elements();
      if End().Gt(last.Add(1)) {
        Copy(buf, last.index + 1, size, first.index + 1);
      }
      size := size - last.Minus(first);
      it := first;
      assert Elements() == ErasedAsWritten(s, first.index, last.index);
    }

    /** `resize(count)`, with `blank` standing for `Type()`: grows the block
        when `count` exceeds the capacity, moves the end to `count` and
        constructs the new slots `[size, count)`. */
    method Resize(count: nat, blank: T)
      requires Valid()
      modifies this, buf
      ensures Valid() && Elements() == Resized(old(Elements()), count, blank)
      ensures buf.Length == if count > old(buf.Length) then Grown(count, old(buf.Length)) else old(buf.Length)
      ensures buf == old(buf) || fresh(buf)
      ensures count <= old(buf.Length) ==> buf == old(buf)
    {
      ghost var s := Elements();
      var current := size;
      if count > buf.Length {
        AllocateAndCopy(count);
      }
      size := count;
      if current < count {
        Fill(buf, current, count, blank);
      }
      assert Elements() == Resized(s, count, blank);
    }

    /** `resize(count, value)`: `resize(count)`, then the new slots
        `[old size, count)` get the value. The `Type()` values the inner call
        constructs are overwritten at once, so the value stands in for them. */
    method ResizeFill(count: nat, value: T)
      requires Valid()
      modifies this, buf
      ensures Valid() && Elements() == Resized(old(Elements()), count, value)
      ensures buf.Length == if count > old(buf.Length) then Grown(count, old(buf.Length)) else old(buf.Length)
      ensures buf == old(buf) || fresh(buf)
      ensures count <= old(buf.Length) ==> buf == old(buf)
    {
      ghost var s := Elements();
      var prevSize := size;
      Resize(count, value);
      if count <= prevSize {
        return;
      }
      Fill(buf, prevSize, count, value);
      assert Elements() == Resized(s, count, value);
    }

    /** `assign(count, value)`: erases everything, grows when `count` exceeds
        the capacity, and constructs `count` copies of the value. */
    method Assign(count: nat, value: T)
      requires Valid()
      modifies this, buf
      ensures Valid() && Elements() == Repeat(value, count)
      ensures buf.Length == if count > old(buf.Length) then Grown(count, old(buf.Length)) else old(buf.Length)
      ensures buf == old(buf) || fresh(buf)
      ensures count <= old(buf.Length) ==> buf == old(buf)
    {
      var _ := EraseRange(Begin(), End());
      if count > buf.Length {
        AllocateAndCopy(count);
      }
      Fill(buf, 0, count, value);
      size := count;
    }

    /** `assign(first, last)`: erases everything, grows when the range is
        longer than the capacity, and constructs a copy of the range. */
    method AssignRange(src: seq<T>)
      requires Valid()
      modifies this, buf
      ensures Valid() && Elements() == src
      ensures buf.Length == if |src| > old(buf.Length) then Grown(|src|, old(buf.Length)) else old(buf.Length)
      ensures buf == old(buf) || fresh(buf)
      ensures |src| <= old(buf.Length) ==> buf == old(buf)
    {
      var _ := EraseRange(Begin(), End());
      var count := |src|;
      if buf.Length < count {
        AllocateAndCopy(count);
      }
      var i := 0;
      while i < count
        invariant 0 <= i <= count <= buf.Length
        invariant forall k :: 0 <= k < i ==> buf[k] == src[k]
        modifies buf
      {
        buf[i] := src[i];
        i := i + 1;
      }
      size := count;
    }

    /** `swap(other)`: exchanges the blocks and the ends; no element moves. */
    method Swap(other: Vector<T>)
      requires Valid() && other.Valid()
      modifies this, other
      ensures Valid() && other.Valid()
      ensures buf == old(other.buf) && size == old(other.size)
      ensures other.buf == old(buf) && other.size == old(size)
    {
      var tmpBuf := buf;
      buf := other.buf;
      other.buf := tmpBuf;
      var tmpSize := size;
      size := other.size;
      other.size := tmpSize;
    }

    /** Copy assignment: unless it is a self-assignment, erases everything,
        grows when the other vector is longer than the capacity, and copies
        the other vector's elements; the other vector is untouched. */
    method CopyAssign(other: Vector<T>)
      requires Valid() && other.Valid()
      requires other != this ==> other.buf != buf
      modifies this, buf
      ensures Valid() && Elements() == old(other.Elements())
      ensures other.buf == old(other.buf) && other.Elements() == old(other.Elements())
      ensures other != this ==> other.buf != buf
      ensures other == this ==> buf == old(buf) && size == old(size)
      ensures other != this ==> buf.Length == if other.size > old(buf.Length) then Grown(other.size, old(buf.Length)) else old(buf.Length)
      ensures other != this && other.size <= old(buf.Length) ==> buf == old(buf)
    {
      if other != this {
        var _ := EraseRange(Begin(), End());
        if other.size > buf.Length {
          AllocateAndCopy(other.size);
        }
        var i := 0;
        while i < other.size
          invariant 0 <= i <= other.size <= buf.Length
          invariant other.buf != buf
          invariant other.Elements() == old(other.Elements())
          invariant forall k :: 0 <= k < i ==> buf[k] == other.buf[k]
          modifies buf
        {
          buf[i] := other.Get(i);
          i := i + 1;
        }
        size := other.size;
      }
    }

    /** Move assignment: unless it is a self-move, releases this block and
        swaps with the other vector, which is left in the null state. */
    method MoveAssign(other: Vector<T>)
      requires Valid() && other.Valid()
      modifies this, other
      ensures Valid() && other.Valid()
      ensures other == this ==> buf == old(buf) && size == old(size)
      ensures other != this ==> buf == old(other.buf) && Elements() == old(other.Elements())
      ensures other != this ==> other.Elements() == [] && other.buf.Length == 0 && fresh(other.buf)
    {
      if other == this {
        return;
      }
      Clear();
      Swap(other);
    }
  }

  // -----------------------------------------------------------------------
  // The in-place steps of the insertions, on a block whose first `size`
  // slots are live and which has room for the inserted elements.

  /** `copy_backward(pos, end(), end() + 1)` and then `*pos = value`. */
  method ShiftAndStore<T>(a: array<T>, size: nat, index: nat, value: T)
    requires index <= size < a.Length
    modifies a
    ensures a[..size + 1] == InsertAt(old(a[..size]), index, [value])
  {
    ghost var s := a[..size];
    CopyBackward(a, index, size, size + 1);
    ghost var gap := a[..];
    a[index] := value;
    ghost var r, ins := a[..size + 1], [value];
    forall k | index <= k < |s| ensures r[k + |ins|] == s[k] {
      assert r[k + 1] == gap[k + 1];
    }
    InsertAtPointwise(r, s, index, ins);
  }

  /** `copy_backward(it, end(), end() + n)` and then `fill(it, it + n, value)`. */
  method ShiftAndFill<T>(a: array<T>, size: nat, index: nat, n: nat, value: T)
    requires index <= size && size + n <= a.Length
    modifies a
    ensures a[..size + n] == InsertAt(old(a[..size]), index, Repeat(value, n))
  {
    ghost var s := a[..size];
    CopyBackward(a, index, size, size + n);
    ghost var gap := a[..];
    Fill(a, index, index + n, value);
    ghost var r, ins := a[..size + n], Repeat(value, n);
    forall k | 0 <= k < index ensures r[k] == s[k] {
      assert r[k] == gap[k];
    }
    forall k | 0 <= k < |ins| ensures r[index + k] == ins[k] {
      assert r[index + k] == a[index + k] == value;
    }
    forall k | index <= k < |s| ensures r[k + |ins|] == s[k] {
      assert r[k + n] == gap[k + n];
    }
    InsertAtPointwise(r, s, index, ins);
  }

  /** `copy_backward(iter, end(), end() + |src|)` and then
      `copy(first, last, iter)`. */
  method ShiftAndCopy<T>(a: array<T>, size: nat, index: nat, src: seq<T>)
    requires index <= size && size + |src| <= a.Length
    modifies a
    ensures a[..size + |src|] == InsertAt(old(a[..size]), index, src)
  {
    ghost var s := a[..size];
    CopyBackward(a, index, size, size + |src|);
    ghost var gap := a[..];
    var j := 0;
    while j < |src|
      invariant 0 <= j <= |src|
      invariant forall k :: 0 <= k < j ==> a[index + k] == src[k]
      invariant forall k :: 0 <= k < a.Length && !(index <= k < index + j) ==> a[k] == gap[k]
    {
      a[index + j] := src[j];
      j := j + 1;
    }
    ghost var r := a[..size + |src|];
    forall k | 0 <= k < index ensures r[k] == s[k] {
      assert r[k] == gap[k];
    }
    forall k | 0 <= k < |src| ensures r[index + k] == src[k] {
      assert r[index + k] == a[index + k];
    }
    forall k | index <= k < |s| ensures r[k + |src|] == s[k] {
      assert r[k + |src|] == gap[k + |src|];
    }
    InsertAtPointwise(r, s, index, src);
  }
}
