/**
 * The test scenarios of the repository, replayed against the model. Each
 * method builds its vectors through the modelled operations only and states
 * in its postcondition what the scenario checks.
 */
module Scenarios {
  import opened Iterators
  import opened Vectors
  import opened Sequences
  import Relational

  // The expected contents of the scenarios, computed on the specification
  // functions.

  lemma InsertExamples()
    ensures InsertAt([1, 3, 4], 1, [2]) == [1, 2, 3, 4]
    ensures InsertAt([1], 1, [2, 3, 4]) == [1, 2, 3, 4]
    ensures InsertAt([1, 2, 3], 0, [9]) == [9, 1, 2, 3]
    ensures InsertAt([1, 2, 3, 5, 6], 3, [4]) == [1, 2, 3, 4, 5, 6]
  {
    assert [1, 3, 4][..1] == [1] && [1, 3, 4][1..] == [3, 4];
    assert [1][..1] == [1] && [1][1..] == [];
    assert [1, 2, 3][..0] == [] && [1, 2, 3][0..] == [1, 2, 3];
    assert [1, 2, 3, 5, 6][..3] == [1, 2, 3] && [1, 2, 3, 5, 6][3..] == [5, 6];
  }

  lemma EraseExamples()
    ensures RemoveAt([1, 2, 3, 3, 4], 2) == [1, 2, 3, 4]
    ensures ErasedAsWritten([1, 2, 3, 3, 3, 3, 4], 2, 5) == [1, 2, 3, 4]
  {
    assert [1, 2, 3, 3, 4][..2] == [1, 2] && [1, 2, 3, 3, 4][3..] == [3, 4];
    assert [1, 2, 3, 3, 3, 3, 4][..3] == [1, 2, 3] && [1, 2, 3, 3, 3, 3, 4][6..] == [4];
  }

  lemma ResizeExamples()
    ensures Resized([1, 2, 3, 4], 3, 0) == [1, 2, 3]
    ensures Resized([1, 2, 3, 4], 6, 3) == [1, 2, 3, 4, 3, 3]
  {
    assert [1, 2, 3, 4][..3] == [1, 2, 3];
    assert Repeat(3, 2) == [3, 3];
  }

  /** Construction: the default vector is empty with no capacity; a sized one
      has that many elements; the fill constructor holds copies. */
  method Construction() returns (defaultCap: nat, sizedLen: nat, sizedCap: nat, filled: seq<int>)
    ensures defaultCap == 0
    ensures sizedLen == 7 && sizedCap >= 7
    ensures filled == [125, 125, 125, 125, 125, 125, 125]
  {
    var d := new Vector<int>();
    defaultCap := d.Capacity();
    var s := new Vector<int>.Sized(7, 0);
    sizedLen, sizedCap := s.Size(), s.Capacity();
    var f := new Vector<int>.Filled(7, 125);
    filled := f.Elements();
  }

  /** Checked and unchecked access on [1, 2, 3, 4]. */
  method Access() returns (at3: Result<int>, at4: Result<int>, front: int, back: int)
    ensures at3 == Ok(4) && at4 == OutOfRange
    ensures front == 1 && back == 4
  {
    var v := new Vector<int>.FromRange([1, 2, 3, 4]);
    at3, at4 := v.At(3), v.At(4);
    front, back := v.Front(), v.Back();
  }

  /** Pushing 9, 6, 44, 52, 1 onto an empty vector. */
  method PushBackFive() returns (contents: seq<int>)
    ensures contents == [9, 6, 44, 52, 1]
  {
    var v := new Vector<int>();
    v.PushBack(9);
    v.PushBack(6);
    v.PushBack(44);
    v.PushBack(52);
    v.PushBack(1);
    contents := v.Elements();
  }

  /** Popping three times from [1, 2, 3, 4]. */
  method PopThree() returns (contents: seq<int>)
    ensures contents == [1]
  {
    var v := new Vector<int>.FromRange([1, 2, 3, 4]);
    v.PopBack();
    v.PopBack();
    v.PopBack();
    contents := v.Elements();
  }

  /** Inserting 2 at `begin() + 1` of [1, 3, 4], and [2, 3, 4] at
      `begin() + 1` of [1]. */
  method InsertOneAndRange() returns (one: seq<int>, range: seq<int>, at: Iterator)
    ensures one == [1, 2, 3, 4] && range == [1, 2, 3, 4]
    ensures at.index == 1
  {
    var v := new Vector<int>.FromRange([1, 3, 4]);
    at := v.Insert(v.Begin().Add(1), 2);
    one := v.Elements();
    var w := new Vector<int>.FromRange([1]);
    var _ := w.InsertRange(w.Begin().Add(1), [2, 3, 4]);
    range := w.Elements();
    InsertExamples();
  }

  /** `emplace` at the front and in the middle, and `emplace_back`. */
  method EmplaceScenarios() returns (first: seq<int>, middle: seq<int>, back: seq<int>)
    ensures first == [9, 1, 2, 3]
    ensures middle == [1, 2, 3, 4, 5, 6]
    ensures back == [4, 2]
  {
    var a := new Vector<int>.FromRange([1, 2, 3]);
    var _ := a.Emplace(a.Begin(), 9);
    first := a.Elements();
    var b := new Vector<int>.FromRange([1, 2, 3, 5, 6]);
    var _ := b.Emplace(b.Begin().Add(3), 4);
    middle := b.Elements();
    var c := new Vector<int>.FromRange([4]);
    c.EmplaceBack(2);
    back := c.Elements();
    InsertExamples();
  }

  /** Erasing index 2 of [1, 2, 3, 3, 4]. */
  method EraseOne() returns (contents: seq<int>, at: Iterator)
    ensures contents == [1, 2, 3, 4] && at.index == 2
  {
    var v := new Vector<int>.FromRange([1, 2, 3, 3, 4]);
    at := v.Erase(v.Begin().Add(2));
    contents := v.Elements();
    EraseExamples();
  }

  /** Erasing `[2, 5)` of [1, 2, 3, 3, 3, 3, 4]: the written code gets it
      right here because the elements at both ends of the range are equal. */
  method EraseThree() returns (contents: seq<int>)
    ensures contents == [1, 2, 3, 4]
  {
    var v := new Vector<int>.FromRange([1, 2, 3, 3, 3, 3, 4]);
    var _ := v.EraseRange(v.Begin().Add(2), v.Begin().Add(5));
    contents := v.Elements();
    EraseExamples();
  }

  /** `resize(3)` and `resize(6, 3)` of [1, 2, 3, 4]. */
  method ResizeScenarios() returns (shrunk: seq<int>, grown: seq<int>)
    ensures shrunk == [1, 2, 3]
    ensures grown == [1, 2, 3, 4, 3, 3]
  {
    var v := new Vector<int>.FromRange([1, 2, 3, 4]);
    v.Resize(3, 0);
    shrunk := v.Elements();
    var w := new Vector<int>.FromRange([1, 2, 3, 4]);
    w.ResizeFill(6, 3);
    grown := w.Elements();
    ResizeExamples();
  }

  /** `reserve(20)` on [1, 2, 3, 4]: the growth doubles the request. */
  method ReserveTwenty() returns (contents: seq<int>, cap: nat)
    ensures contents == [1, 2, 3, 4] && cap == 40
  {
    var v := new Vector<int>.FromRange([1, 2, 3, 4]);
    v.Reserve(20);
    contents, cap := v.Elements(), v.Capacity();
  }

  /** `assign(5, 1)` on an empty vector, and `assign(first, last)`. */
  method AssignScenarios() returns (copies: seq<int>, range: seq<int>)
    ensures copies == [1, 1, 1, 1, 1]
    ensures range == [1, 2, 3, 4, 5]
  {
    var v := new Vector<int>();
    v.Assign(5, 1);
    copies := v.Elements();
    var src := new Vector<int>.FromRange([1, 2, 3, 4, 5]);
    var w := new Vector<int>();
    w.AssignRange(src.Elements());
    range := w.Elements();
  }

  /** `clear()` releases everything; `shrink_to_fit()` on six elements held
      in a block of twelve leaves a capacity of six, and a second call
      doubles it again. */
  method ClearAndShrink() returns (clearedCap: nat, clearedEmpty: bool, shrunkCap: nat, again: nat)
    ensures clearedCap == 0 && clearedEmpty
    ensures shrunkCap == 6
    ensures again == 12
  {
    var v := new Vector<int>.FromRange([1, 2, 3, 4, 5]);
    v.Clear();
    clearedCap, clearedEmpty := v.Capacity(), v.Empty();
    var w := new Vector<int>.FromRange([1, 2, 3, 4, 5, 6]);
    w.ShrinkToFit();
    shrunkCap := w.Capacity();
    w.ShrinkToFit();
    again := w.Capacity();
  }

  /** Copy assignment, move assignment and the two self-assignments. */
  method Assignments() returns (copied: seq<int>, moved: seq<int>, source: seq<int>, self: seq<int>)
    ensures copied == [1, 2, 3, 4] && moved == [1, 2, 3, 4]
    ensures source == []
    ensures self == [1, 2, 3, 4]
  {
    var original := new Vector<int>.FromRange([1, 2, 3, 4]);
    var a := new Vector<int>();
    a.CopyAssign(original);
    copied := a.Elements();
    var moveable := new Vector<int>.FromRange([1, 2, 3, 4]);
    var b := new Vector<int>();
    b.MoveAssign(moveable);
    moved, source := b.Elements(), moveable.Elements();
    var c := new Vector<int>.FromRange([1, 2, 3, 4]);
    c.CopyAssign(c);
    c.MoveAssign(c);
    self := c.Elements();
  }

  /** `begin()` and `end()` of a five-element vector compare as positions. */
  method IteratorCompare() returns (first: Iterator, last: Iterator)
    ensures first.Lt(last) && last.Gt(first) && first.Ne(last)
    ensures last.Ge(last) && last.Ge(first) && first.Le(last) && first.Le(first)
    ensures last.Minus(first) == 5
  {
    var v := new Vector<int>.FromRange([1, 2, 3, 4, 5]);
    first, last := v.Begin(), v.End();
  }

  /** [1, 2, 3] < [1, 2, 3, 4]. */
  method CompareShorter() returns (lt: bool)
    ensures lt
  {
    var a := new Vector<int>.FromRange([1, 2, 3]);
    var b := new Vector<int>.FromRange([1, 2, 3, 4]);
    lt := Relational.Less(a.Elements(), b.Elements(), Relational.IntLess);
  }
}
