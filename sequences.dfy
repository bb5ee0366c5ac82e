/**
 * The element sequence of a vector and what each modifier makes of it. The
 * class methods in `Vectors` are proved against these functions; the lemmas
 * here state how the functions relate to one another.
 */
module Sequences {

  /** `count` copies of `value`: what `assign(count, value)`, the fill
      constructor and the growing part of `resize` produce. */
  function Repeat<T>(value: T, count: nat): (r: seq<T>)
    ensures |r| == count
    ensures forall k :: 0 <= k < count ==> r[k] == value
  {
    if count == 0 then [] else [value] + Repeat(value, count - 1)
  }

  /** `ins` placed before index `i`: the effect of every `insert` overload and
      of `emplace`. */
  function InsertAt<T>(s: seq<T>, i: nat, ins: seq<T>): (r: seq<T>)
    requires i <= |s|
    ensures |r| == |s| + |ins|
    ensures forall k :: 0 <= k < i ==> r[k] == s[k]
    ensures forall k :: 0 <= k < |ins| ==> r[i + k] == ins[k]
    ensures forall k :: i <= k < |s| ==> r[k + |ins|] == s[k]
  {
    s[..i] + ins + s[i..]
  }

  /** The half-open index range `[first, last)` taken out: what erasing a
      range of a vector is meant to do. */
  function RemoveRange<T>(s: seq<T>, first: nat, last: nat): (r: seq<T>)
    requires first <= last <= |s|
    ensures |r| == |s| - (last - first)
    ensures forall k :: 0 <= k < first ==> r[k] == s[k]
    ensures forall k :: last <= k < |s| ==> r[k - (last - first)] == s[k]
  {
    s[..first] + s[last..]
  }

  /** The one element at index `i` taken out: `erase(pos)`. */
  function RemoveAt<T>(s: seq<T>, i: nat): (r: seq<T>)
    requires i < |s|
    ensures |r| == |s| - 1
    ensures forall k :: 0 <= k < i ==> r[k] == s[k]
    ensures forall k :: i < k < |s| ==> r[k - 1] == s[k]
  {
    RemoveRange(s, i, i + 1)
  }

  /** What `erase(first, last)` leaves, as its code is written: the elements
      after `last` are copied to `first + 1` rather than to `first`, and only
      when some element follows `last`; then the size drops by
      `last - first`. */
  function ErasedAsWritten<T>(s: seq<T>, first: nat, last: nat): (r: seq<T>)
    requires first <= last <= |s|
    ensures |r| == |s| - (last - first)
    ensures forall k :: 0 <= k < first ==> r[k] == s[k]
    ensures last < |s| ==> r[first] == s[first]
  {
    if last == |s| then s[..first] else s[..first + 1] + s[last + 1..]
  }

  /** `resize(count)` with `blank` standing for `Type()`, and
      `resize(count, value)` with `blank == value`. */
  function Resized<T>(s: seq<T>, count: nat, blank: T): (r: seq<T>)
    ensures |r| == count
    ensures forall k :: 0 <= k < count && k < |s| ==> r[k] == s[k]
    ensures forall k :: |s| <= k < count ==> r[k] == blank
  {
    if count <= |s| then s[..count] else s + Repeat(blank, count - |s|)
  }

  /** A sequence that agrees with `s` before `i`, holds `ins` from `i` on and
      continues with the rest of `s` is `InsertAt(s, i, ins)`. */
  lemma InsertAtPointwise<T>(a: seq<T>, s: seq<T>, i: nat, ins: seq<T>)
    requires i <= |s| && |a| == |s| + |ins|
    requires forall k :: 0 <= k < i ==> a[k] == s[k]
    requires forall k :: 0 <= k < |ins| ==> a[i + k] == ins[k]
    requires forall k :: i <= k < |s| ==> a[k + |ins|] == s[k]
    ensures a == InsertAt(s, i, ins)
  {
    var r := InsertAt(s, i, ins);
    forall k | 0 <= k < |a|
      ensures a[k] == r[k]
    {
      if k < i {
      } else if k < i + |ins| {
        assert a[i + (k - i)] == ins[k - i];
      } else {
        assert a[(k - |ins|) + |ins|] == s[k - |ins|];
      }
    }
  }

  /** Inserting a sequence and then erasing the same index range restores the
      original (the insert/erase round trip). */
  lemma RemoveInsertRoundTrip<T>(s: seq<T>, i: nat, ins: seq<T>)
    requires i <= |s|
    ensures RemoveRange(InsertAt(s, i, ins), i, i + |ins|) == s
  {
    var t := InsertAt(s, i, ins);
    assert t[..i] == s[..i];
    assert t[i + |ins|..] == s[i..];
    assert s[..i] + s[i..] == s;
  }

  /** Inserting one value and erasing it again restores the original. */
  lemma RemoveAtInsertRoundTrip<T>(s: seq<T>, i: nat, v: T)
    requires i <= |s|
    ensures RemoveAt(InsertAt(s, i, [v]), i) == s
  {
    RemoveInsertRoundTrip(s, i, [v]);
  }

  /** The literal `erase(first, last)` removes `[first, last)` exactly when the
      range reaches the end or the element at `first` equals the one at
      `last` (in particular when the range is empty). */
  lemma ErasedAsWrittenIff<T>(s: seq<T>, first: nat, last: nat)
    requires first <= last <= |s|
    ensures ErasedAsWritten(s, first, last) == RemoveRange(s, first, last)
        <==> last == |s| || s[first] == s[last]
  {
    var w := ErasedAsWritten(s, first, last);
    var r := RemoveRange(s, first, last);
    if last < |s| {
      assert r[first] == s[last];
      assert w[first] == s[first];
      if s[first] == s[last] {
        assert w == s[..first] + [s[last]] + s[last + 1..];
        assert r == s[..first] + [s[last]] + s[last + 1..] by {
          assert s[last..] == [s[last]] + s[last + 1..];
        }
      }
    }
  }

  /** An input on which the literal `erase(first, last)` does not remove the
      range: erasing `[0, 1)` from [1, 2, 3] leaves [1, 3], not [2, 3]. */
  lemma ErasedAsWrittenCounterexample()
    ensures ErasedAsWritten([1, 2, 3], 0, 1) == [1, 3]
    ensures RemoveRange([1, 2, 3], 0, 1) == [2, 3]
  {
    assert [1, 2, 3][..1] == [1];
    assert [1, 2, 3][2..] == [3];
    assert [1, 2, 3][1..] == [2, 3];
  }

  /** Resizing to the current length changes nothing, and shrinking keeps a
      prefix. */
  lemma ResizedPrefix<T>(s: seq<T>, count: nat, blank: T)
    ensures count <= |s| ==> Resized(s, count, blank) == s[..count]
    ensures Resized(s, |s|, blank) == s
    ensures count >= |s| ==> Resized(s, count, blank)[..|s|] == s
  {
  }
}
