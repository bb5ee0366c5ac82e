/**
 * The three element-moving algorithms of the C++ `<algorithm>` header that the
 * vector uses to shift and fill its buffer in place: `std::copy`,
 * `std::copy_backward` and `std::fill`, each over index ranges of one array.
 */
module Algorithms {

  /** `std::copy(a + first, a + last, a + dFirst)` inside one array, with the
      destination at or before the source (a left shift, as `erase` uses it). */
  method Copy<T>(a: array<T>, first: nat, last: nat, dFirst: nat)
    requires first <= last <= a.Length
    requires dFirst <= first
    modifies a
    ensures forall k :: dFirst <= k < dFirst + (last - first) ==> a[k] == old(a[k + (first - dFirst)])
    ensures forall k :: 0 <= k < a.Length && !(dFirst <= k < dFirst + (last - first)) ==> a[k] == old(a[k])
  {
    var i := 0;
    while i < last - first
      invariant 0 <= i <= last - first
      invariant forall k :: dFirst <= k < dFirst + i ==> a[k] == old(a[k + (first - dFirst)])
      invariant forall k :: 0 <= k < a.Length && !(dFirst <= k < dFirst + i) ==> a[k] == old(a[k])
    {
      a[dFirst + i] := a[first + i];
      i := i + 1;
    }
  }

  /** `std::copy_backward(a + first, a + last, a + dLast)` inside one array,
      with the destination end at or after the source end (a right shift, as
      `insert` and `emplace` use it). Elements are moved from the back. */
  method CopyBackward<T>(a: array<T>, first: nat, last: nat, dLast: nat)
    requires first <= last <= dLast <= a.Length
    modifies a
    ensures forall k :: first + (dLast - last) <= k < dLast ==> a[k] == old(a[k - (dLast - last)])
    ensures forall k :: 0 <= k < a.Length && !(first + (dLast - last) <= k < dLast) ==> a[k] == old(a[k])
  {
    var offset := dLast - last;
    var i := last;
    while i > first
      invariant first <= i <= last
      invariant forall k :: i + offset <= k < dLast ==> a[k] == old(a[k - offset])
      invariant forall k :: 0 <= k < a.Length && !(i + offset <= k < dLast) ==> a[k] == old(a[k])
    {
      i := i - 1;
      a[i + offset] := a[i];
    }
  }

  /** `std::fill(a + first, a + last, value)`. */
  method Fill<T>(a: array<T>, first: nat, last: nat, value: T)
    requires first <= last <= a.Length
    modifies a
    ensures forall k :: first <= k < last ==> a[k] == value
    ensures forall k :: 0 <= k < a.Length && !(first <= k < last) ==> a[k] == old(a[k])
  {
    var i := first;
    while i < last
      invariant first <= i <= last
      invariant forall k :: first <= k < i ==> a[k] == value
      invariant forall k :: 0 <= k < a.Length && !(first <= k < i) ==> a[k] == old(a[k])
    {
      a[i] := value;
      i := i + 1;
    }
  }
}
