/**
  `StackVec<T, N>`: the fixed-capacity backing, an `N`-slot array plus a
  length field.

  A sized `StackVec` is an owner whose allocation is its array, so `N` is the
  number of slots. Its `reserve` panics whatever it is asked for, so every
  checked operation that grows the vector panics, even when the array has
  room; only the unchecked operations and the constructors fill it.
 */
module StackVecs {
  import opened Outcomes
  import opened Slots
  import opened SliceOwner
  import opened Ranges
  import opened VecPrimitives
  import opened VecExtend
  import opened VecResize

  /** `StackVec::capacity`: `N`, or `usize::MAX` when the elements are zero-sized; it does not look at `len`. */
  function Capacity(zst: bool, n: usize): (r: usize)
    ensures !zst ==> r == n
    ensures zst ==> r == USIZE_MAX
  {
    if zst then USIZE_MAX else n
  }

  /** Every valid sized `StackVec` has at most `N` elements, and the zero-sized sentinel admits every length. */
  lemma CapacityBoundsLen<T>(o: Owner<T>, zst: bool)
    requires Valid(o) && |o.slots| <= USIZE_MAX && o.len <= USIZE_MAX
    ensures o.len <= Capacity(zst, |o.slots|)
    ensures !zst ==> Capacity(zst, |o.slots|) == |o.slots|
    ensures zst ==> Capacity(zst, |o.slots|) == USIZE_MAX
  {
  }

  /** `StackVec::new`: every slot of the array uninitialised and no element. */
  function New<T>(n: usize): (r: Owner<T>)
    ensures Valid(r) && AsSlice(r) == [] && |r.slots| == n && r.dropped == []
    ensures forall i :: 0 <= i < n ==> r.slots[i] == Uninit
  {
    Owner(UninitSlots(n), 0, [])
  }

  /**
    `set_len` stores the new length as given, with no check against `N`:
    lowering it keeps the owner valid and leaks the elements past it, while a
    length past the array breaks the invariant.
   */
  lemma SetLenStoresVerbatim<T>(o: Owner<T>, n: usize)
    requires Valid(o)
    ensures SetLen(o, n).len == n && SetLen(o, n).slots == o.slots
    ensures n <= o.len ==> Valid(SetLen(o, n)) && AsSlice(SetLen(o, n)) == AsSlice(o)[..n]
    ensures n > |o.slots| ==> !Valid(SetLen(o, n))
  {
    if n <= o.len {
      SliceIs(SetLen(o, n), AsSlice(o)[..n]);
    }
  }

  /** `StackVec::reserve`: cannot grow, so it panics for every request. */
  function StackReserve<T>(o: Owner<T>, additional: nat): (r: Outcome<Owner<T>>)
    ensures !r.Ok? && !r.Undefined?
    ensures Valid(o) ==> Reserved(o, additional, r)
  {
    Fail(CannotReserve)
  }

  /**
    Every checked growing operation on a `StackVec` panics with the reserve
    message, even when the array has room for the new elements: `push`,
    `insert` at a valid index, `append`, `extend_from_slice` (even of nothing),
    `extend_from_within` of a valid range, and `resize`/`resize_with` as
    intended when they grow. As written, `resize` and `resize_with` do not
    call `reserve`, so they grow a `StackVec` that has room.
   */
  lemma CheckedGrowthPanics<T>(o: Owner<T>, v: T, index: nat, other: Owner<T>, slice: seq<T>, lo: Bound, hi: Bound, newLen: usize, clone: T -> T, gen: nat -> T)
    requires Valid(o) && Valid(other) && o.len <= USIZE_MAX
    ensures Push(o, v, StackReserve) == Fail(CannotReserve)
    ensures index <= o.len ==> Insert(o, index, v, StackReserve) == Fail(CannotReserve)
    ensures Append(o, other, StackReserve) == Fail(CannotReserve)
    ensures ExtendFromSlice(o, slice, StackReserve) == Fail(CannotReserve)
    ensures SliceRange(lo, hi, o.len).Ok? ==> ExtendFromWithin(o, lo, hi, StackReserve) == Fail(CannotReserve)
    ensures newLen > o.len ==> Resize(o, newLen, v, clone, StackReserve) == Fail(CannotReserve)
    ensures newLen > o.len ==> ResizeWith(o, newLen, gen, StackReserve) == Fail(CannotReserve)
    // as written, growing `resize`/`resize_with` never call `reserve`, so with room they succeed
    ensures o.len < newLen <= |o.slots| ==> ResizeAsWritten(o, newLen, v, clone).Ok?
    ensures o.len < newLen <= |o.slots| ==> ResizeWithAsWritten(o, newLen, gen).Ok?
  {
  }

  /** `split_off_unchecked`: a fresh array receives the suffix by a non-overlapping copy; the original keeps the prefix. */
  function SplitOffUnchecked<T>(o: Owner<T>, at: nat): (r: (Owner<T>, Owner<T>))
    requires Valid(o) && at <= o.len
    ensures Valid(r.0) && AsSlice(r.0) == AsSlice(o)[..at]
    ensures Valid(r.1) && AsSlice(r.1) == AsSlice(o)[at..]
    ensures r.0.slots == o.slots && r.0.dropped == o.dropped
    ensures |r.1.slots| == |o.slots| && r.1.dropped == []
  {
    var xs := AsSlice(o);
    var otherLen := o.len - at;
    var other := Owner(UninitSlots(|o.slots|), otherLen, []);
    var self1 := SetLen(o, at);
    var other1 := other.(slots := CopyAcross(self1.slots, AsPtr(self1) + at, other.slots, AsMutPtr(other), otherLen));
    SliceIs(self1, xs[..at]);
    SliceIs(other1, xs[at..]);
    (self1, other1)
  }

  /** `split_off`: panics when `at` is past the length, otherwise splits. */
  function SplitOff<T>(o: Owner<T>, at: nat): (r: Outcome<(Owner<T>, Owner<T>)>)
    requires Valid(o)
    ensures !r.Undefined?
    ensures r.Fail? <==> at > o.len
    ensures r.Fail? ==> r.panic == SplitIndex(at, o.len)
    ensures r.Ok? ==> Valid(r.value.0) && Valid(r.value.1)
    ensures r.Ok? ==> AsSlice(r.value.0) + AsSlice(r.value.1) == AsSlice(o)
    ensures r.Ok? ==> |AsSlice(r.value.0)| == at
  {
    if at > o.len then Fail(SplitIndex(at, o.len))
    else
      var (a, b) := SplitOffUnchecked(o, at);
      assert AsSlice(o)[..at] + AsSlice(o)[at..] == AsSlice(o);
      Ok((a, b))
  }

  /** Splitting and appending the suffix back restores the elements, with nothing dropped. */
  lemma SplitAppendRoundTrip<T>(o: Owner<T>, at: nat)
    requires Valid(o) && at <= o.len
    ensures var (a, b) := SplitOffUnchecked(o, at);
      && a.len + b.len <= |a.slots|
      && AsSlice(AppendUnchecked(a, b)) == AsSlice(o)
      && AppendUnchecked(a, b).dropped == o.dropped
  {
    var (a, b) := SplitOffUnchecked(o, at);
    assert AsSlice(o)[..at] + AsSlice(o)[at..] == AsSlice(o);
  }

  /** Splitting `[1, 2, 3, 4, 5]` at 2 keeps `[1, 2]` and returns `[3, 4, 5]`; splitting at 6 panics. */
  lemma SplitOffExample()
    ensures SplitOff(ArrayOwner([1, 2, 3, 4, 5]), 2).Ok?
    ensures AsSlice(SplitOff(ArrayOwner([1, 2, 3, 4, 5]), 2).value.0) == [1, 2]
    ensures AsSlice(SplitOff(ArrayOwner([1, 2, 3, 4, 5]), 2).value.1) == [3, 4, 5]
    ensures SplitOff(ArrayOwner([1, 2, 3, 4, 5]), 6) == Fail(SplitIndex(6, 5))
  {
    var xs := [1, 2, 3, 4, 5];
    assert xs[..2] == [1, 2] && xs[2..] == [3, 4, 5];
  }

  /**
    `from_slice_copy_unchecked` for sized elements: panics when the slice is
    longer than the capacity; otherwise a fresh array whose first slots hold a
    bitwise copy of the slice.
   */
  function FromSliceCopyUnchecked<T>(n: usize, slice: seq<T>): (r: Outcome<Owner<T>>)
    ensures !r.Undefined?
    ensures r.Fail? <==> |slice| > n
    ensures r.Fail? ==> r.panic == CapacityOverflow
    ensures r.Ok? ==> Valid(r.value) && AsSlice(r.value) == slice && |r.value.slots| == n && r.value.dropped == []
  {
    if Capacity(false, n) < |slice| then Fail(CapacityOverflow)
    else
      var buff := UninitSlots(n);
      var r := Owner(CopyAcross(LiveSlots(slice), 0, buff, 0, |slice|), |slice|, []);
      SliceIs(r, slice);
      Ok(r)
  }

  /** `From<[T; N]>`: the array becomes the buffer and every slot is an element. */
  function FromArray<T>(a: seq<T>): (r: Owner<T>)
    ensures Valid(r) && r.len == |r.slots| == |a| && AsSlice(r) == a && r.dropped == []
  {
    ArrayOwner(a)
  }

  /** A backing's `reserve` that keeps its promise for every valid owner and every request. */
  ghost predicate ReservesSoundly<T(!new)>(reserve: Reserve<T>) {
    forall p: Owner<T>, n: nat :: Valid(p) ==> Reserved(p, n, reserve(p, n))
  }

  /** A `reserve` that grants every request on a valid owner, as a growable backing's does while memory lasts. */
  ghost predicate AlwaysGrants<T(!new)>(reserve: Reserve<T>) {
    forall p: Owner<T>, n: nat :: Valid(p) ==> reserve(p, n).Ok?
  }

  /** `StackVec::reserve` keeps that promise: it never hands back anything. */
  lemma StackReserveSound<T(!new)>()
    ensures ReservesSoundly<T>(StackReserve)
  {
  }

  /**
    `Extend` (and `FromIterator`) push the items one by one through the
    backing's `push`: either every item is appended in order, or the first
    failing `reserve`'s panic is raised.
   */
  function Extend<T(!new)>(o: Owner<T>, items: seq<T>, reserve: Reserve<T>): (r: Outcome<Owner<T>>)
    requires Valid(o) && ReservesSoundly(reserve)
    ensures !r.Undefined?
    ensures r.Ok? ==> Appended(o, r.value, items)
    ensures |items| == 0 ==> r == Ok(o)
    ensures |items| > 0 && reserve(o, 1).Fail? ==> r == Fail(reserve(o, 1).panic)
    ensures AlwaysGrants(reserve) ==> r.Ok?
    decreases |items|
  {
    if |items| == 0 then Ok(o)
    else
      var o1 :- Push(o, items[0], reserve);
      var r := Extend(o1, items[1..], reserve);
      if r.Ok? then
        assert AsSlice(r.value) == AsSlice(o) + [items[0]] + items[1..];
        assert [items[0]] + items[1..] == items;
        r
      else r
  }

  /** `FromIterator`: a new `StackVec` extended by the items. */
  function FromIterator<T(!new)>(n: usize, items: seq<T>, reserve: Reserve<T>): (r: Outcome<Owner<T>>)
    requires ReservesSoundly(reserve)
    ensures !r.Undefined?
    ensures r.Ok? ==> Valid(r.value) && AsSlice(r.value) == items
    ensures |items| > 0 && reserve(New(n), 1).Fail? ==> r == Fail(reserve(New(n), 1).panic)
    ensures AlwaysGrants(reserve) ==> r.Ok?
  {
    Extend(New(n), items, reserve)
  }

  /** On a `StackVec`, `Extend` and `FromIterator` succeed exactly when there is nothing to push, whatever the room left. */
  lemma StackExtendPanics<T(!new)>(o: Owner<T>, n: usize, items: seq<T>)
    requires Valid(o)
    ensures ReservesSoundly<T>(StackReserve)
    ensures Extend(o, items, StackReserve) == if |items| == 0 then Ok(o) else Fail(CannotReserve)
    ensures FromIterator(n, items, StackReserve) == if |items| == 0 then Ok(New(n)) else Fail(CannotReserve)
  {
  }
}
