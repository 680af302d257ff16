/**
  `append`, `extend_from_slice` and `extend_from_within`, and the helper
  `extend_vec_with_raw_parts_unchecked` all three go through.

  The helper is given a source pointer and a count. As written it copies
  `this.len()` elements from the source to the start of the buffer and then
  adds `count` to `len`; the evidently intended helper copies `count`
  elements to the end of the live prefix. `AppendUnchecked`, `Append`,
  `ExtendFromSliceUnchecked`, `ExtendFromSlice` and `ExtendFromWithin` are
  the corrected operations, built on the intended helper `ExtendRaw`; the
  members named `...AsWritten` are the same operations over the helper as
  written, and record what the code does.

  `extend_from_slice` copies the slice bitwise rather than cloning it; the
  model copies the values. `append` forgets the other owner after the copy,
  so nothing is dropped from it.
 */
module VecExtend {
  import opened Outcomes
  import opened Slots
  import opened SliceOwner
  import opened Ranges
  import opened VecPrimitives

  /** The source pointer: the start of another allocation, or an offset into the owner's own slots. */
  datatype Source<T> = Foreign(items: seq<Slot<T>>) | Within(off: nat)

  /** The first `count` source slots exist and hold values (inside the live prefix, for an owner's own slots). */
  predicate Readable<T>(o: Owner<T>, src: Source<T>, count: nat) {
    match src
    case Foreign(items) => count <= |items| && AllLive(items, 0, count)
    case Within(off) => off + count <= o.len
  }

  /** The `count` values the source pointer points at. */
  function SourceValues<T>(o: Owner<T>, src: Source<T>, count: nat): (r: seq<T>)
    requires Valid(o) && Readable(o, src, count)
    ensures |r| == count
  {
    match src
    case Foreign(items) => Values(items, 0, count)
    case Within(off) => AsSlice(o)[off..off + count]
  }

  /**
    `extend_vec_with_raw_parts_unchecked` as written: `copy_to_nonoverlapping`
    of `this.len()` elements from the source to `as_mut_ptr()`, then
    `set_len(len + count)`.
   */
  function ExtendRawAsWritten<T>(o: Owner<T>, src: Source<T>, count: nat): (r: Outcome<Owner<T>>)
    requires Valid(o)
    ensures !r.Fail?
    ensures r.Ok? ==> r.value.len == o.len + count && |r.value.slots| == |o.slots| && r.value.dropped == o.dropped
    // the slots past the old length are not written at all
    ensures r.Ok? ==> forall j :: o.len <= j < |o.slots| ==> r.value.slots[j] == o.slots[j]
    ensures src.Foreign? ==> (r.Ok? <==> o.len <= |src.items|)
    ensures src.Foreign? && r.Ok? ==> forall j :: 0 <= j < o.len ==> r.value.slots[j] == src.items[j]
    ensures src.Within? && src.off + o.len > |o.slots| ==> r == Undefined(OutOfBounds)
    ensures src.Within? && src.off + o.len <= |o.slots| && 0 < o.len && src.off < o.len ==> r == Undefined(OverlappingCopy)
    // a source region clear of the live prefix is copied over it, slot for slot
    ensures src.Within? && src.off + o.len <= |o.slots| && Disjoint(src.off, 0, o.len) ==>
              r.Ok? && forall j :: 0 <= j < o.len ==> r.value.slots[j] == o.slots[src.off + j]
  {
    var n := o.len;
    var dst := AsMutPtr(o);
    match src
    case Foreign(items) =>
      if n > |items| then Undefined(OutOfBounds)
      else Ok(SetLen(o.(slots := CopyAcross(items, 0, o.slots, dst, n)), o.len + count))
    case Within(off) =>
      if off + n > |o.slots| then Undefined(OutOfBounds)
      else if !Disjoint(off, dst, n) then Undefined(OverlappingCopy)
      else Ok(SetLen(o.(slots := CopyNonoverlapping(o.slots, off, dst, n)), o.len + count))
  }

  /**
    Appending `[7, 8]` to `[1, 2]` in a four-slot allocation through the
    helper as written: the first two slots are overwritten with 7 and 8, the
    two new slots stay empty, and `len` becomes 4 over slots holding no
    values. The elements 1 and 2 are lost without being dropped.
   */
  lemma ExtendRawAsWrittenExample()
    ensures var o := Owner([Live(1), Live(2), Uninit, Uninit], 2, []);
      var r := ExtendRawAsWritten(o, Foreign([Live(7), Live(8)]), 2);
      && r == Ok(Owner([Live(7), Live(8), Uninit, Uninit], 4, []))
      && !Valid(r.value)
  {
    var o := Owner([Live(1), Live(2), Uninit, Uninit], 2, []);
    var r := ExtendRawAsWritten(o, Foreign([Live(7), Live(8)]), 2).value;
    assert r.slots == [Live(7), Live(8), Uninit, Uninit];
    assert !r.slots[2].Live?;
  }

  /**
    Whenever something is appended to a non-empty owner with room for it,
    the helper as written leaves the owner invalid: the slots it adds to the
    live prefix are the empty slots past the old length.
   */
  lemma ExtendRawAsWrittenBreaksInvariant<T>(o: Owner<T>, src: Source<T>, count: nat)
    requires Valid(o) && 0 < count && o.len + count <= |o.slots|
    requires forall j :: o.len <= j < |o.slots| ==> o.slots[j] == Uninit
    ensures var r := ExtendRawAsWritten(o, src, count);
      r.Ok? ==> !Valid(r.value)
  {
    var r := ExtendRawAsWritten(o, src, count);
    if r.Ok? {
      assert r.value.slots[o.len] == Uninit;
    }
  }

  /** `extend_vec_with_raw_parts_unchecked` as intended: copies `count` elements to the end of the live prefix. */
  function ExtendRaw<T>(o: Owner<T>, src: Source<T>, count: nat): (r: Owner<T>)
    requires Valid(o) && o.len + count <= |o.slots| && Readable(o, src, count)
    ensures Appended(o, r, SourceValues(o, src, count))
    ensures |r.slots| == |o.slots|
  {
    var dst := AsMutPtr(o) + o.len;
    var r := match src
      case Foreign(items) => SetLen(o.(slots := CopyAcross(items, 0, o.slots, dst, count)), o.len + count)
      case Within(off) => SetLen(o.(slots := CopyNonoverlapping(o.slots, AsPtr(o) + off, dst, count)), o.len + count);
    SliceIs(r, AsSlice(o) + SourceValues(o, src, count));
    r
  }

  /** `append_unchecked`: moves the other owner's elements in and forgets it. */
  function AppendUnchecked<T>(o: Owner<T>, other: Owner<T>): (r: Owner<T>)
    requires Valid(o) && Valid(other) && o.len + other.len <= |o.slots|
    ensures Appended(o, r, AsSlice(other)) && |r.slots| == |o.slots|
  {
    ExtendRaw(o, Foreign(other.slots), other.len)
  }

  /** `append`: reserves room for the other owner's elements, then moves them in. */
  function Append<T>(o: Owner<T>, other: Owner<T>, reserve: Reserve<T>): (r: Outcome<Owner<T>>)
    requires Valid(o) && Valid(other) && Reserved(o, other.len, reserve(o, other.len))
    ensures !r.Undefined?
    ensures reserve(o, other.len).Fail? ==> r == Fail(reserve(o, other.len).panic)
    ensures reserve(o, other.len).Ok? ==> r.Ok? && Appended(o, r.value, AsSlice(other))
  {
    var o1 :- reserve(o, other.len);
    Ok(AppendUnchecked(o1, other))
  }

  /** `extend_from_slice_unchecked`: copies the slice's elements to the end. */
  function ExtendFromSliceUnchecked<T>(o: Owner<T>, slice: seq<T>): (r: Owner<T>)
    requires Valid(o) && o.len + |slice| <= |o.slots|
    ensures Appended(o, r, slice) && |r.slots| == |o.slots|
  {
    ExtendRaw(o, Foreign(LiveSlots(slice)), |slice|)
  }

  /** `extend_from_slice`: reserves room for the slice, then copies it to the end. */
  function ExtendFromSlice<T>(o: Owner<T>, slice: seq<T>, reserve: Reserve<T>): (r: Outcome<Owner<T>>)
    requires Valid(o) && Reserved(o, |slice|, reserve(o, |slice|))
    ensures !r.Undefined?
    ensures reserve(o, |slice|).Fail? ==> r == Fail(reserve(o, |slice|).panic)
    ensures reserve(o, |slice|).Ok? ==> r.Ok? && Appended(o, r.value, slice)
  {
    var o1 :- reserve(o, |slice|);
    Ok(ExtendFromSliceUnchecked(o1, slice))
  }

  /**
    `extend_from_within`: normalises the range against `len` (panicking as
    `slice_range` does), reserves its length, then appends a copy of that
    part of the live prefix.
   */
  function ExtendFromWithin<T>(o: Owner<T>, lo: Bound, hi: Bound, reserve: Reserve<T>): (r: Outcome<Owner<T>>)
    requires Valid(o) && o.len <= USIZE_MAX
    requires var rg := SliceRange(lo, hi, o.len);
      rg.Ok? ==> Reserved(o, rg.value.Len(), reserve(o, rg.value.Len()))
    ensures !r.Undefined?
    ensures SliceRange(lo, hi, o.len).Fail? ==> r == Fail(SliceRange(lo, hi, o.len).panic)
    ensures var rg := SliceRange(lo, hi, o.len);
      rg.Ok? && reserve(o, rg.value.Len()).Fail? ==> r == Fail(reserve(o, rg.value.Len()).panic)
    ensures var rg := SliceRange(lo, hi, o.len);
      rg.Ok? && reserve(o, rg.value.Len()).Ok? ==>
        r.Ok? && Appended(o, r.value, AsSlice(o)[rg.value.start..rg.value.end])
  {
    var range :- SliceRange(lo, hi, o.len);
    var len := range.Len();
    var o1 :- reserve(o, len);
    Ok(ExtendRaw(o1, Within(range.start), len))
  }

  /**
    `append_unchecked` as written: the helper copies `len` slots of the other
    owner's buffer over the owner's own elements and then adds the other's
    length; it reads past the other buffer when that is shorter than `len`.
   */
  function AppendUncheckedAsWritten<T>(o: Owner<T>, other: Owner<T>): (r: Outcome<Owner<T>>)
    requires Valid(o) && Valid(other)
    ensures !r.Fail?
    ensures r.Undefined? <==> o.len > |other.slots|
    ensures r.Ok? ==> r.value.len == o.len + other.len && |r.value.slots| == |o.slots| && r.value.dropped == o.dropped
    ensures r.Ok? ==> forall j :: 0 <= j < o.len ==> r.value.slots[j] == other.slots[j]
  {
    ExtendRawAsWritten(o, Foreign(other.slots), other.len)
  }

  /** `append` as written: `reserve`, then `append_unchecked` as written. */
  function AppendAsWritten<T>(o: Owner<T>, other: Owner<T>, reserve: Reserve<T>): (r: Outcome<Owner<T>>)
    requires Valid(o) && Valid(other) && Reserved(o, other.len, reserve(o, other.len))
    ensures reserve(o, other.len).Fail? ==> r == Fail(reserve(o, other.len).panic)
    ensures reserve(o, other.len).Ok? ==> (r.Undefined? <==> o.len > |other.slots|)
    ensures reserve(o, other.len).Ok? && r.Ok? ==>
              && r.value.len == o.len + other.len
              && o.len <= |r.value.slots|
              && forall j :: 0 <= j < o.len ==> r.value.slots[j] == other.slots[j]
  {
    var o1 :- reserve(o, other.len);
    AppendUncheckedAsWritten(o1, other)
  }

  /**
    Appending `[7, 8]` to `[1, 2]` in a four-slot allocation: as written the
    elements 1 and 2 are overwritten and `len` 4 covers two empty slots; the
    intended append gives `[1, 2, 7, 8]`.
   */
  lemma AppendAsWrittenExample()
    ensures var o := Owner([Live(1), Live(2), Uninit, Uninit], 2, []);
      && AppendUncheckedAsWritten(o, ArrayOwner([7, 8])) == Ok(Owner([Live(7), Live(8), Uninit, Uninit], 4, []))
      && !Valid(AppendUncheckedAsWritten(o, ArrayOwner([7, 8])).value)
      && AsSlice(AppendUnchecked(o, ArrayOwner([7, 8]))) == [1, 2, 7, 8]
  {
    var o := Owner([Live(1), Live(2), Uninit, Uninit], 2, []);
    var r := AppendUncheckedAsWritten(o, ArrayOwner([7, 8])).value;
    assert r.slots == [Live(7), Live(8), Uninit, Uninit];
    assert !r.slots[2].Live?;
    assert [1, 2] + [7, 8] == [1, 2, 7, 8];
  }

  /**
    `extend_from_slice_unchecked` as written: the first `len` slots are
    overwritten with the slice's first `len` elements (reading past the slice
    when it is shorter), and `len` grows by the slice's length.
   */
  function ExtendFromSliceUncheckedAsWritten<T>(o: Owner<T>, slice: seq<T>): (r: Outcome<Owner<T>>)
    requires Valid(o)
    ensures !r.Fail?
    ensures r.Undefined? <==> o.len > |slice|
    ensures r.Ok? ==> r.value.len == o.len + |slice| && |r.value.slots| == |o.slots| && r.value.dropped == o.dropped
    ensures r.Ok? ==> forall j :: 0 <= j < o.len ==> r.value.slots[j] == Live(slice[j])
  {
    ExtendRawAsWritten(o, Foreign(LiveSlots(slice)), |slice|)
  }

  /** `extend_from_slice` as written: `reserve`, then the unchecked version as written. */
  function ExtendFromSliceAsWritten<T>(o: Owner<T>, slice: seq<T>, reserve: Reserve<T>): (r: Outcome<Owner<T>>)
    requires Valid(o) && Reserved(o, |slice|, reserve(o, |slice|))
    ensures reserve(o, |slice|).Fail? ==> r == Fail(reserve(o, |slice|).panic)
    ensures reserve(o, |slice|).Ok? ==> (r.Undefined? <==> o.len > |slice|)
    ensures reserve(o, |slice|).Ok? && r.Ok? ==>
              && r.value.len == o.len + |slice|
              && o.len <= |r.value.slots|
              && forall j :: 0 <= j < o.len ==> r.value.slots[j] == Live(slice[j])
  {
    var o1 :- reserve(o, |slice|);
    ExtendFromSliceUncheckedAsWritten(o1, slice)
  }

  /** `extend_from_within` as written, through the helper as written. */
  function ExtendFromWithinAsWritten<T>(o: Owner<T>, lo: Bound, hi: Bound, reserve: Reserve<T>): (r: Outcome<Owner<T>>)
    requires Valid(o) && o.len <= USIZE_MAX
    requires var rg := SliceRange(lo, hi, o.len);
      rg.Ok? ==> Reserved(o, rg.value.Len(), reserve(o, rg.value.Len()))
    ensures SliceRange(lo, hi, o.len).Fail? ==> r == Fail(SliceRange(lo, hi, o.len).panic)
    ensures var rg := SliceRange(lo, hi, o.len);
      rg.Ok? && reserve(o, rg.value.Len()).Fail? ==> r == Fail(reserve(o, rg.value.Len()).panic)
    ensures var rg := SliceRange(lo, hi, o.len);
      rg.Ok? && reserve(o, rg.value.Len()).Ok? ==> !r.Fail?
  {
    var range :- SliceRange(lo, hi, o.len);
    var len := range.Len();
    var o1 :- reserve(o, len);
    ExtendRawAsWritten(o1, Within(range.start), len)
  }

  /**
    Through the helper as written, `extend_from_within` of any range that
    starts inside a non-empty owner, once `reserve` succeeds, reaches a
    `copy_nonoverlapping` whose source and destination overlap (or run past
    the allocation).
   */
  lemma ExtendFromWithinAsWrittenIsUndefined<T>(o: Owner<T>, lo: Bound, hi: Bound, reserve: Reserve<T>)
    requires Valid(o) && 0 < o.len <= USIZE_MAX
    requires var rg := SliceRange(lo, hi, o.len);
      rg.Ok? ==> Reserved(o, rg.value.Len(), reserve(o, rg.value.Len()))
    requires var rg := SliceRange(lo, hi, o.len);
      rg.Ok? && rg.value.start < o.len && reserve(o, rg.value.Len()).Ok?
    ensures ExtendFromWithinAsWritten(o, lo, hi, reserve).Undefined?
  {
  }

  /**
    As written, a range starting at `len` (such as `len..`) is empty, so
    nothing is reserved beyond the owner's room; the helper then copies the
    `len` slots from `len` on over the live prefix. Past the allocation that
    is undefined; otherwise the elements are silently replaced by whatever
    those slots hold, and `len` stays.
   */
  lemma ExtendFromWithinAsWrittenAtEnd<T>(o: Owner<T>, lo: Bound, hi: Bound, reserve: Reserve<T>)
    requires Valid(o) && o.len <= USIZE_MAX
    requires SliceRange(lo, hi, o.len) == Ok(Range(o.len, o.len))
    requires Reserved(o, 0, reserve(o, 0)) && reserve(o, 0).Ok?
    ensures var o1 := reserve(o, 0).value;
      // the empty range reserves nothing, which is all the call asks of `reserve`
      assert SliceRange(lo, hi, o.len).value.Len() == 0;
      assert Reserved(o, SliceRange(lo, hi, o.len).value.Len(), reserve(o, SliceRange(lo, hi, o.len).value.Len()));
      var r := ExtendFromWithinAsWritten(o, lo, hi, reserve);
      && (2 * o.len > |o1.slots| ==> r == Undefined(OutOfBounds))
      && (2 * o.len <= |o1.slots| ==>
            && r.Ok? && r.value.len == o.len && r.value.dropped == o.dropped
            && forall j :: 0 <= j < o.len ==> r.value.slots[j] == o1.slots[o.len + j])
  {
    AtEndUnfolds(o, lo, hi, reserve);
    RawFromLen(reserve(o, 0).value);
  }

  /** The helper as written, copying from the owner's own `len`: the `len` slots from there land over the live prefix. */
  lemma RawFromLen<T>(o: Owner<T>)
    requires Valid(o)
    ensures var r := ExtendRawAsWritten(o, Within(o.len), 0);
      && (2 * o.len > |o.slots| ==> r == Undefined(OutOfBounds))
      && (2 * o.len <= |o.slots| ==>
            && r.Ok? && r.value.len == o.len && r.value.dropped == o.dropped
            && forall j :: 0 <= j < o.len ==> r.value.slots[j] == o.slots[o.len + j])
  {
    assert Disjoint(o.len, 0, o.len);
  }

  /** With the empty range at `len`, the call reduces to the helper as written over the reserved owner. */
  lemma AtEndUnfolds<T>(o: Owner<T>, lo: Bound, hi: Bound, reserve: Reserve<T>)
    requires Valid(o) && o.len <= USIZE_MAX
    requires SliceRange(lo, hi, o.len) == Ok(Range(o.len, o.len))
    requires Reserved(o, 0, reserve(o, 0)) && reserve(o, 0).Ok?
    ensures reserve(o, 0).value.len == o.len
    ensures ExtendFromWithinAsWritten(o, lo, hi, reserve) == ExtendRawAsWritten(reserve(o, 0).value, Within(o.len), 0)
  {
  }

  /**
    `extend_from_within(2..)` on `[1, 2]` in four empty-tailed slots, with a
    `reserve` that finds room: as written both elements are overwritten by the
    empty slots 2 and 3, leaving an invalid owner of length 2.
   */
  lemma ExtendFromWithinAsWrittenAtEndExample()
    ensures var o := Owner([Live(1), Live(2), Uninit, Uninit], 2, []);
      var r := ExtendFromWithinAsWritten(o, Included(2), Unbounded, (p: Owner<int>, n: nat) => Ok(p));
      && r == Ok(Owner([Uninit, Uninit, Uninit, Uninit], 2, []))
      && !Valid(r.value)
  {
    var o := Owner([Live(1), Live(2), Uninit, Uninit], 2, []);
    var reserve := (p: Owner<int>, n: nat) => Ok(p);
    SliceIs(o, [1, 2]);
    assert StartOf(Included(2)) == 2 && EndOf(Unbounded, 2) == 2;
    assert SliceRange(Included(2), Unbounded, 2) == Ok(Range(2, 2));
    ExtendFromWithinAsWrittenAtEnd(o, Included(2), Unbounded, reserve);
    var r := ExtendFromWithinAsWritten(o, Included(2), Unbounded, reserve).value;
    assert r.slots == [Uninit, Uninit, Uninit, Uninit];
    assert !r.slots[0].Live?;
  }

  /**
    With the corrected helper, appending the whole live prefix to itself
    doubles it; as written the same call on a non-empty owner is
    undefined behaviour (`ExtendFromWithinAsWrittenIsUndefined`).
   */
  lemma ExtendFromWithinWholeDoubles<T>(o: Owner<T>, reserve: Reserve<T>)
    requires Valid(o) && o.len <= USIZE_MAX
    requires Reserved(o, o.len, reserve(o, o.len)) && reserve(o, o.len).Ok?
    ensures var r := ExtendFromWithin(o, Unbounded, Unbounded, reserve);
      r.Ok? && AsSlice(r.value) == AsSlice(o) + AsSlice(o)
  {
    SliceRangeFullAndEmpty(o.len, 0);
    assert AsSlice(o)[0..o.len] == AsSlice(o);
  }
}
