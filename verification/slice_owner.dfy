/**
  The `SliceOwner` capability: an owner of a contiguous run of slots whose
  first `len` slots hold its elements.

  An owner is modelled as its allocation (`slots`, whose length is the
  capacity of the allocation), its length field, and the log of the values
  it has dropped in place so far, in drop order. Pointers into the
  allocation are slot offsets; the base pointer is offset 0.
 */
module SliceOwner {
  import opened Slots

  datatype Owner<T> = Owner(slots: seq<Slot<T>>, len: nat, dropped: seq<T>)

  /** The central invariant: the live prefix `[0, len)` fits in the allocation and every slot in it holds a value. */
  predicate Valid<T>(o: Owner<T>) {
    o.len <= |o.slots| && AllLive(o.slots, 0, o.len)
  }

  /** `as_ptr`: the base of the allocation. */
  function AsPtr<T>(o: Owner<T>): nat {
    0
  }

  /** `as_mut_ptr`: the default returns the same base as `as_ptr`. */
  function AsMutPtr<T>(o: Owner<T>): (p: nat)
    ensures p == AsPtr(o)
  {
    AsPtr(o)
  }

  /** `as_slice`: the `len` values starting at `as_ptr`. */
  function AsSlice<T>(o: Owner<T>): (r: seq<T>)
    requires Valid(o)
    ensures |r| == o.len
    ensures forall i :: 0 <= i < o.len ==> o.slots[AsPtr(o) + i] == Live(r[i])
  {
    Values(o.slots, AsPtr(o), AsPtr(o) + o.len)
  }

  /** `as_mut_slice`: the `len` values starting at `as_mut_ptr`. */
  function AsMutSlice<T>(o: Owner<T>): (r: seq<T>)
    requires Valid(o)
    ensures |r| == o.len
    ensures forall i :: 0 <= i < o.len ==> o.slots[AsMutPtr(o) + i] == Live(r[i])
  {
    Values(o.slots, AsMutPtr(o), AsMutPtr(o) + o.len)
  }

  /** The mutable and the shared view cover the same region and show the same values. */
  lemma MutSliceIsSlice<T>(o: Owner<T>)
    requires Valid(o)
    ensures AsMutPtr(o) == AsPtr(o)
    ensures AsMutSlice(o) == AsSlice(o)
  {
  }

  /** The `[T; N]` owner: `len` is `N` and every slot is live. */
  function ArrayOwner<T>(a: seq<T>): (o: Owner<T>)
    ensures Valid(o) && o.len == |a| == |o.slots|
    ensures AsSlice(o) == a && AsMutSlice(o) == a
  {
    Owner(LiveSlots(a), |a|, [])
  }

  /** Workhorse: an owner whose first `|xs|` slots hold `xs` is valid with live prefix `xs`. */
  lemma SliceIs<T>(o: Owner<T>, xs: seq<T>)
    requires o.len == |xs| <= |o.slots|
    requires forall i :: 0 <= i < |xs| ==> o.slots[i] == Live(xs[i])
    ensures Valid(o) && AsSlice(o) == xs
  {
    assert AllLive(o.slots, 0, o.len);
    var s := AsSlice(o);
    assert forall i :: 0 <= i < |xs| ==> s[i] == xs[i];
  }

  /** `r` holds the elements of `o` followed by `tail`, and nothing was dropped on the way. */
  ghost predicate Appended<T>(o: Owner<T>, r: Owner<T>, tail: seq<T>)
    requires Valid(o)
  {
    Valid(r) && AsSlice(r) == AsSlice(o) + tail && r.dropped == o.dropped
  }

  /** `set_len`: stores the new length; touches no slot. */
  function SetLen<T>(o: Owner<T>, n: nat): Owner<T> {
    o.(len := n)
  }

  /** `ptr.add(i).read()`: moves the value out of slot `i`. */
  function ReadAt<T>(o: Owner<T>, i: nat): (r: (Owner<T>, T))
    requires i < |o.slots| && o.slots[i].Live?
    ensures r.1 == o.slots[i].v
    ensures r.0 == o.(slots := o.slots[i := Uninit])
  {
    (o.(slots := o.slots[i := Uninit]), o.slots[i].v)
  }

  /** `drop_in_place` on slots `[lo, hi)`: drops their values front to back. */
  function DropInPlace<T>(o: Owner<T>, lo: nat, hi: nat): (r: Owner<T>)
    requires lo <= hi <= |o.slots| && AllLive(o.slots, lo, hi)
    ensures r.len == o.len && |r.slots| == |o.slots|
    ensures r.dropped == o.dropped + Values(o.slots, lo, hi)
    ensures forall i :: 0 <= i < |o.slots| ==> r.slots[i] == (if lo <= i < hi then Uninit else o.slots[i])
  {
    Owner(Vacate(o.slots, lo, hi), o.len, o.dropped + Values(o.slots, lo, hi))
  }
}
