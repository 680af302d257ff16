/**
  The length-mutating primitives of the `Vec` trait and their checked
  wrappers: push, pop, swap_remove, remove, clear, truncate and insert.

  Each is written with the raw operations the trait's default methods use
  (`read`, `write`, `copy_to`/`copy_from`, `drop_in_place`, `set_len`).
  The backing's `reserve` is a parameter; each checked operation relies only on
  the call it makes: that call either panics or hands back the same live
  prefix with room for `additional` more.
 */
module VecPrimitives {
  import opened Outcomes
  import opened Slots
  import opened SliceOwner

  /** A backing's `reserve(additional)`. */
  type Reserve<!T> = (Owner<T>, nat) -> Outcome<Owner<T>>

  /** What a caller of `reserve` relies on: no undefined behaviour, and on return the same elements with room for `n` more. */
  ghost predicate Reserved<T>(o: Owner<T>, n: nat, r: Outcome<Owner<T>>)
    requires Valid(o)
  {
    && !r.Undefined?
    && (r.Ok? ==>
          && Valid(r.value)
          && AsSlice(r.value) == AsSlice(o)
          && r.value.dropped == o.dropped
          && o.len + n <= |r.value.slots|)
  }

  /** `push_unchecked`: writes at `len`, then extends `len` by one. */
  function PushUnchecked<T>(o: Owner<T>, v: T): (r: Owner<T>)
    requires Valid(o) && o.len < |o.slots|
    ensures Valid(r) && AsSlice(r) == AsSlice(o) + [v]
    ensures |r.slots| == |o.slots| && r.dropped == o.dropped
  {
    var r := SetLen(o.(slots := Write(o.slots, AsMutPtr(o) + o.len, v)), o.len + 1);
    SliceIs(r, AsSlice(o) + [v]);
    r
  }

  /** `push`: reserves one slot, then pushes. */
  function Push<T>(o: Owner<T>, v: T, reserve: Reserve<T>): (r: Outcome<Owner<T>>)
    requires Valid(o) && Reserved(o, 1, reserve(o, 1))
    ensures !r.Undefined?
    ensures reserve(o, 1).Fail? ==> r == Fail(reserve(o, 1).panic)
    ensures reserve(o, 1).Ok? ==> r.Ok? && Valid(r.value) && AsSlice(r.value) == AsSlice(o) + [v] && r.value.dropped == o.dropped
  {
    var o1 :- reserve(o, 1);
    Ok(PushUnchecked(o1, v))
  }

  /** `pop_unchecked`: shrinks `len` by one, then reads the slot just past the new end. */
  function PopUnchecked<T>(o: Owner<T>): (r: (Owner<T>, T))
    requires Valid(o) && o.len > 0
    ensures Valid(r.0) && AsSlice(r.0) == AsSlice(o)[..o.len - 1] && r.1 == AsSlice(o)[o.len - 1]
    ensures |r.0.slots| == |o.slots| && r.0.dropped == o.dropped
  {
    var o1 := SetLen(o, o.len - 1);
    var (o2, v) := ReadAt(o1, AsMutPtr(o1) + o1.len);
    SliceIs(o2, AsSlice(o)[..o.len - 1]);
    (o2, v)
  }

  /** `pop`: `None` on an empty owner, otherwise the last element. */
  function Pop<T>(o: Owner<T>): (r: (Owner<T>, Option<T>))
    requires Valid(o)
    ensures Valid(r.0) && r.0.dropped == o.dropped
    ensures o.len == 0 ==> r == (o, None)
    ensures o.len > 0 ==> r.1 == Some(AsSlice(o)[o.len - 1]) && AsSlice(r.0) == AsSlice(o)[..o.len - 1]
  {
    if o.len > 0 then
      var (o1, v) := PopUnchecked(o);
      (o1, Some(v))
    else
      (o, None)
  }

  /** `push_unchecked` followed by `pop` hands the pushed value back and restores the elements. */
  lemma PushPopRoundTrip<T>(o: Owner<T>, v: T)
    requires Valid(o) && o.len < |o.slots|
    ensures Pop(PushUnchecked(o, v)).1 == Some(v)
    ensures AsSlice(Pop(PushUnchecked(o, v)).0) == AsSlice(o)
  {
    var p := PushUnchecked(o, v);
    assert AsSlice(p)[..p.len - 1] == AsSlice(o);
  }

  /** `swap_remove_unchecked` as written: line 98 copies slot `index` INTO slot `len - 1`. */
  function SwapRemoveUncheckedAsWritten<T>(o: Owner<T>, index: nat): (r: (Owner<T>, T))
    requires Valid(o) && index < o.len
    ensures r.1 == AsSlice(o)[index] && r.0.len == o.len - 1 && r.0.dropped == o.dropped
  {
    var (o1, value) := ReadAt(o, AsPtr(o) + index);
    var base := AsMutPtr(o1);
    var newLen := o1.len - 1;
    var o2 := o1.(slots := CopyFrom(o1.slots, base + newLen, base + index, 1));
    (SetLen(o2, newLen), value)
  }

  /**
    Removing any element but the last leaves the moved-out slot `index` inside
    the live prefix, and overwrites the only slot that held the last element.
   */
  lemma SwapRemoveAsWrittenLosesLast<T>(o: Owner<T>, index: nat)
    requires Valid(o) && index < o.len
    ensures var r := SwapRemoveUncheckedAsWritten(o, index).0;
      && (index < o.len - 1 ==> !Valid(r) && r.slots[index] == Uninit && r.slots[o.len - 1] == Uninit)
      && (index == o.len - 1 ==> Valid(r) && AsSlice(r) == AsSlice(o)[..o.len - 1])
  {
    var r := SwapRemoveUncheckedAsWritten(o, index).0;
    if index == o.len - 1 {
      SliceIs(r, AsSlice(o)[..o.len - 1]);
    } else {
      assert r.slots[index] == Uninit;
      assert !AllLive(r.slots, 0, r.len);
    }
  }

  /** On `[1, 2, 3]`, removing index 0 leaves `[_, 2]` with slot 0 empty; the intended result is `[3, 2]`. */
  lemma SwapRemoveAsWrittenExample()
    ensures var o := ArrayOwner([1, 2, 3]);
      && SwapRemoveUncheckedAsWritten(o, 0).0.slots[..2] == [Uninit, Live(2)]
      && AsSlice(SwapRemoveUnchecked(o, 0).0) == [3, 2]
  {
    var o := ArrayOwner([1, 2, 3]);
    var r := SwapRemoveUncheckedAsWritten(o, 0).0;
    assert r.slots[..2] == [Uninit, Live(2)];
  }

  /** `swap_remove_unchecked` as intended: the last element fills the hole at `index`. */
  function SwapRemoveUnchecked<T>(o: Owner<T>, index: nat): (r: (Owner<T>, T))
    requires Valid(o) && index < o.len
    ensures r.1 == AsSlice(o)[index]
    ensures Valid(r.0) && AsSlice(r.0) == AsSlice(o)[index := AsSlice(o)[o.len - 1]][..o.len - 1]
    ensures |r.0.slots| == |o.slots| && r.0.dropped == o.dropped
  {
    var xs := AsSlice(o);
    var (o1, value) := ReadAt(o, AsPtr(o) + index);
    var base := AsMutPtr(o1);
    var newLen := o1.len - 1;
    var o2 := o1.(slots := CopyFrom(o1.slots, base + index, base + newLen, 1));
    var r := SetLen(o2, newLen);
    SliceIs(r, xs[index := xs[o.len - 1]][..o.len - 1]);
    (r, value)
  }

  /** `swap_remove`: panics iff `index >= len`; otherwise removes in O(1) without keeping order. */
  function SwapRemove<T>(o: Owner<T>, index: nat): (r: Outcome<(Owner<T>, T)>)
    requires Valid(o)
    ensures !r.Undefined?
    ensures r.Fail? <==> index >= o.len
    ensures r.Fail? ==> r.panic == SwapRemoveIndex(index, o.len)
    ensures r.Ok? ==> && r.value.1 == AsSlice(o)[index]
                      && Valid(r.value.0)
                      && AsSlice(r.value.0) == AsSlice(o)[index := AsSlice(o)[o.len - 1]][..o.len - 1]
  {
    if index >= o.len then Fail(SwapRemoveIndex(index, o.len))
    else Ok(SwapRemoveUnchecked(o, index))
  }

  /** `remove_unchecked`: shrinks `len`, reads slot `index`, shifts the rest of the prefix left by one. */
  function RemoveUnchecked<T>(o: Owner<T>, index: nat): (r: (Owner<T>, T))
    requires Valid(o) && index < o.len
    ensures r.1 == AsSlice(o)[index]
    ensures Valid(r.0) && AsSlice(r.0) == AsSlice(o)[..index] + AsSlice(o)[index + 1..]
    ensures |r.0.slots| == |o.slots| && r.0.dropped == o.dropped
  {
    var xs := AsSlice(o);
    var newLen := o.len - 1;
    var o1 := SetLen(o, newLen);
    var p := AsMutPtr(o1) + index;
    var (o2, res) := ReadAt(o1, p);
    var o3 := o2.(slots := CopyFrom(o2.slots, p, p + 1, newLen - index));
    SliceIs(o3, xs[..index] + xs[index + 1..]);
    (o3, res)
  }

  /** `remove`: panics iff `index >= len`; otherwise removes preserving order. */
  function Remove<T>(o: Owner<T>, index: nat): (r: Outcome<(Owner<T>, T)>)
    requires Valid(o)
    ensures !r.Undefined?
    ensures r.Fail? <==> index >= o.len
    ensures r.Fail? ==> r.panic == RemovalIndex(index, o.len)
    ensures r.Ok? ==> && r.value.1 == AsSlice(o)[index]
                      && Valid(r.value.0)
                      && AsSlice(r.value.0) == AsSlice(o)[..index] + AsSlice(o)[index + 1..]
  {
    if index >= o.len then Fail(RemovalIndex(index, o.len))
    else Ok(RemoveUnchecked(o, index))
  }

  /** `clear`: sets `len` to 0, then drops every former element once, front to back. */
  function Clear<T>(o: Owner<T>): (r: Owner<T>)
    requires Valid(o)
    ensures Valid(r) && r.len == 0
    ensures r.dropped == o.dropped + AsSlice(o)
  {
    var elems := AsMutPtr(o);
    var n := o.len;
    var o1 := SetLen(o, 0);
    DropInPlace(o1, elems, elems + n)
  }

  /** `truncate_unchecked`: sets `len` to `n` first, then drops the discarded suffix once, front to back. */
  function TruncateUnchecked<T>(o: Owner<T>, n: nat): (r: Owner<T>)
    requires Valid(o) && n <= o.len
    ensures Valid(r) && AsSlice(r) == AsSlice(o)[..n]
    ensures r.dropped == o.dropped + AsSlice(o)[n..]
    ensures |r.slots| == |o.slots|
  {
    var xs := AsSlice(o);
    var remaining := o.len - n;
    var p := AsMutPtr(o) + n;
    var o1 := SetLen(o, n);
    var r := DropInPlace(o1, p, p + remaining);
    SliceIs(r, xs[..n]);
    assert Values(o.slots, n, n + remaining) == xs[n..];
    r
  }

  /** `truncate`: a no-op when `n > len`. */
  function Truncate<T>(o: Owner<T>, n: nat): (r: Owner<T>)
    requires Valid(o)
    ensures Valid(r)
    ensures n > o.len ==> r == o
    ensures n <= o.len ==> AsSlice(r) == AsSlice(o)[..n] && r.dropped == o.dropped + AsSlice(o)[n..]
  {
    if n > o.len then o else TruncateUnchecked(o, n)
  }

  /** `clear` is `truncate(0)`: both drop every element once and leave nothing live. */
  lemma ClearIsTruncateZero<T>(o: Owner<T>)
    requires Valid(o)
    ensures Clear(o) == Truncate(o, 0)
  {
  }

  /** `insert_unchecked`: shifts `[index, len)` one slot right, writes at `index`, extends `len`. */
  function InsertUnchecked<T>(o: Owner<T>, index: nat, v: T): (r: Owner<T>)
    requires Valid(o) && index <= o.len < |o.slots|
    ensures Valid(r) && AsSlice(r) == AsSlice(o)[..index] + [v] + AsSlice(o)[index..]
    ensures |r.slots| == |o.slots| && r.dropped == o.dropped
  {
    var xs := AsSlice(o);
    var p := AsMutPtr(o) + index;
    var s1 := CopyTo(o.slots, p, p + 1, o.len - index);
    var s2 := Write(s1, p, v);
    var r := SetLen(o.(slots := s2), o.len + 1);
    SliceIs(r, xs[..index] + [v] + xs[index..]);
    r
  }

  /** `insert`: the index check runs before `reserve`; the shift is skipped when inserting at the end. */
  function Insert<T>(o: Owner<T>, index: nat, v: T, reserve: Reserve<T>): (r: Outcome<Owner<T>>)
    requires Valid(o) && Reserved(o, 1, reserve(o, 1))
    ensures !r.Undefined?
    ensures index > o.len ==> r == Fail(InsertionIndex(index, o.len))
    ensures index <= o.len && reserve(o, 1).Fail? ==> r == Fail(reserve(o, 1).panic)
    ensures index <= o.len && reserve(o, 1).Ok? ==>
              && r.Ok? && Valid(r.value)
              && AsSlice(r.value) == AsSlice(o)[..index] + [v] + AsSlice(o)[index..]
              && r.value.dropped == o.dropped
  {
    var len := o.len;
    if index > len then Fail(InsertionIndex(index, len))
    else
      var o1 :- reserve(o, 1);
      var xs := AsSlice(o1);
      var p := AsMutPtr(o1) + index;
      var s1 := if index < len then CopyTo(o1.slots, p, p + 1, len - index) else o1.slots;
      var s2 := Write(s1, p, v);
      var r := SetLen(o1.(slots := s2), len + 1);
      SliceIs(r, xs[..index] + [v] + xs[index..]);
      Ok(r)
  }

  /** `insert_unchecked(i, v)` then `remove_unchecked(i)` returns `v` and restores the elements. */
  lemma InsertRemoveRoundTrip<T>(o: Owner<T>, i: nat, v: T)
    requires Valid(o) && i <= o.len < |o.slots|
    ensures RemoveUnchecked(InsertUnchecked(o, i, v), i).1 == v
    ensures AsSlice(RemoveUnchecked(InsertUnchecked(o, i, v), i).0) == AsSlice(o)
    ensures RemoveUnchecked(InsertUnchecked(o, i, v), i).0.dropped == o.dropped
  {
    var xs := AsSlice(o);
    var ys := xs[..i] + [v] + xs[i..];
    assert ys[i] == v;
    assert ys[..i] + ys[i + 1..] == xs;
  }
}
