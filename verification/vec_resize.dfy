/**
  `resize` and `resize_with`.

  Both grow by writing straight into the slots past `len` and then setting
  `len`; both shrink through `truncate_unchecked`. As written neither calls
  `reserve` first, so growing past the allocation writes out of bounds.
  `Resize` and `ResizeWith` are the evidently intended versions, which
  reserve the missing room first as every other growing default does.

  `resize` clones `value` into every new slot but the last, which receives
  `value` itself; `clone` stands for `T::clone`. The `resize_with`
  generator is stateful in Rust; here `gen(k)` is the value its `k`-th
  call returns.
 */
module VecResize {
  import opened Outcomes
  import opened Slots
  import opened SliceOwner
  import opened VecPrimitives

  /**
    `for i in lo..hi { ptr.add(i).write(x(calls + (i - lo))) }`: the `k`-th
    write stores `x(calls + k)`. The first write past the allocation is
    undefined behaviour.
   */
  function WriteEach<T>(s: seq<Slot<T>>, lo: nat, hi: nat, x: nat -> T, calls: nat): (r: Outcome<seq<Slot<T>>>)
    requires lo <= hi && lo <= |s|
    ensures !r.Fail?
    ensures r.Undefined? <==> hi > |s|
    ensures r.Undefined? ==> r.ub == OutOfBounds
    ensures r.Ok? ==> |r.value| == |s|
    ensures r.Ok? ==> forall j :: 0 <= j < |s| ==> r.value[j] == (if lo <= j < hi then Live(x(calls + (j - lo))) else s[j])
    decreases hi - lo
  {
    if lo == hi then Ok(s)
    else if lo == |s| then Undefined(OutOfBounds)
    else WriteEach(Write(s, lo, x(calls)), lo + 1, hi, x, calls + 1)
  }

  /** `n` clones of `value` followed by `value` itself. */
  function ClonesThen<T>(value: T, clone: T -> T, n: nat): seq<T> {
    seq(n, _ => clone(value)) + [value]
  }

  /** The first `n` values a generator returns, in call order. */
  function Generated<T>(gen: nat -> T, n: nat): seq<T> {
    seq(n, k requires 0 <= k < n => gen(k))
  }

  /** `resize` as written: grows without `reserve`. */
  function ResizeAsWritten<T>(o: Owner<T>, newLen: usize, value: T, clone: T -> T): (r: Outcome<Owner<T>>)
    requires Valid(o)
    ensures !r.Fail?
    ensures r.Undefined? <==> o.len < newLen && newLen > |o.slots|
    ensures r.Undefined? ==> r.ub == OutOfBounds
    ensures r.Ok? ==> |r.value.slots| == |o.slots|
    ensures o.len < newLen <= |o.slots| ==>
              r.Ok? && Appended(o, r.value, ClonesThen(value, clone, newLen - o.len - 1))
    ensures newLen <= o.len ==>
              && r.Ok? && Valid(r.value)
              && AsSlice(r.value) == AsSlice(o)[..newLen]
              && r.value.dropped == o.dropped + AsSlice(o)[newLen..]
  {
    if newLen > o.len then
      var last := newLen - 1;
      var s :- WriteEach(o.slots, o.len, last, _ => clone(value), 0);
      if AsMutPtr(o) + last >= |s| then Undefined(OutOfBounds)
      else
        var r := SetLen(o.(slots := Write(s, AsMutPtr(o) + last, value)), newLen);
        SliceIs(r, AsSlice(o) + ClonesThen(value, clone, newLen - o.len - 1));
        Ok(r)
    else
      Ok(TruncateUnchecked(o, newLen))
  }

  /** `resize` as intended: reserves the missing room before growing. */
  function Resize<T>(o: Owner<T>, newLen: usize, value: T, clone: T -> T, reserve: Reserve<T>): (r: Outcome<Owner<T>>)
    requires Valid(o)
    requires newLen > o.len ==> Reserved(o, newLen - o.len, reserve(o, newLen - o.len))
    ensures !r.Undefined?
    ensures newLen > o.len && reserve(o, newLen - o.len).Fail? ==> r == Fail(reserve(o, newLen - o.len).panic)
    ensures newLen > o.len && reserve(o, newLen - o.len).Ok? ==>
              r.Ok? && Appended(o, r.value, ClonesThen(value, clone, newLen - o.len - 1))
    ensures newLen <= o.len ==>
              && r.Ok? && Valid(r.value)
              && AsSlice(r.value) == AsSlice(o)[..newLen]
              && r.value.dropped == o.dropped + AsSlice(o)[newLen..]
  {
    if newLen > o.len then
      var o1 :- reserve(o, newLen - o.len);
      ResizeAsWritten(o1, newLen, value, clone)
    else
      ResizeAsWritten(o, newLen, value, clone)
  }

  /** `resize_with` as written: grows without `reserve`. */
  function ResizeWithAsWritten<T>(o: Owner<T>, newLen: usize, gen: nat -> T): (r: Outcome<Owner<T>>)
    requires Valid(o)
    ensures !r.Fail?
    ensures r.Undefined? <==> o.len < newLen && newLen > |o.slots|
    ensures r.Undefined? ==> r.ub == OutOfBounds
    ensures r.Ok? ==> |r.value.slots| == |o.slots|
    ensures o.len < newLen <= |o.slots| ==> r.Ok? && Appended(o, r.value, Generated(gen, newLen - o.len))
    ensures newLen <= o.len ==>
              && r.Ok? && Valid(r.value)
              && AsSlice(r.value) == AsSlice(o)[..newLen]
              && r.value.dropped == o.dropped + AsSlice(o)[newLen..]
  {
    if newLen > o.len then
      var s :- WriteEach(o.slots, AsMutPtr(o) + o.len, AsMutPtr(o) + newLen, gen, 0);
      var r := SetLen(o.(slots := s), newLen);
      SliceIs(r, AsSlice(o) + Generated(gen, newLen - o.len));
      Ok(r)
    else
      Ok(TruncateUnchecked(o, newLen))
  }

  /** `resize_with` as intended: reserves the missing room before growing. */
  function ResizeWith<T>(o: Owner<T>, newLen: usize, gen: nat -> T, reserve: Reserve<T>): (r: Outcome<Owner<T>>)
    requires Valid(o)
    requires newLen > o.len ==> Reserved(o, newLen - o.len, reserve(o, newLen - o.len))
    ensures !r.Undefined?
    ensures newLen > o.len && reserve(o, newLen - o.len).Fail? ==> r == Fail(reserve(o, newLen - o.len).panic)
    ensures newLen > o.len && reserve(o, newLen - o.len).Ok? ==>
              r.Ok? && Appended(o, r.value, Generated(gen, newLen - o.len))
    ensures newLen <= o.len ==>
              && r.Ok? && Valid(r.value)
              && AsSlice(r.value) == AsSlice(o)[..newLen]
              && r.value.dropped == o.dropped + AsSlice(o)[newLen..]
  {
    if newLen > o.len then
      var o1 :- reserve(o, newLen - o.len);
      ResizeWithAsWritten(o1, newLen, gen)
    else
      ResizeWithAsWritten(o, newLen, gen)
  }

  /**
    Growing a full two-element array owner by one: the code as written
    writes past the allocation, while the intended version asks the backing
    first (here a backing that cannot grow) and panics.
   */
  lemma ResizeFullOwnerExample()
    ensures ResizeAsWritten(ArrayOwner([1, 2]), 3, 0, (x: int) => x) == Undefined(OutOfBounds)
    ensures ResizeWithAsWritten(ArrayOwner([1, 2]), 3, (k: nat) => k as int) == Undefined(OutOfBounds)
    ensures Resize(ArrayOwner([1, 2]), 3, 0, (x: int) => x, (o, n) => Fail(CannotReserve)) == Fail(CannotReserve)
  {
  }

  /** Resizing to a larger length and truncating back restores the elements and drops exactly the added ones. */
  lemma ResizeThenTruncate<T>(o: Owner<T>, newLen: usize, value: T, clone: T -> T)
    requires Valid(o) && o.len < newLen <= |o.slots|
    ensures var r := ResizeAsWritten(o, newLen, value, clone);
      && r.Ok?
      && AsSlice(TruncateUnchecked(r.value, o.len)) == AsSlice(o)
      && TruncateUnchecked(r.value, o.len).dropped == o.dropped + ClonesThen(value, clone, newLen - o.len - 1)
  {
    var r := ResizeAsWritten(o, newLen, value, clone).value;
    var tail := ClonesThen(value, clone, newLen - o.len - 1);
    assert AsSlice(r) == AsSlice(o) + tail;
    assert AsSlice(r)[..o.len] == AsSlice(o);
    assert AsSlice(r)[o.len..] == tail;
  }
}
