/**
  `Vec::drain` and the `Drain` iterator.

  A drain over `start..end` hands out the elements of that range from either
  end, moving each one out of its slot, and on drop destroys the ones not
  handed out and moves the tail `[end, len)` back to close the gap. The
  slice iterator inside `Drain` is modelled by its two cursors `front` and
  `back`: the elements it has not yet produced sit in slots `[front, back)`.

  `drain` as written never lowers the owner's `len` to `start`, while the
  drop guard appends the tail after the owner's current `len`; both the
  code as written (`DrainAsWritten`) and the intended construction
  (`DrainOf`, which sets `len` to `start` first) are modelled.
 */
module Drains {
  import opened Outcomes
  import opened Slots
  import opened SliceOwner
  import opened Ranges

  /** The fields of `Drain`, with the slice iterator as its cursors: slots `[front, back)` are still to be produced. */
  datatype Drain<T> = Drain(vec: Owner<T>, tailStart: nat, tailLen: nat, front: nat, back: nat)

  /** The cursors lie in the allocation and every slot between them still holds its value. */
  predicate Cursors<T>(d: Drain<T>) {
    d.front <= d.back <= |d.vec.slots| && AllLive(d.vec.slots, d.front, d.back)
  }

  /**
    Every state of a drain of `[start, end)` taken from `o` whose owner shows
    length `len`: the tail is recorded, the slots still to be produced and all
    slots outside the range hold what they held in `o`, and the slots already
    produced are empty.
   */
  ghost predicate DrainState<T>(o: Owner<T>, start: nat, end: nat, len: nat, d: Drain<T>) {
    && Valid(o) && start <= end <= o.len
    && d.vec.len == len && |d.vec.slots| == |o.slots|
    && d.tailStart == end && d.tailLen == o.len - end
    && start <= d.front <= d.back <= end
    && forall i :: 0 <= i < |o.slots| ==>
         d.vec.slots[i] == (if start <= i < d.front || d.back <= i < end then Uninit else o.slots[i])
  }

  /** Every drain state has well-formed cursors, and they cover elements of `o`. */
  lemma StateCursors<T>(o: Owner<T>, start: nat, end: nat, len: nat, d: Drain<T>)
    requires DrainState(o, start, end, len, d)
    ensures Cursors(d)
    ensures forall i :: d.front <= i < d.back ==> d.vec.slots[i] == Live(AsSlice(o)[i])
  {
  }

  /** `drain` as written: resolves the range, records the tail, and leaves `len` as it was. */
  function DrainAsWritten<T>(o: Owner<T>, lo: Bound, hi: Bound): (r: Outcome<Drain<T>>)
    requires Valid(o) && o.len <= USIZE_MAX
    ensures SliceRange(lo, hi, o.len).Fail? ==> r == Fail(SliceRange(lo, hi, o.len).panic)
    ensures SliceRange(lo, hi, o.len).Ok? ==>
              var rg := SliceRange(lo, hi, o.len).value;
              && r.Ok? && DrainState(o, rg.start, rg.end, o.len, r.value)
              && r.value.front == rg.start && r.value.back == rg.end
              && r.value.vec.dropped == o.dropped
  {
    var rg :- SliceRange(lo, hi, o.len);
    Ok(Drain(o, rg.end, o.len - rg.end, rg.start, rg.end))
  }

  /** `drain` as intended: as written, but the owner's `len` is first lowered to `start`. */
  function DrainOf<T>(o: Owner<T>, lo: Bound, hi: Bound): (r: Outcome<Drain<T>>)
    requires Valid(o) && o.len <= USIZE_MAX
    ensures SliceRange(lo, hi, o.len).Fail? ==> r == Fail(SliceRange(lo, hi, o.len).panic)
    ensures SliceRange(lo, hi, o.len).Ok? ==>
              var rg := SliceRange(lo, hi, o.len).value;
              && r.Ok? && DrainState(o, rg.start, rg.end, rg.start, r.value)
              && r.value.front == rg.start && r.value.back == rg.end
              && r.value.vec.dropped == o.dropped
  {
    var rg :- SliceRange(lo, hi, o.len);
    Ok(Drain(SetLen(o, rg.start), rg.end, o.len - rg.end, rg.start, rg.end))
  }

  /** `next`: moves the element at the front cursor out; `None` once the cursors have met. */
  function Next<T>(d: Drain<T>): (r: (Drain<T>, Option<T>))
    requires Cursors(d)
    ensures Cursors(r.0)
    ensures r.0.back == d.back && r.0.tailStart == d.tailStart && r.0.tailLen == d.tailLen
    ensures r.0.vec.len == d.vec.len && r.0.vec.dropped == d.vec.dropped
    ensures d.front == d.back ==> r == (d, None)
    ensures d.front < d.back ==> r.1 == Some(d.vec.slots[d.front].v) && r.0.front == d.front + 1
  {
    if d.front == d.back then (d, None)
    else
      var (v, x) := ReadAt(d.vec, d.front);
      (d.(vec := v, front := d.front + 1), Some(x))
  }

  /** `next_back`: moves the element just before the back cursor out; `None` once the cursors have met. */
  function NextBack<T>(d: Drain<T>): (r: (Drain<T>, Option<T>))
    requires Cursors(d)
    ensures Cursors(r.0)
    ensures r.0.front == d.front && r.0.tailStart == d.tailStart && r.0.tailLen == d.tailLen
    ensures r.0.vec.len == d.vec.len && r.0.vec.dropped == d.vec.dropped
    ensures d.front == d.back ==> r == (d, None)
    ensures d.front < d.back ==> r.1 == Some(d.vec.slots[d.back - 1].v) && r.0.back == d.back - 1
  {
    if d.front == d.back then (d, None)
    else
      var (v, x) := ReadAt(d.vec, d.back - 1);
      (d.(vec := v, back := d.back - 1), Some(x))
  }

  /** One step of the first element of the drained range from the front yields it, and the state is kept. */
  lemma NextKeepsState<T>(o: Owner<T>, start: nat, end: nat, len: nat, d: Drain<T>)
    requires DrainState(o, start, end, len, d)
    ensures Cursors(d)
    ensures DrainState(o, start, end, len, Next(d).0)
    ensures Next(d).1 == if d.front < d.back then Some(AsSlice(o)[d.front]) else None
  {
    StateCursors(o, start, end, len, d);
    if d.front < d.back {
      var r := Next(d).0;
      assert r.vec.slots == d.vec.slots[d.front := Uninit];
      forall i | 0 <= i < |o.slots|
        ensures r.vec.slots[i] == (if start <= i < r.front || r.back <= i < end then Uninit else o.slots[i])
      {
      }
    }
  }

  /** A step from the back yields the last element still in the range, and the state is kept. */
  lemma NextBackKeepsState<T>(o: Owner<T>, start: nat, end: nat, len: nat, d: Drain<T>)
    requires DrainState(o, start, end, len, d)
    ensures Cursors(d)
    ensures DrainState(o, start, end, len, NextBack(d).0)
    ensures NextBack(d).1 == if d.front < d.back then Some(AsSlice(o)[d.back - 1]) else None
  {
    StateCursors(o, start, end, len, d);
    if d.front < d.back {
      var r := NextBack(d).0;
      assert r.vec.slots == d.vec.slots[d.back - 1 := Uninit];
      forall i | 0 <= i < |o.slots|
        ensures r.vec.slots[i] == (if start <= i < r.front || r.back <= i < end then Uninit else o.slots[i])
      {
      }
    }
  }

  /** Which end of the drain a call takes from. */
  datatype End = Front | Back

  function Advance<T>(d: Drain<T>, e: End): (r: (Drain<T>, Option<T>))
    requires Cursors(d)
    ensures Cursors(r.0)
  {
    if e.Front? then Next(d) else NextBack(d)
  }

  /** The elements of `s` in reverse order. */
  function Reverse<T>(s: seq<T>): (r: seq<T>)
    ensures |r| == |s|
  {
    if |s| == 0 then [] else [s[|s| - 1]] + Reverse(s[..|s| - 1])
  }

  /**
    A sequence of `next`/`next_back` calls: the final drain, the values the
    front calls returned and the values the back calls returned, in call order.
   */
  function Run<T>(d: Drain<T>, steps: seq<End>): (r: (Drain<T>, seq<T>, seq<T>))
    requires Cursors(d)
    ensures Cursors(r.0)
    decreases |steps|
  {
    if |steps| == 0 then (d, [], [])
    else
      var (d1, x) := Advance(d, steps[0]);
      var (d2, fs, bs) := Run(d1, steps[1..]);
      match x
      case None => (d2, fs, bs)
      case Some(v) => if steps[0].Front? then (d2, [v] + fs, bs) else (d2, fs, [v] + bs)
  }

  /** Any sequence of calls keeps the drain state, moves the cursors only inwards and destroys nothing. */
  lemma {:induction false} RunKeepsState<T>(o: Owner<T>, start: nat, end: nat, len: nat, d: Drain<T>, steps: seq<End>)
    requires DrainState(o, start, end, len, d)
    ensures Cursors(d)
    ensures DrainState(o, start, end, len, Run(d, steps).0)
    ensures Run(d, steps).0.vec.dropped == d.vec.dropped
    ensures d.front <= Run(d, steps).0.front && Run(d, steps).0.back <= d.back
    decreases |steps|
  {
    StateCursors(o, start, end, len, d);
    if |steps| > 0 {
      var a := Advance(d, steps[0]);
      if steps[0].Front? {
        NextKeepsState(o, start, end, len, d);
      } else {
        NextBackKeepsState(o, start, end, len, d);
      }
      RunKeepsState(o, start, end, len, a.0, steps[1..]);
      RunUnfold(d, steps);
    }
  }

  /** The slots between the cursors hold `xs` at the same indices. */
  ghost predicate Pending<T>(xs: seq<T>, d: Drain<T>) {
    && d.front <= d.back <= |xs| && d.back <= |d.vec.slots|
    && forall i :: d.front <= i < d.back ==> d.vec.slots[i] == Live(xs[i])
  }

  /** One call yields the value at the cursor it moves, and the other pending slots stay as they were. */
  lemma AdvanceKeepsPending<T>(xs: seq<T>, d: Drain<T>, e: End)
    requires Pending(xs, d)
    ensures Cursors(d) && Pending(xs, Advance(d, e).0)
    ensures d.front == d.back ==> Advance(d, e) == (d, None)
    ensures d.front < d.back && e.Front? ==>
              Advance(d, e).1 == Some(xs[d.front]) && Advance(d, e).0.front == d.front + 1 && Advance(d, e).0.back == d.back
    ensures d.front < d.back && e.Back? ==>
              Advance(d, e).1 == Some(xs[d.back - 1]) && Advance(d, e).0.front == d.front && Advance(d, e).0.back == d.back - 1
  {
    assert AllLive(d.vec.slots, d.front, d.back);
  }

  /**
    Under any interleaving, the front calls return the range front to back and
    the back calls return it back to front, so no element is produced twice.
   */
  lemma {:induction false} RunYieldsInOrder<T>(xs: seq<T>, d: Drain<T>, steps: seq<End>)
    requires Pending(xs, d)
    ensures Cursors(d)
    ensures d.front <= Run(d, steps).0.front <= Run(d, steps).0.back <= d.back
    ensures Run(d, steps).1 == xs[d.front..Run(d, steps).0.front]
    ensures Run(d, steps).2 == Reverse(xs[Run(d, steps).0.back..d.back])
    decreases |steps|
  {
    AdvanceKeepsPending(xs, d, Front);
    if |steps| > 0 {
      var a := Advance(d, steps[0]);
      AdvanceKeepsPending(xs, d, steps[0]);
      RunYieldsInOrder(xs, a.0, steps[1..]);
      var rest := Run(a.0, steps[1..]);
      RunUnfold(d, steps);
      StepYields(xs, d, steps[0], a, rest, Run(d, steps));
    }
  }

  /** One call followed by a run that yields in order is a run that yields in order. */
  lemma StepYields<T>(xs: seq<T>, d: Drain<T>, e: End, a: (Drain<T>, Option<T>), rest: (Drain<T>, seq<T>, seq<T>), r: (Drain<T>, seq<T>, seq<T>))
    requires Pending(xs, d) && Cursors(d) && a == Advance(d, e) && Pending(xs, a.0)
    requires a.0.front <= rest.0.front <= rest.0.back <= a.0.back
    requires rest.1 == xs[a.0.front..rest.0.front] && rest.2 == Reverse(xs[rest.0.back..a.0.back])
    requires r.0 == rest.0
    requires r.1 == (if a.1.Some? && e.Front? then [a.1.value] + rest.1 else rest.1)
    requires r.2 == (if a.1.Some? && e.Back? then [a.1.value] + rest.2 else rest.2)
    ensures d.front <= r.0.front <= r.0.back <= d.back
    ensures r.1 == xs[d.front..r.0.front] && r.2 == Reverse(xs[r.0.back..d.back])
  {
    AdvanceKeepsPending(xs, d, e);
    if a.1.None? {
      assert a.0 == d;
    } else if e.Front? {
      FrontYield(xs, d.front, rest.0.front, rest.1);
    } else {
      BackYield(xs, rest.0.back, d.back, rest.2);
    }
  }

  /** One call, then the rest: the call's value is prepended to the list of its end. */
  lemma RunUnfold<T>(d: Drain<T>, steps: seq<End>)
    requires Cursors(d) && |steps| > 0
    ensures var a := Advance(d, steps[0]);
      var rest := Run(a.0, steps[1..]);
      && Run(d, steps).0 == rest.0
      && Run(d, steps).1 == (if a.1.Some? && steps[0].Front? then [a.1.value] + rest.1 else rest.1)
      && Run(d, steps).2 == (if a.1.Some? && steps[0].Back? then [a.1.value] + rest.2 else rest.2)
  {
  }

  /** Producing `xs[a]` before `xs[a + 1..c]` produces `xs[a..c]`. */
  lemma FrontYield<T>(xs: seq<T>, a: nat, c: nat, fs: seq<T>)
    requires a < c <= |xs| && fs == xs[a + 1..c]
    ensures [xs[a]] + fs == xs[a..c]
  {
  }

  /** Producing `xs[b - 1]` before the reverse of `xs[a..b - 1]` produces the reverse of `xs[a..b]`. */
  lemma BackYield<T>(xs: seq<T>, a: nat, b: nat, bs: seq<T>)
    requires a < b <= |xs| && bs == Reverse(xs[a..b - 1])
    ensures [xs[b - 1]] + bs == Reverse(xs[a..b])
  {
    var s := xs[a..b - 1];
    assert xs[a..b] == s + [xs[b - 1]];
    ReverseSnoc(s, xs[b - 1]);
  }

  /** Reversing `s` followed by `x` puts `x` first. */
  lemma ReverseSnoc<T>(s: seq<T>, x: T)
    ensures Reverse(s + [x]) == [x] + Reverse(s)
  {
    assert (s + [x])[..|s|] == s;
  }

  /** `size_hint`: the slice iterator's exact count of the elements still to be produced. */
  function SizeHint<T>(d: Drain<T>): (r: (nat, Option<nat>))
    requires d.front <= d.back
    ensures r.1 == Some(r.0)
  {
    (d.back - d.front, Some(d.back - d.front))
  }

  /** `ExactSizeIterator::len` as written: the length of the kept tail. */
  function LenAsWritten<T>(d: Drain<T>): (r: nat)
    ensures d.front <= d.back ==> (r == Len(d) <==> d.tailLen == d.back - d.front)
  {
    d.tailLen
  }

  /** `ExactSizeIterator::len` as intended: the number of elements still to be produced. */
  function Len<T>(d: Drain<T>): (r: nat)
    requires d.front <= d.back
    ensures r == SizeHint(d).0 && SizeHint(d).1 == Some(r)
  {
    d.back - d.front
  }

  /** The intended `len` agrees with `size_hint`, is zero exactly when the iterator is exhausted, and drops by one per element produced. */
  lemma LenCountsRemaining<T>(d: Drain<T>)
    requires Cursors(d)
    ensures Len(d) == SizeHint(d).0
    ensures Next(d).1.Some? <==> Len(d) > 0
    ensures NextBack(d).1.Some? <==> Len(d) > 0
    ensures Next(d).1.Some? ==> Len(Next(d).0) == Len(d) - 1
    ensures NextBack(d).1.Some? ==> Len(NextBack(d).0) == Len(d) - 1
  {
  }

  /** In every drain state `len` as written reports the tail's length, however many elements remain to be produced. */
  lemma LenAsWrittenIsTail<T>(o: Owner<T>, start: nat, end: nat, len: nat, d: Drain<T>)
    requires DrainState(o, start, end, len, d)
    ensures LenAsWritten(d) == o.len - end
    ensures Len(d) == d.back - d.front <= end - start
  {
  }

  /** The `DropGuard`: moves the tail to the owner's current `len` unless it is already there, then extends `len` over it. */
  function DropGuardFinish<T>(d: Drain<T>): (r: Outcome<Owner<T>>)
    ensures !r.Fail?
    ensures r.Undefined? <==>
              d.tailLen > 0 && d.tailStart != d.vec.len
              && (d.tailStart + d.tailLen > |d.vec.slots| || d.vec.len + d.tailLen > |d.vec.slots|)
    ensures r.Ok? ==> r.value.dropped == d.vec.dropped && |r.value.slots| == |d.vec.slots|
    ensures r.Ok? ==> r.value.len == d.vec.len + d.tailLen
    // the tail lands right after the current `len`; every other slot is left as it was
    ensures r.Ok? ==> forall j :: d.vec.len <= j < d.vec.len + d.tailLen && j < |d.vec.slots| ==>
              r.value.slots[j] == d.vec.slots[d.tailStart + (j - d.vec.len)]
    ensures r.Ok? ==> forall j :: 0 <= j < |d.vec.slots| && !(d.vec.len <= j < d.vec.len + d.tailLen) ==>
              r.value.slots[j] == d.vec.slots[j]
  {
    if d.tailLen > 0 then
      var start := d.vec.len;
      var tail := d.tailStart;
      var v :-
        if tail == start then Ok(d.vec)
        else if tail + d.tailLen > |d.vec.slots| || start + d.tailLen > |d.vec.slots| then Undefined(OutOfBounds)
        else Ok(d.vec.(slots := Memmove(d.vec.slots, AsPtr(d.vec) + tail, AsMutPtr(d.vec) + start, d.tailLen)));
      Ok(SetLen(v, start + d.tailLen))
    else Ok(d.vec)
  }

  /** `Drain::drop` for sized elements: destroys the elements not produced, then runs the guard. */
  function DropDrain<T>(d: Drain<T>): (r: Outcome<Owner<T>>)
    requires Cursors(d)
    ensures !r.Fail?
    // undefined exactly when the guard's tail move is
    ensures r.Undefined? <==> DropGuardFinish(d).Undefined?
    // the elements not produced are destroyed, front to back, and the tail is counted back in
    ensures r.Ok? ==>
              && r.value.dropped == d.vec.dropped + Values(d.vec.slots, d.front, d.back)
              && r.value.len == d.vec.len + d.tailLen
              && |r.value.slots| == |d.vec.slots|
  {
    var dropLen := d.back - d.front;
    if dropLen == 0 then DropGuardFinish(d)
    else DropGuardFinish(d.(vec := DropInPlace(d.vec, d.front, d.back), front := d.back))
  }

  /**
    From every state of an intended drain, the guard alone leaves the owner
    valid with the range removed. The guard is there for the unwinding path,
    where an element's destructor panics part-way; such destructors are not
    modelled, so this states the guard's effect whenever it runs and makes no
    claim about a partly finished destruction.
   */
  lemma GuardRestores<T>(o: Owner<T>, start: nat, end: nat, d: Drain<T>)
    requires DrainState(o, start, end, start, d)
    ensures DropGuardFinish(d).Ok?
    ensures var r := DropGuardFinish(d).value;
      && Valid(r) && |r.slots| == |o.slots| && r.dropped == d.vec.dropped
      && AsSlice(r) == AsSlice(o)[..start] + AsSlice(o)[end..]
  {
    var xs := AsSlice(o);
    var r := DropGuardFinish(d).value;
    var want := xs[..start] + xs[end..];
    assert r.len == |want|;
    forall i | 0 <= i < |want|
      ensures r.slots[i] == Live(want[i])
    {
      if i >= start {
        assert want[i] == xs[end + (i - start)];
      }
    }
    SliceIs(r, want);
  }

  /**
    Dropping an intended drain leaves the elements before and after the range,
    in order, and destroys exactly the elements not produced, front to back.
   */
  lemma DropRestores<T>(o: Owner<T>, start: nat, end: nat, d: Drain<T>)
    requires DrainState(o, start, end, start, d)
    ensures Cursors(d)
    ensures DropDrain(d).Ok?
    ensures var r := DropDrain(d).value;
      && Valid(r) && |r.slots| == |o.slots|
      && AsSlice(r) == AsSlice(o)[..start] + AsSlice(o)[end..]
      && r.dropped == d.vec.dropped + AsSlice(o)[d.front..d.back]
  {
    StateCursors(o, start, end, start, d);
    if d.front == d.back {
      GuardRestores(o, start, end, d);
    } else {
      var d' := d.(vec := DropInPlace(d.vec, d.front, d.back), front := d.back);
      assert DrainState(o, start, end, start, d');
      GuardRestores(o, start, end, d');
      assert Values(d.vec.slots, d.front, d.back) == AsSlice(o)[d.front..d.back];
    }
  }

  /**
    End to end, for the intended drain: whatever sequence of `next` and
    `next_back` calls is made, every element of the range is produced once
    from the front, produced once from the back, or destroyed once on drop,
    and the owner keeps exactly the elements outside the range.
   */
  lemma DrainRemovesRange<T>(o: Owner<T>, lo: Bound, hi: Bound, steps: seq<End>)
    requires Valid(o) && o.len <= USIZE_MAX && SliceRange(lo, hi, o.len).Ok?
    ensures var rg := SliceRange(lo, hi, o.len).value;
      var d := DrainOf(o, lo, hi).value;
      var (d', fs, bs) := Run(d, steps);
      && DropDrain(d').Ok?
      && var r := DropDrain(d').value;
      && Valid(r)
      && DrainState(o, rg.start, rg.end, rg.start, d')
      && AsSlice(r) == AsSlice(o)[..rg.start] + AsSlice(o)[rg.end..]
      && fs == AsSlice(o)[rg.start..d'.front]
      && bs == Reverse(AsSlice(o)[d'.back..rg.end])
      && r.dropped == o.dropped + AsSlice(o)[d'.front..d'.back]
  {
    var rg := SliceRange(lo, hi, o.len).value;
    var d := DrainOf(o, lo, hi).value;
    RunKeepsState(o, rg.start, rg.end, rg.start, d, steps);
    StateCursors(o, rg.start, rg.end, rg.start, d);
    RunYieldsInOrder(AsSlice(o), d, steps);
    var d' := Run(d, steps).0;
    DropRestores(o, rg.start, rg.end, d');
  }

  /** Reversing twice gives the sequence back, so the back calls' values can be put back in index order. */
  lemma {:induction false} ReverseReverse<T>(s: seq<T>)
    ensures Reverse(Reverse(s)) == s
    decreases |s|
  {
    if |s| > 0 {
      var init, x := s[..|s| - 1], s[|s| - 1];
      ReverseReverse(init);
      ReverseCons(x, Reverse(init));
      assert init + [x] == s;
    }
  }

  lemma {:induction false} ReverseCons<T>(x: T, t: seq<T>)
    ensures Reverse([x] + t) == Reverse(t) + [x]
    decreases |t|
  {
    if |t| > 0 {
      var init, y := t[..|t| - 1], t[|t| - 1];
      ReverseCons(x, init);
      assert ([x] + t)[..|t|] == [x] + init;
    }
  }

  /**
    Putting back, at `start`, the values produced from the front, the ones
    destroyed on drop and the ones produced from the back (in index order)
    rebuilds the sequence the drain started from, whatever order of calls
    was made.
   */
  lemma DrainReassembles<T>(o: Owner<T>, lo: Bound, hi: Bound, steps: seq<End>)
    requires Valid(o) && o.len <= USIZE_MAX && SliceRange(lo, hi, o.len).Ok?
    ensures var rg := SliceRange(lo, hi, o.len).value;
      var (d', fs, bs) := Run(DrainOf(o, lo, hi).value, steps);
      && DropDrain(d').Ok?
      && var r := DropDrain(d').value;
      && Valid(r) && rg.start <= r.len && |o.dropped| <= |r.dropped|
      && AsSlice(r)[..rg.start] + fs + r.dropped[|o.dropped|..] + Reverse(bs) + AsSlice(r)[rg.start..] == AsSlice(o)
  {
    var xs := AsSlice(o);
    var rg := SliceRange(lo, hi, o.len).value;
    DrainRemovesRange(o, lo, hi, steps);
    var (d', fs, bs) := Run(DrainOf(o, lo, hi).value, steps);
    var r := DropDrain(d').value;
    Reassemble(xs, rg.start, d'.front, d'.back, rg.end, AsSlice(r), o.dropped, r.dropped, fs, bs);
  }

  /** The sequence facts behind `DrainReassembles`: a kept prefix and suffix, and the range split three ways. */
  lemma Reassemble<T>(xs: seq<T>, start: nat, front: nat, back: nat, end: nat, kept: seq<T>, before: seq<T>, after: seq<T>, fs: seq<T>, bs: seq<T>)
    requires start <= front <= back <= end <= |xs|
    requires kept == xs[..start] + xs[end..]
    requires after == before + xs[front..back]
    requires fs == xs[start..front] && bs == Reverse(xs[back..end])
    ensures start <= |kept| && |before| <= |after|
    ensures kept[..start] + fs + after[|before|..] + Reverse(bs) + kept[start..] == xs
  {
    ReverseReverse(xs[back..end]);
    assert kept[..start] == xs[..start];
    assert kept[start..] == xs[end..];
    assert after[|before|..] == xs[front..back];
    SplitFive(xs, start, front, back, end);
  }

  lemma SplitFive<T>(xs: seq<T>, a: nat, b: nat, c: nat, d: nat)
    requires a <= b <= c <= d <= |xs|
    ensures xs[..a] + xs[a..b] + xs[b..c] + xs[c..d] + xs[d..] == xs
  {
    assert xs[..a] + xs[a..b] == xs[..b];
    assert xs[..b] + xs[b..c] == xs[..c];
    assert xs[..c] + xs[c..d] == xs[..d];
  }

  /**
    Dropping a drain as written, over a non-empty range: the guard appends the
    tail after the unchanged `len`, so either it copies out of bounds, or the
    owner ends up longer than before with the emptied slot `start` inside its
    live prefix.
   */
  lemma DropAsWrittenCorrupts<T>(o: Owner<T>, start: nat, end: nat, d: Drain<T>)
    requires DrainState(o, start, end, o.len, d) && start < end
    ensures Cursors(d)
    ensures DropDrain(d).Undefined? <==> end < o.len && 2 * o.len - end > |o.slots|
    ensures DropDrain(d).Ok? ==> DropDrain(d).value.len == 2 * o.len - end > o.len - (end - start)
    ensures DropDrain(d).Ok? ==> !Valid(DropDrain(d).value)
  {
    StateCursors(o, start, end, o.len, d);
    var d' := if d.front == d.back then d else d.(vec := DropInPlace(d.vec, d.front, d.back), front := d.back);
    assert d'.vec.slots[start] == Uninit;
    assert DropDrain(d) == DropGuardFinish(d');
    if DropDrain(d).Ok? {
      var r := DropDrain(d).value;
      assert r.slots[start] == Uninit;
      assert start < r.len;
    }
  }

  /**
    Where the as-written guard leaves the slots: the tail `o[end..]` is copied
    to the slots from the old `len` on, the drained range `start..end` is
    empty, and every other slot holds what it held in `o`. So the live prefix
    holds a hole at `start` and, when the tail is not empty, the tail's
    elements twice.
   */
  lemma DropAsWrittenMovesTail<T>(o: Owner<T>, start: nat, end: nat, d: Drain<T>)
    requires DrainState(o, start, end, o.len, d) && start < end
    ensures Cursors(d)
    ensures DropDrain(d).Ok? ==> var r := DropDrain(d).value;
              && |r.slots| == |o.slots| && r.slots[start] == Uninit
              && forall i :: 0 <= i < |o.slots| ==>
                   r.slots[i] == (if o.len <= i < 2 * o.len - end then Live(AsSlice(o)[end + (i - o.len)])
                                  else if start <= i < end then Uninit
                                  else o.slots[i])
  {
    StateCursors(o, start, end, o.len, d);
    var d' := if d.front == d.back then d else d.(vec := DropInPlace(d.vec, d.front, d.back), front := d.back);
    assert DropDrain(d) == DropGuardFinish(d');
    forall i | 0 <= i < |o.slots| ensures d'.vec.slots[i] == (if start <= i < end then Uninit else o.slots[i]) {
    }
    GuardAfterEmptiedRange(o, start, end, d');
  }

  /** The as-written guard, once the whole range `start..end` is empty and `len` is still the original one. */
  lemma GuardAfterEmptiedRange<T>(o: Owner<T>, start: nat, end: nat, d: Drain<T>)
    requires Valid(o) && start < end <= o.len
    requires d.vec.len == o.len && d.tailStart == end && d.tailLen == o.len - end && |d.vec.slots| == |o.slots|
    requires forall i :: 0 <= i < |o.slots| ==> d.vec.slots[i] == (if start <= i < end then Uninit else o.slots[i])
    ensures DropGuardFinish(d).Ok? ==> var r := DropGuardFinish(d).value;
              && |r.slots| == |o.slots| && r.slots[start] == Uninit
              && forall i :: 0 <= i < |o.slots| ==>
                   r.slots[i] == (if o.len <= i < 2 * o.len - end then Live(AsSlice(o)[end + (i - o.len)])
                                  else if start <= i < end then Uninit
                                  else o.slots[i])
  {
    if DropGuardFinish(d).Ok? {
      var r := DropGuardFinish(d).value;
      forall i | o.len <= i < 2 * o.len - end ensures r.slots[i] == Live(AsSlice(o)[end + (i - o.len)]) {
        assert d.vec.slots[end + (i - o.len)] == o.slots[end + (i - o.len)];
      }
      forall i | 0 <= i < |o.slots| && !(o.len <= i < 2 * o.len - end) ensures r.slots[i] == d.vec.slots[i] {
      }
    }
  }

  /** Five elements in eight slots: draining `1..3`, taking one element and dropping leaves `len` at 7 rather than 3. */
  lemma DrainAsWrittenExample()
    ensures var o := Owner(LiveSlots([1, 2, 3, 4, 5]) + UninitSlots(3), 5, []);
      && Valid(o)
      && DrainAsWritten(o, Included(1), Excluded(3)).Ok?
      && var d := DrainAsWritten(o, Included(1), Excluded(3)).value;
      && Next(d).1 == Some(2)
      && DropDrain(Next(d).0).Ok?
      && DropDrain(Next(d).0).value.len == 7
      && !Valid(DropDrain(Next(d).0).value)
      && DropDrain(Next(d).0).value.slots == [Live(1), Uninit, Uninit, Live(4), Live(5), Live(4), Live(5), Uninit]
  {
    var o := Owner(LiveSlots([1, 2, 3, 4, 5]) + UninitSlots(3), 5, []);
    assert AsSlice(o) == [1, 2, 3, 4, 5];
    var d := DrainAsWritten(o, Included(1), Excluded(3)).value;
    NextKeepsState(o, 1, 3, 5, d);
    DropAsWrittenCorrupts(o, 1, 3, Next(d).0);
    DropAsWrittenMovesTail(o, 1, 3, Next(d).0);
  }

  /**
    The same drain, intended: the element produced is 2, the one destroyed is
    3, and `[1, 4, 5]` remain. After the first element is produced one is left,
    while `len` as written still reports the tail's two.
   */
  lemma DrainOfExample()
    ensures var o := Owner(LiveSlots([1, 2, 3, 4, 5]) + UninitSlots(3), 5, []);
      && Valid(o)
      && DrainOf(o, Included(1), Excluded(3)).Ok?
      && var d := DrainOf(o, Included(1), Excluded(3)).value;
      && Next(d).1 == Some(2)
      && Len(Next(d).0) == 1 && LenAsWritten(Next(d).0) == 2
      && DropDrain(Next(d).0).Ok?
      && AsSlice(DropDrain(Next(d).0).value) == [1, 4, 5]
      && DropDrain(Next(d).0).value.dropped == [3]
  {
    var o := Owner(LiveSlots([1, 2, 3, 4, 5]) + UninitSlots(3), 5, []);
    assert AsSlice(o) == [1, 2, 3, 4, 5];
    var d := DrainOf(o, Included(1), Excluded(3)).value;
    NextKeepsState(o, 1, 3, 1, d);
    DropRestores(o, 1, 3, Next(d).0);
  }

  /** For zero-sized elements only counts matter: the owner's `len` and how many values it has dropped. */
  datatype ZstOwner = ZstOwner(len: nat, dropped: nat)

  /** `truncate` on zero-sized elements: drops the `len - n` elements past `n`, if any. */
  function ZstTruncate(v: ZstOwner, n: nat): (r: ZstOwner)
    ensures r.len == if n < v.len then n else v.len
    ensures r.dropped - v.dropped == v.len - r.len
  {
    if n < v.len then ZstOwner(n, v.dropped + (v.len - n)) else v
  }

  /** `Drain::drop` for zero-sized elements: extends `len` over the unproduced elements and the tail, then truncates the unproduced ones away. */
  function DropDrainZst(v: ZstOwner, dropLen: nat, tailLen: nat): (r: ZstOwner)
    ensures r.len == v.len + tailLen
    ensures r.dropped == v.dropped + dropLen
  {
    var oldLen := v.len;
    var v1 := ZstOwner(oldLen + dropLen + tailLen, v.dropped);
    ZstTruncate(v1, oldLen + tailLen)
  }

  /**
    With zero-sized elements, an intended drain of `[start, end)` from `len`
    elements ends with `len - (end - start)`; as written it ends with the tail
    counted twice.
   */
  lemma ZstDrainCounts(len: nat, start: nat, end: nat, produced: nat, dropped: nat)
    requires start <= end <= len && produced <= end - start
    ensures DropDrainZst(ZstOwner(start, dropped), end - start - produced, len - end).len == len - (end - start)
    ensures DropDrainZst(ZstOwner(len, dropped), end - start - produced, len - end).len == len + (len - end)
    ensures DropDrainZst(ZstOwner(start, dropped), end - start - produced, len - end).dropped + produced == dropped + (end - start)
  {
  }
}
