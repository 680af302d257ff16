/**
  `IntoIter<T, N>`: the by-value iterator of a `StackVec`.

  It takes over the array and produces the elements in slots `[start, end)`,
  moving each one out; dropping it destroys the elements not produced.
  `next_back` as written reads slot `end` instead of slot `end - 1`; both it
  (`NextBackAsWritten`) and the intended version (`NextBack`) are modelled,
  and `last`, which calls it, likewise.
 */
module IntoIters {
  import opened Outcomes
  import opened Slots
  import opened SliceOwner
  import opened StackVecs

  /** The fields of `IntoIter` (its `array` as `slots`), and the log of values dropped by the owner it came from. */
  datatype IntoIter<T> = IntoIter(slots: seq<Slot<T>>, start: nat, end: nat, dropped: seq<T>)

  /** The iterator's invariant: the cursors lie in the array and every slot between them holds a value. */
  predicate Wf<T>(it: IntoIter<T>) {
    it.start <= it.end <= |it.slots| && AllLive(it.slots, it.start, it.end)
  }

  /** `as_slice`: the elements not yet produced, in order. */
  function Remaining<T>(it: IntoIter<T>): (r: seq<T>)
    requires Wf(it)
    ensures |r| == it.end - it.start
  {
    Values(it.slots, it.start, it.end)
  }

  /** `into_iter`: the iterator starts at 0 and ends at `len`, so it will produce exactly the owner's elements. */
  function IntoIterOf<T>(o: Owner<T>): (r: IntoIter<T>)
    requires Valid(o)
    ensures Wf(r) && Remaining(r) == AsSlice(o) && r.dropped == o.dropped
  {
    IntoIter(o.slots, 0, o.len, o.dropped)
  }

  /** `ExactSizeIterator::len`: the number of elements still to be produced. */
  function Len<T>(it: IntoIter<T>): (r: nat)
    requires Wf(it)
    ensures r == |Remaining(it)|
  {
    it.end - it.start
  }

  /** `next`: moves out the element at `start`; `None` once `start` has met `end`. */
  function Next<T>(it: IntoIter<T>): (r: (IntoIter<T>, Option<T>))
    requires Wf(it)
    ensures Wf(r.0) && r.0.dropped == it.dropped
    ensures Len(it) == 0 ==> r == (it, None)
    ensures Len(it) > 0 ==> r.1 == Some(Remaining(it)[0]) && Remaining(r.0) == Remaining(it)[1..]
  {
    if it.end > it.start then
      var curr := it.start;
      var v := it.slots[curr].v;
      var it' := it.(start := curr + 1, slots := it.slots[curr := Uninit]);
      assert Remaining(it') == Remaining(it)[1..];
      (it', Some(v))
    else (it, None)
  }

  /** `next_back` as written: lowers `end` but reads the slot at the old `end`, one past the last element. */
  function NextBackAsWritten<T>(it: IntoIter<T>): (r: Outcome<(IntoIter<T>, Option<T>)>)
    requires Wf(it)
    ensures !r.Fail?
    ensures r.Ok? ==> Wf(r.value.0) && r.value.0.dropped == it.dropped
    ensures Len(it) == 0 ==> r == Ok((it, None))
    ensures r.Undefined? <==> Len(it) > 0 && (it.end == |it.slots| || it.slots[it.end].Uninit?)
    ensures r.Ok? && Len(it) > 0 ==> r.value.1 == Some(it.slots[it.end].v) && r.value.0.end == it.end - 1
  {
    if it.end > it.start then
      var curr := it.end;
      var it' := it.(end := curr - 1);
      if curr >= |it.slots| then Undefined(OutOfBounds)
      else if it.slots[curr].Uninit? then Undefined(UninitRead)
      else Ok((it'.(slots := it.slots[curr := Uninit]), Some(it.slots[curr].v)))
    else Ok((it, None))
  }

  /** `next_back` as intended: moves out the element at `end - 1`; `None` once the cursors have met. */
  function NextBack<T>(it: IntoIter<T>): (r: (IntoIter<T>, Option<T>))
    requires Wf(it)
    ensures Wf(r.0) && r.0.dropped == it.dropped
    ensures Len(it) == 0 ==> r == (it, None)
    ensures Len(it) > 0 ==>
              r.1 == Some(Remaining(it)[Len(it) - 1]) && Remaining(r.0) == Remaining(it)[..Len(it) - 1]
  {
    if it.end > it.start then
      var curr := it.end - 1;
      var v := it.slots[curr].v;
      var it' := it.(end := curr, slots := it.slots[curr := Uninit]);
      assert Remaining(it') == Remaining(it)[..Len(it) - 1];
      (it', Some(v))
    else (it, None)
  }

  /** `Drop for IntoIter`: destroys the elements not produced, front to back. */
  function Drop<T>(it: IntoIter<T>): (r: IntoIter<T>)
    requires Wf(it)
    ensures r.dropped == it.dropped + Remaining(it)
    ensures |r.slots| == |it.slots| && forall i :: it.start <= i < it.end ==> r.slots[i] == Uninit
  {
    IntoIter(Vacate(it.slots, it.start, it.end), it.start, it.end, it.dropped + Values(it.slots, it.start, it.end))
  }

  /** `last`: the value of one `next_back` call; the iterator is consumed, so the rest is then dropped. */
  function Last<T>(it: IntoIter<T>): (r: (Option<T>, seq<T>))
    requires Wf(it)
    ensures Len(it) == 0 ==> r == (None, it.dropped)
    ensures Len(it) > 0 ==> r.0 == Some(Remaining(it)[Len(it) - 1])
    ensures Len(it) > 0 ==> r.1 == it.dropped + Remaining(it)[..Len(it) - 1]
  {
    var (it', x) := NextBack(it);
    assert Len(it) == 0 ==> it.dropped + Remaining(it') == it.dropped;
    (x, Drop(it').dropped)
  }

  /** `last` as written, through `next_back` as written. */
  function LastAsWritten<T>(it: IntoIter<T>): (r: Outcome<(Option<T>, seq<T>)>)
    requires Wf(it)
    ensures r.Undefined? <==> NextBackAsWritten(it).Undefined?
  {
    var (it', x) :- NextBackAsWritten(it);
    Ok((x, Drop(it').dropped))
  }

  /** Calling `next` until it returns `None`: the values produced, and the exhausted iterator. */
  function Collect<T>(it: IntoIter<T>): (r: (seq<T>, IntoIter<T>))
    requires Wf(it)
    ensures Wf(r.1) && Len(r.1) == 0
    decreases Len(it)
  {
    var (it', x) := Next(it);
    match x
    case None => ([], it')
    case Some(v) =>
      var (rest, fin) := Collect(it');
      ([v] + rest, fin)
  }

  /** `size_hint`: exact, both bounds being the number of elements still to be produced. */
  function SizeHint<T>(it: IntoIter<T>): (r: (nat, Option<nat>))
    requires Wf(it)
    ensures r.0 == |Remaining(it)| && r.1 == Some(r.0)
  {
    (Len(it), Some(Len(it)))
  }

  /**
    `count`: consumes the iterator, so besides the number of elements `next`
    would produce it returns the drop log after the iterator is dropped, which
    destroys every remaining element.
   */
  function Count<T>(it: IntoIter<T>): (r: (nat, seq<T>))
    requires Wf(it)
    ensures r.0 == |Collect(it).0|
    ensures r.1 == it.dropped + Remaining(it)
  {
    CollectYieldsRemaining(it);
    (Len(it), Drop(it).dropped)
  }

  /** `next` produces the remaining elements in order, each once, and drops nothing. */
  lemma {:induction false} CollectYieldsRemaining<T>(it: IntoIter<T>)
    requires Wf(it)
    ensures Collect(it).0 == Remaining(it)
    ensures Collect(it).1.dropped == it.dropped
    decreases Len(it)
  {
    if Len(it) > 0 {
      var (it', x) := Next(it);
      CollectYieldsRemaining(it');
      assert [Remaining(it)[0]] + Remaining(it)[1..] == Remaining(it);
    }
  }

  /** Iterating a `StackVec` built from an array gives the array back, in order, and leaves nothing to drop. */
  lemma ArrayRoundTrip<T>(a: seq<T>)
    ensures Collect(IntoIterOf(FromArray(a))).0 == a
    ensures Drop(Collect(IntoIterOf(FromArray(a))).1).dropped == []
  {
    CollectYieldsRemaining(IntoIterOf(FromArray(a)));
  }

  /** Calling `next` `k` times, or until it returns `None`: the values produced, and the iterator left. */
  function TakeNext<T>(it: IntoIter<T>, k: nat): (r: (seq<T>, IntoIter<T>))
    requires Wf(it)
    ensures Wf(r.1) && r.1.dropped == it.dropped
    decreases k
  {
    if k == 0 then ([], it)
    else
      var (it', x) := Next(it);
      match x
      case None => ([], it')
      case Some(v) =>
        var (rest, fin) := TakeNext(it', k - 1);
        ([v] + rest, fin)
  }

  /** `k` calls of `next` produce the first `k` remaining elements and leave the others. */
  lemma {:induction false} TakeNextSplits<T>(it: IntoIter<T>, k: nat)
    requires Wf(it) && k <= Len(it)
    ensures TakeNext(it, k).0 == Remaining(it)[..k]
    ensures Remaining(TakeNext(it, k).1) == Remaining(it)[k..]
    decreases k
  {
    if k > 0 {
      var (it', x) := Next(it);
      TakeNextSplits(it', k - 1);
      assert Remaining(it)[..k] == [Remaining(it)[0]] + Remaining(it')[..k - 1];
      assert Remaining(it')[k - 1..] == Remaining(it)[k..];
    }
  }

  /**
    Taking any number of elements with `next` and then dropping the iterator:
    each of the owner's elements is either produced or dropped, exactly once,
    in order.
   */
  lemma NextThenDropPartitions<T>(o: Owner<T>, k: nat)
    requires Valid(o) && k <= o.len
    ensures var (xs, it') := TakeNext(IntoIterOf(o), k);
      && |xs| == k
      && xs + Drop(it').dropped[|o.dropped|..] == AsSlice(o)
  {
    var (xs, it') := TakeNext(IntoIterOf(o), k);
    TakeNextSplits(IntoIterOf(o), k);
    assert Drop(it').dropped[|o.dropped|..] == AsSlice(o)[k..];
    assert AsSlice(o)[..k] + AsSlice(o)[k..] == AsSlice(o);
  }

  /**
    `next_back` and `last` as written, on an iterator over a full array, read
    past the array; over `[1, 2]` pushed into three slots they read the
    uninitialised third slot. The intended versions return 2.
   */
  lemma NextBackAsWrittenExample()
    ensures NextBackAsWritten(IntoIterOf(FromArray([1, 2]))) == Undefined(OutOfBounds)
    ensures LastAsWritten(IntoIterOf(FromArray([1, 2]))) == Undefined(OutOfBounds)
    ensures NextBackAsWritten(IntoIterOf(Owner([Live(1), Live(2), Uninit], 2, []))) == Undefined(UninitRead)
    ensures NextBack(IntoIterOf(FromArray([1, 2]))).1 == Some(2)
    ensures Last(IntoIterOf(Owner([Live(1), Live(2), Uninit], 2, []))) == (Some(2), [1])
  {
    var it := IntoIterOf(Owner([Live(1), Live(2), Uninit], 2, []));
    assert Remaining(it) == [1, 2];
    assert Remaining(it)[..1] == [1];
    assert [] + [1] == [1];
  }

  /** Whenever the iterator's `end` is the last slot of the array, as for every full `StackVec`, `next_back` as written is undefined. */
  lemma NextBackAsWrittenPastFull<T>(o: Owner<T>)
    requires Valid(o) && o.len == |o.slots| > 0
    ensures NextBackAsWritten(IntoIterOf(o)) == Undefined(OutOfBounds)
  {
  }
}
