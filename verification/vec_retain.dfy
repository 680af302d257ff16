/**
  `retain_mut` and its `BackshiftOnDrop` guard.

  The closure receives each element by `&mut`: it is modelled as a function
  returning whether to keep the element and the element as it left it.
  `retain_mut` first sets `len` to 0, visits every element once in index
  order, drops the rejected ones and moves each kept one back over the gap;
  the guard's finalize closes the gap and sets `len`. A panic raised by the
  closure on element `processed` before it has modified that element leaves
  the guard in a loop-head state, so the finalize lemma below covers that
  unwinding path. A closure that modifies its element and then panics
  leaves the modified value in slot `processed`; that case is not covered.
 */
module VecRetain {
  import opened Slots
  import opened SliceOwner

  type RetainFn<!T> = T -> (bool, T)

  /** The elements `retain_mut` keeps from `xs`, as the closure left them, in order. */
  function Kept<T>(f: RetainFn<T>, xs: seq<T>): seq<T>
    decreases |xs|
  {
    if |xs| == 0 then []
    else
      var (keep, x) := f(xs[|xs| - 1]);
      Kept(f, xs[..|xs| - 1]) + (if keep then [x] else [])
  }

  /** The elements `retain_mut` drops from `xs`, as the closure left them, in drop order. */
  function Rejected<T>(f: RetainFn<T>, xs: seq<T>): seq<T>
    decreases |xs|
  {
    if |xs| == 0 then []
    else
      var (keep, x) := f(xs[|xs| - 1]);
      Rejected(f, xs[..|xs| - 1]) + (if keep then [] else [x])
  }

  /** The fields of `BackshiftOnDrop`. */
  datatype Backshift<T> = Backshift(v: Owner<T>, processed: nat, deleted: nat, originalLen: nat)

  /** `BackshiftOnDrop::drop`: moves the unprocessed tail back over the gap, then sets `len`. */
  function BackshiftFinish<T>(g: Backshift<T>): (r: Owner<T>)
    requires g.deleted <= g.processed <= g.originalLen <= |g.v.slots|
    ensures r.len == g.originalLen - g.deleted
    ensures |r.slots| == |g.v.slots| && r.dropped == g.v.dropped
    // the kept prefix stays, and the unprocessed tail closes up behind it
    ensures forall j :: 0 <= j < g.processed - g.deleted ==> r.slots[j] == g.v.slots[j]
    ensures forall i :: g.processed - g.deleted <= i < g.originalLen - g.deleted ==>
              r.slots[i] == g.v.slots[i + g.deleted]
  {
    var v :=
      if g.deleted > 0 then
        g.v.(slots := CopyTo(g.v.slots, g.processed, g.processed - g.deleted, g.originalLen - g.processed))
      else g.v;
    SetLen(v, g.originalLen - g.deleted)
  }

  /**
    Every state the guard can be in when the closure is called: `len` is 0,
    the first `processed - deleted` slots hold the kept elements, the slots
    from `processed` on still hold the untouched originals, and exactly the
    rejected elements have been dropped.
   */
  ghost predicate RetainInv<T>(o: Owner<T>, f: RetainFn<T>, g: Backshift<T>) {
    && Valid(o)
    && g.originalLen == o.len
    && g.v.len == 0
    && |g.v.slots| == |o.slots|
    && g.deleted <= g.processed <= o.len
    && var xs := AsSlice(o);
       var kept := Kept(f, xs[..g.processed]);
       && |kept| == g.processed - g.deleted
       && |Rejected(f, xs[..g.processed])| == g.deleted
       && (forall i :: 0 <= i < |kept| ==> g.v.slots[i] == Live(kept[i]))
       && (forall i :: g.processed <= i < o.len ==> g.v.slots[i] == o.slots[i])
       && g.v.dropped == o.dropped + Rejected(f, xs[..g.processed])
  }

  /** A guard whose slots and log match given kept and rejected runs, those of the first `n` elements, is a loop state. */
  lemma ShapeGivesInv<T>(o: Owner<T>, f: RetainFn<T>, g: Backshift<T>, n: nat, kept: seq<T>, gone: seq<T>)
    requires Valid(o) && g.originalLen == o.len && g.v.len == 0 && |g.v.slots| == |o.slots|
    requires g.deleted <= g.processed == n <= o.len
    requires kept == Kept(f, AsSlice(o)[..n]) && gone == Rejected(f, AsSlice(o)[..n])
    requires |kept| == n - g.deleted && |gone| == g.deleted
    requires forall i :: 0 <= i < |kept| ==> g.v.slots[i] == Live(kept[i])
    requires forall i :: n <= i < o.len ==> g.v.slots[i] == o.slots[i]
    requires g.v.dropped == o.dropped + gone
    ensures RetainInv(o, f, g)
  {
  }

  /** Finalizing from any loop state yields the kept-so-far elements followed by the unprocessed ones. */
  lemma BackshiftRestores<T>(o: Owner<T>, f: RetainFn<T>, g: Backshift<T>)
    requires RetainInv(o, f, g)
    ensures var r := BackshiftFinish(g);
      && Valid(r)
      && r.len == o.len - g.deleted
      && AsSlice(r) == Kept(f, AsSlice(o)[..g.processed]) + AsSlice(o)[g.processed..]
      && r.dropped == o.dropped + Rejected(f, AsSlice(o)[..g.processed])
  {
    var xs := AsSlice(o);
    var kept := Kept(f, xs[..g.processed]);
    var r := BackshiftFinish(g);
    var want := kept + xs[g.processed..];
    forall i | 0 <= i < |want|
      ensures r.slots[i] == Live(want[i])
    {
      if i >= |kept| {
        assert r.slots[i] == g.v.slots[i + g.deleted];
      }
    }
    SliceIs(r, want);
  }

  /** Appending one element to the processed prefix extends `Kept` or `Rejected` by its outcome. */
  lemma KeptStep<T>(f: RetainFn<T>, xs: seq<T>, p: nat)
    requires p < |xs|
    ensures Kept(f, xs[..p + 1]) == Kept(f, xs[..p]) + (if f(xs[p]).0 then [f(xs[p]).1] else [])
    ensures Rejected(f, xs[..p + 1]) == Rejected(f, xs[..p]) + (if f(xs[p]).0 then [] else [f(xs[p]).1])
  {
    assert xs[..p + 1][..p] == xs[..p];
  }

  /**
    One turn of `process_loop`: `f` sees the element at `processed`; a rejected
    element is counted and then dropped in place, a kept one is moved back over
    the gap once something has been deleted.
   */
  function ProcessOne<T>(f: RetainFn<T>, g: Backshift<T>): (r: (Backshift<T>, T))
    requires g.deleted <= g.processed < g.originalLen <= |g.v.slots|
    requires g.v.slots[g.processed].Live?
    ensures r.1 == g.v.slots[g.processed].v
    ensures r.0.processed == g.processed + 1 && r.0.originalLen == g.originalLen
    ensures r.0.v.len == g.v.len && |r.0.v.slots| == |g.v.slots|
    ensures forall j :: 0 <= j < g.processed - g.deleted ==> r.0.v.slots[j] == g.v.slots[j]
    // a rejected element is dropped where it stands, after the closure has updated it
    ensures !f(r.1).0 ==>
              && r.0.deleted == g.deleted + 1
              && r.0.v.dropped == g.v.dropped + [f(r.1).1]
              && r.0.v.slots[g.processed] == Uninit
    // a kept element, as updated, moves back over the gap
    ensures f(r.1).0 ==>
              && r.0.deleted == g.deleted
              && r.0.v.dropped == g.v.dropped
              && r.0.v.slots[g.processed - g.deleted] == Live(f(r.1).1)
  {
    var cur := AsMutPtr(g.v) + g.processed;
    var x := g.v.slots[cur].v;
    var (keep, x') := f(x);
    var v := g.v.(slots := g.v.slots[cur := Live(x')]);
    if !keep then
      var g1 := g.(v := v, processed := g.processed + 1, deleted := g.deleted + 1);
      (g1.(v := DropInPlace(g1.v, cur, cur + 1)), x)
    else
      var v' :=
        if g.deleted > 0 then
          var holeSlot := AsMutPtr(v) + g.processed - g.deleted;
          v.(slots := CopyNonoverlapping(v.slots, cur, holeSlot, 1))
        else v;
      (g.(v := v', processed := g.processed + 1), x)
  }

  /** One turn hands `f` the next original element and keeps the loop invariant. */
  lemma ProcessOneKeepsInv<T>(o: Owner<T>, f: RetainFn<T>, g: Backshift<T>)
    requires RetainInv(o, f, g) && g.processed < o.len
    ensures g.v.slots[g.processed].Live?
    ensures ProcessOne(f, g).1 == AsSlice(o)[g.processed]
    ensures RetainInv(o, f, ProcessOne(f, g).0)
    ensures ProcessOne(f, g).0.processed == g.processed + 1
  {
    var xs := AsSlice(o);
    assert g.v.slots[g.processed] == Live(xs[g.processed]);
    if f(xs[g.processed]).0 {
      KeepStepKeepsInv(o, f, g);
    } else {
      RejectStepKeepsInv(o, f, g);
    }
  }

  /** A kept element lands at the end of the kept prefix, moved back over the gap if there is one. */
  lemma KeepStepKeepsInv<T>(o: Owner<T>, f: RetainFn<T>, g: Backshift<T>)
    requires RetainInv(o, f, g) && g.processed < o.len
    requires g.v.slots[g.processed] == Live(AsSlice(o)[g.processed]) && f(AsSlice(o)[g.processed]).0
    ensures RetainInv(o, f, ProcessOne(f, g).0)
  {
    var xs := AsSlice(o);
    var p := g.processed;
    KeptStep(f, xs, p);
    var x' := f(xs[p]).1;
    var kept := Kept(f, xs[..p]);
    var kept' := Kept(f, xs[..p + 1]);
    var g' := ProcessOne(f, g).0;
    KeepMovesOne(f, g, x');
    forall i | 0 <= i < |kept'|
      ensures g'.v.slots[i] == Live(kept'[i])
    {
      if i < |kept| {
        assert g'.v.slots[i] == g.v.slots[i];
      }
    }
    forall i | p + 1 <= i < o.len
      ensures g'.v.slots[i] == o.slots[i]
    {
      assert g'.v.slots[i] == g.v.slots[i];
    }
    ShapeGivesInv(o, f, g', p + 1, kept', Rejected(f, xs[..p + 1]));
  }

  /** A rejected element is dropped in place and joins the dropped log; the kept prefix stays. */
  lemma RejectStepKeepsInv<T>(o: Owner<T>, f: RetainFn<T>, g: Backshift<T>)
    requires RetainInv(o, f, g) && g.processed < o.len
    requires g.v.slots[g.processed] == Live(AsSlice(o)[g.processed]) && !f(AsSlice(o)[g.processed]).0
    ensures RetainInv(o, f, ProcessOne(f, g).0)
  {
    var xs := AsSlice(o);
    var p := g.processed;
    KeptStep(f, xs, p);
    var x' := f(xs[p]).1;
    var kept' := Kept(f, xs[..p + 1]);
    var g' := ProcessOne(f, g).0;
    RejectDropsOne(f, g, x');
    forall i | 0 <= i < |kept'|
      ensures g'.v.slots[i] == Live(kept'[i])
    {
      assert g'.v.slots[i] == g.v.slots[i];
    }
    forall i | p + 1 <= i < o.len
      ensures g'.v.slots[i] == o.slots[i]
    {
      assert g'.v.slots[i] == g.v.slots[i];
    }
    ShapeGivesInv(o, f, g', p + 1, kept', Rejected(f, xs[..p + 1]));
  }

  /** A kept element's new value is written to slot `processed - deleted`; no other slot changes and nothing is dropped. */
  lemma KeepMovesOne<T>(f: RetainFn<T>, g: Backshift<T>, x': T)
    requires g.deleted <= g.processed < g.originalLen <= |g.v.slots| && g.v.slots[g.processed].Live?
    requires f(g.v.slots[g.processed].v).0 && x' == f(g.v.slots[g.processed].v).1
    ensures var g' := ProcessOne(f, g).0;
      && g'.processed == g.processed + 1 && g'.deleted == g.deleted && g'.originalLen == g.originalLen
      && g'.v.len == g.v.len && |g'.v.slots| == |g.v.slots| && g'.v.dropped == g.v.dropped
      && g'.v.slots[g.processed - g.deleted] == Live(x')
      && forall i :: 0 <= i < |g.v.slots| && i != g.processed && i != g.processed - g.deleted ==> g'.v.slots[i] == g.v.slots[i]
  {
  }

  /** A rejected element's new value is dropped from slot `processed`; no other slot changes. */
  lemma RejectDropsOne<T>(f: RetainFn<T>, g: Backshift<T>, x': T)
    requires g.deleted <= g.processed < g.originalLen <= |g.v.slots| && g.v.slots[g.processed].Live?
    requires !f(g.v.slots[g.processed].v).0 && x' == f(g.v.slots[g.processed].v).1
    ensures var g' := ProcessOne(f, g).0;
      && g'.processed == g.processed + 1 && g'.deleted == g.deleted + 1 && g'.originalLen == g.originalLen
      && g'.v.len == g.v.len && |g'.v.slots| == |g.v.slots| && g'.v.dropped == g.v.dropped + [x']
      && forall i :: 0 <= i < |g.v.slots| && i != g.processed ==> g'.v.slots[i] == g.v.slots[i]
  {
    assert Values(g.v.slots[g.processed := Live(x')], g.processed, g.processed + 1) == [x'];
  }

  /**
    `retain_mut`: calls `f` once per element in index order (`seen`), keeps
    exactly the accepted elements in order and drops each rejected one once.
   */
  method RetainMut<T>(o: Owner<T>, f: RetainFn<T>) returns (r: Owner<T>, seen: seq<T>)
    requires Valid(o)
    ensures seen == AsSlice(o)
    ensures Valid(r) && |r.slots| == |o.slots|
    ensures AsSlice(r) == Kept(f, AsSlice(o))
    ensures r.dropped == o.dropped + Rejected(f, AsSlice(o))
    ensures r.len == o.len - |Rejected(f, AsSlice(o))|
  {
    var xs := AsSlice(o);
    var originalLen := o.len;
    var g := Backshift(SetLen(o, 0), 0, 0, originalLen);
    seen := [];
    while g.processed != originalLen
      invariant RetainInv(o, f, g)
      invariant seen == xs[..g.processed]
      decreases originalLen - g.processed
    {
      ProcessOneKeepsInv(o, f, g);
      var x;
      assert xs[..g.processed + 1] == xs[..g.processed] + [xs[g.processed]];
      g, x := ProcessOne(f, g).0, ProcessOne(f, g).1;
      seen := seen + [x];
    }
    assert xs[..originalLen] == xs;
    BackshiftRestores(o, f, g);
    r := BackshiftFinish(g);
  }

  /** Every element is visited once and ends up either kept or rejected. */
  lemma {:induction false} RetainCountsEvery<T>(f: RetainFn<T>, xs: seq<T>)
    ensures |Kept(f, xs)| + |Rejected(f, xs)| == |xs|
    decreases |xs|
  {
    if |xs| > 0 {
      RetainCountsEvery(f, xs[..|xs| - 1]);
    }
  }

  /** When the closure leaves the elements as they were, the kept and the rejected runs together are, as a multiset, the input. */
  lemma {:induction false} RetainPartitions<T>(f: RetainFn<T>, xs: seq<T>)
    requires forall x :: f(x).1 == x
    ensures multiset(Kept(f, xs)) + multiset(Rejected(f, xs)) == multiset(xs)
    decreases |xs|
  {
    if |xs| > 0 {
      var init, last := xs[..|xs| - 1], xs[|xs| - 1];
      RetainPartitions(f, init);
      assert f(last).1 == last;
      assert init + [last] == xs;
    }
  }

  /** The closure `retain` hands to `retain_mut`: it tests the element and leaves it as it was. */
  function Lift<T>(keep: T -> bool): RetainFn<T> {
    x => (keep(x), x)
  }

  /** Through a lifted test, every kept element passes it and every rejected one fails it. */
  lemma {:induction false} LiftedSplitsByTest<T>(keep: T -> bool, xs: seq<T>)
    ensures forall x :: x in Kept(Lift(keep), xs) ==> keep(x)
    ensures forall x :: x in Rejected(Lift(keep), xs) ==> !keep(x)
    decreases |xs|
  {
    if |xs| > 0 {
      LiftedSplitsByTest(keep, xs[..|xs| - 1]);
    }
  }

  /**
    `retain`: keeps the elements that pass `keep` and drops the others, each
    once; the elements left all pass and the ones dropped all fail.
   */
  method Retain<T>(o: Owner<T>, keep: T -> bool) returns (r: Owner<T>)
    requires Valid(o)
    ensures Valid(r) && |r.slots| == |o.slots|
    ensures |o.dropped| <= |r.dropped| && r.dropped[..|o.dropped|] == o.dropped
    ensures forall x :: x in AsSlice(r) ==> keep(x)
    ensures forall x :: x in r.dropped[|o.dropped|..] ==> !keep(x)
    ensures multiset(AsSlice(r)) + multiset(r.dropped[|o.dropped|..]) == multiset(AsSlice(o))
    // the order: the passing elements keep their order, and the failing ones are dropped front to back
    ensures AsSlice(r) == Kept(Lift(keep), AsSlice(o))
    ensures r.dropped == o.dropped + Rejected(Lift(keep), AsSlice(o))
  {
    var seen;
    r, seen := RetainMut(o, Lift(keep));
    assert forall x :: Lift(keep)(x).1 == x;
    RetainPartitions(Lift(keep), AsSlice(o));
    LiftedSplitsByTest(keep, AsSlice(o));
    assert r.dropped[|o.dropped|..] == Rejected(Lift(keep), AsSlice(o));
  }

  /** A closure that keeps every element unchanged leaves the elements as they were and drops nothing. */
  lemma {:induction false} KeepAllIsNoop<T>(f: RetainFn<T>, xs: seq<T>)
    requires forall x :: f(x) == (true, x)
    ensures Kept(f, xs) == xs && Rejected(f, xs) == []
    decreases |xs|
  {
    if |xs| > 0 {
      KeepAllIsNoop(f, xs[..|xs| - 1]);
      assert xs[..|xs| - 1] + [xs[|xs| - 1]] == xs;
    }
  }

  /** A closure that rejects every element unchanged keeps nothing and drops every element once, in order. */
  lemma {:induction false} RejectAllDropsAll<T>(f: RetainFn<T>, xs: seq<T>)
    requires forall x :: f(x) == (false, x)
    ensures Kept(f, xs) == [] && Rejected(f, xs) == xs
    decreases |xs|
  {
    if |xs| > 0 {
      RejectAllDropsAll(f, xs[..|xs| - 1]);
      assert xs[..|xs| - 1] + [xs[|xs| - 1]] == xs;
    }
  }
}
