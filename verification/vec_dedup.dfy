/**
  `dedup_by` and its `FillGapOnDrop` guard.

  `same_bucket(current, last_kept)` decides whether `current` is dropped. The
  first loop looks for the first duplicate without touching memory; from
  then on the guard tracks `read` (next element to test) and `write` (end of
  the kept prefix). `len` keeps its original value throughout, and the
  guard's finalize moves `[read, len)` down to `write`. The comparator's
  `&mut` access is not modelled: it is a pure function here.
 */
module VecDedup {
  import opened Slots
  import opened SliceOwner

  type SameBucket<!T> = (T, T) -> bool

  /** The elements `dedup_by` keeps from the first `n` of `xs`: each one is compared with the last one kept. */
  function KeptUpTo<T>(same: SameBucket<T>, xs: seq<T>, n: nat): (r: seq<T>)
    requires n <= |xs|
    ensures |r| <= n
    ensures n > 0 ==> |r| > 0 && r[0] == xs[0]
  {
    if n <= 1 then xs[..n]
    else
      var k := KeptUpTo(same, xs, n - 1);
      if same(xs[n - 1], k[|k| - 1]) then k else k + [xs[n - 1]]
  }

  /** The elements `dedup_by` drops from the first `n` of `xs`, in drop order. */
  function DroppedUpTo<T>(same: SameBucket<T>, xs: seq<T>, n: nat): (r: seq<T>)
    requires n <= |xs|
    ensures |r| + |KeptUpTo(same, xs, n)| == n
  {
    if n <= 1 then []
    else
      var k := KeptUpTo(same, xs, n - 1);
      DroppedUpTo(same, xs, n - 1) + (if same(xs[n - 1], k[|k| - 1]) then [xs[n - 1]] else [])
  }

  /** The elements `dedup_by` keeps from `xs`. */
  function DedupKept<T>(same: SameBucket<T>, xs: seq<T>): seq<T> {
    KeptUpTo(same, xs, |xs|)
  }

  /** The elements `dedup_by` drops from `xs`, in drop order. */
  function DedupDropped<T>(same: SameBucket<T>, xs: seq<T>): seq<T> {
    DroppedUpTo(same, xs, |xs|)
  }

  /** A prefix with no adjacent pair in the same bucket is kept whole. */
  lemma {:induction false} NoDuplicatePrefix<T>(same: SameBucket<T>, xs: seq<T>, n: nat)
    requires 1 <= n <= |xs|
    requires forall j :: 1 <= j < n ==> !same(xs[j], xs[j - 1])
    ensures KeptUpTo(same, xs, n) == xs[..n] && DroppedUpTo(same, xs, n) == []
  {
    if n > 1 {
      NoDuplicatePrefix(same, xs, n - 1);
      assert xs[..n - 1] + [xs[n - 1]] == xs[..n];
    }
  }

  /** Each of the first `n` elements is either kept or dropped, exactly once. */
  lemma {:induction false} DedupPartitions<T>(same: SameBucket<T>, xs: seq<T>, n: nat)
    requires n <= |xs|
    ensures multiset(KeptUpTo(same, xs, n)) + multiset(DroppedUpTo(same, xs, n)) == multiset(xs[..n])
  {
    if n > 1 {
      DedupPartitions(same, xs, n - 1);
      var k, d := KeptUpTo(same, xs, n - 1), DroppedUpTo(same, xs, n - 1);
      KeptUpToStep(same, xs, n - 1, k, d);
      TakeSnoc(xs, n);
      PartitionStep(k, d, xs[..n - 1], xs[n - 1], KeptUpTo(same, xs, n), DroppedUpTo(same, xs, n));
    }
  }

  lemma TakeSnoc<T>(xs: seq<T>, n: nat)
    requires 0 < n <= |xs|
    ensures xs[..n - 1] + [xs[n - 1]] == xs[..n]
  {
  }

  /** Putting one more element on either the kept or the dropped side keeps the two sides a partition. */
  lemma PartitionStep<T>(k: seq<T>, d: seq<T>, pre: seq<T>, x: T, k': seq<T>, d': seq<T>)
    requires multiset(k) + multiset(d) == multiset(pre)
    requires (k' == k && d' == d + [x]) || (k' == k + [x] && d' == d)
    ensures multiset(k') + multiset(d') == multiset(pre + [x])
  {
  }

  /** The fields of `FillGapOnDrop`. */
  datatype FillGap<T> = FillGap(read: nat, write: nat, vec: Owner<T>)

  /** `FillGapOnDrop::drop`: moves `[read, len)` down to `write` and shortens `len` by `read - write`. */
  function FillGapFinish<T>(g: FillGap<T>): (r: Owner<T>)
    requires g.write <= g.read <= g.vec.len <= |g.vec.slots|
    ensures r.len == g.vec.len - (g.read - g.write)
    ensures |r.slots| == |g.vec.slots| && r.dropped == g.vec.dropped
    // the kept prefix stays, and the unvisited tail closes up behind it
    ensures forall j :: 0 <= j < g.write ==> r.slots[j] == g.vec.slots[j]
    ensures forall i :: g.write <= i < g.vec.len - (g.read - g.write) ==> r.slots[i] == g.vec.slots[i + (g.read - g.write)]
  {
    var p := AsMutPtr(g.vec);
    var len := g.vec.len;
    var itemsLeft := len - g.read;
    var vec := g.vec.(slots := CopyTo(g.vec.slots, p + g.read, p + g.write, itemsLeft));
    var dropped := g.read - g.write;
    SetLen(vec, len - dropped)
  }

  /** The first `|k|` slots of `s` hold the values of `k`. */
  ghost predicate HoldsPrefix<T>(s: seq<Slot<T>>, k: seq<T>) {
    |k| <= |s| && forall i :: 0 <= i < |k| ==> s[i] == Live(k[i])
  }

  /** `s` and `t` agree on the slots `[lo, hi)`. */
  ghost predicate AgreeOn<T>(s: seq<Slot<T>>, t: seq<Slot<T>>, lo: nat, hi: nat) {
    hi <= |s| && hi <= |t| && forall i :: lo <= i < hi ==> s[i] == t[i]
  }

  /**
    The guard's shape in the second loop, for given kept and dropped runs:
    the first `write` slots hold `kept`, the slots from `read` on hold the
    unvisited originals, and exactly `gone` was dropped.
   */
  ghost predicate GapHolds<T>(o: Owner<T>, g: FillGap<T>, kept: seq<T>, gone: seq<T>) {
    && Valid(o)
    && g.vec.len == o.len
    && |g.vec.slots| == |o.slots|
    && 1 <= g.write < g.read <= o.len
    && |kept| == g.write
    && HoldsPrefix(g.vec.slots, kept)
    && AgreeOn(g.vec.slots, o.slots, g.read, o.len)
    && g.vec.dropped == o.dropped + gone
  }

  /**
    Every state of the second loop: the first `write` slots hold the elements
    kept from the first `read` elements, the slots from `read` on hold the
    unvisited originals, and exactly the duplicates among the first `read`
    were dropped.
   */
  ghost predicate DedupInv<T>(o: Owner<T>, same: SameBucket<T>, g: FillGap<T>) {
    && Valid(o)
    && g.read <= o.len
    && GapHolds(o, g, KeptUpTo(same, AsSlice(o), g.read), DroppedUpTo(same, AsSlice(o), g.read))
  }

  /** Finalizing from any `(read, write)` state yields the kept elements followed by the unvisited ones. */
  lemma FillGapRestores<T>(o: Owner<T>, same: SameBucket<T>, g: FillGap<T>)
    requires DedupInv(o, same, g)
    ensures var r := FillGapFinish(g);
      && Valid(r)
      && r.len == o.len - (g.read - g.write)
      && AsSlice(r) == KeptUpTo(same, AsSlice(o), g.read) + AsSlice(o)[g.read..]
      && r.dropped == o.dropped + DroppedUpTo(same, AsSlice(o), g.read)
  {
    var xs := AsSlice(o);
    var kept := KeptUpTo(same, xs, g.read);
    var r := FillGapFinish(g);
    var want := kept + xs[g.read..];
    forall i | 0 <= i < |want|
      ensures r.slots[i] == Live(want[i])
    {
      if i >= |kept| {
        assert r.slots[i] == g.vec.slots[i + g.read - g.write];
      }
    }
    SliceIs(r, want);
  }

  /** One turn of the second loop: drop a duplicate, or move a distinct element down to `write`. */
  function DedupOne<T>(same: SameBucket<T>, g: FillGap<T>): (r: FillGap<T>)
    requires 1 <= g.write < g.read < g.vec.len <= |g.vec.slots|
    requires g.vec.slots[g.read].Live? && g.vec.slots[g.write - 1].Live?
    ensures r.read == g.read + 1
    ensures r.vec.len == g.vec.len && |r.vec.slots| == |g.vec.slots|
    ensures forall j :: 0 <= j < g.write ==> r.vec.slots[j] == g.vec.slots[j]
    // an element in the last kept one's bucket is dropped in place
    ensures same(g.vec.slots[g.read].v, g.vec.slots[g.write - 1].v) ==>
              && r.write == g.write
              && r.vec.dropped == g.vec.dropped + [g.vec.slots[g.read].v]
              && r.vec.slots[g.read] == Uninit
    // any other element is copied down to `write` and kept
    ensures !same(g.vec.slots[g.read].v, g.vec.slots[g.write - 1].v) ==>
              && r.write == g.write + 1
              && r.vec.dropped == g.vec.dropped
              && r.vec.slots[g.write] == g.vec.slots[g.read]
  {
    var start := AsMutPtr(g.vec);
    var readPtr := start + g.read;
    var prevPtr := start + g.write - 1;
    if same(g.vec.slots[readPtr].v, g.vec.slots[prevPtr].v) then
      g.(read := g.read + 1, vec := DropInPlace(g.vec, readPtr, readPtr + 1))
    else
      var writePtr := start + g.write;
      g.(vec := g.vec.(slots := CopyNonoverlapping(g.vec.slots, readPtr, writePtr, 1)),
         write := g.write + 1, read := g.read + 1)
  }

  /** One turn tests the element at `read` against the last kept one and keeps the loop invariant. */
  lemma DedupOneKeepsInv<T>(o: Owner<T>, same: SameBucket<T>, g: FillGap<T>)
    requires DedupInv(o, same, g) && g.read < o.len
    ensures g.vec.slots[g.read].Live? && g.vec.slots[g.write - 1].Live?
    ensures DedupInv(o, same, DedupOne(same, g))
    ensures DedupOne(same, g).read == g.read + 1
  {
    var xs := AsSlice(o);
    var n := g.read;
    var k := KeptUpTo(same, xs, n);
    var d := DroppedUpTo(same, xs, n);
    assert g.vec.slots[n] == Live(xs[n]);
    assert g.vec.slots[g.write - 1] == Live(k[|k| - 1]);
    if same(g.vec.slots[n].v, g.vec.slots[g.write - 1].v) {
      DuplicateStep(o, same, g, k, d);
    } else {
      DistinctStep(o, same, g, k, d);
    }
  }

  /** A duplicate at `read` is dropped, and the dropped run grows by it, as the loop invariant demands. */
  lemma DuplicateStep<T>(o: Owner<T>, same: SameBucket<T>, g: FillGap<T>, k: seq<T>, d: seq<T>)
    requires GapHolds(o, g, k, d) && g.read < o.len
    requires k == KeptUpTo(same, AsSlice(o), g.read) && d == DroppedUpTo(same, AsSlice(o), g.read)
    requires g.vec.slots[g.read] == Live(AsSlice(o)[g.read]) && g.vec.slots[g.write - 1] == Live(k[|k| - 1])
    requires same(g.vec.slots[g.read].v, g.vec.slots[g.write - 1].v)
    ensures DedupInv(o, same, DedupOne(same, g))
  {
    var xs := AsSlice(o);
    var n := g.read;
    DuplicateKeepsGap(o, same, g, k, d);
    RunsStep(same, xs, n, k, d, true, k, d + [xs[n]]);
    GapGivesInv(o, same, DedupOne(same, g), xs, n + 1, k, d + [xs[n]]);
  }

  /** A distinct element at `read` is kept, and the kept run grows by it, as the loop invariant demands. */
  lemma DistinctStep<T>(o: Owner<T>, same: SameBucket<T>, g: FillGap<T>, k: seq<T>, d: seq<T>)
    requires GapHolds(o, g, k, d) && g.read < o.len
    requires k == KeptUpTo(same, AsSlice(o), g.read) && d == DroppedUpTo(same, AsSlice(o), g.read)
    requires g.vec.slots[g.read] == Live(AsSlice(o)[g.read]) && g.vec.slots[g.write - 1] == Live(k[|k| - 1])
    requires !same(g.vec.slots[g.read].v, g.vec.slots[g.write - 1].v)
    ensures DedupInv(o, same, DedupOne(same, g))
  {
    var xs := AsSlice(o);
    var n := g.read;
    DistinctKeepsGap(o, same, g, k, d);
    RunsStep(same, xs, n, k, d, false, k + [xs[n]], d);
    GapGivesInv(o, same, DedupOne(same, g), xs, n + 1, k + [xs[n]], d);
  }

  /** Testing element `n` extends the kept run or the dropped run by it, as `dup` says. */
  lemma RunsStep<T>(same: SameBucket<T>, xs: seq<T>, n: nat, k: seq<T>, d: seq<T>, dup: bool, kept: seq<T>, gone: seq<T>)
    requires 1 <= n < |xs| && k == KeptUpTo(same, xs, n) && d == DroppedUpTo(same, xs, n)
    requires dup == same(xs[n], k[|k| - 1])
    requires kept == (if dup then k else k + [xs[n]]) && gone == (if dup then d + [xs[n]] else d)
    ensures KeptUpTo(same, xs, n + 1) == kept && DroppedUpTo(same, xs, n + 1) == gone
  {
    KeptUpToStep(same, xs, n, k, d);
  }

  /** A gap shape whose runs are the kept and dropped elements up to `read` is a loop state. */
  lemma GapGivesInv<T>(o: Owner<T>, same: SameBucket<T>, g: FillGap<T>, xs: seq<T>, n: nat, kept: seq<T>, gone: seq<T>)
    requires Valid(o) && xs == AsSlice(o) && GapHolds(o, g, kept, gone) && g.read == n
    requires kept == KeptUpTo(same, xs, n) && gone == DroppedUpTo(same, xs, n)
    ensures DedupInv(o, same, g)
  {
  }

  /** Testing element `n` extends the kept or the dropped run by it. */
  lemma KeptUpToStep<T>(same: SameBucket<T>, xs: seq<T>, n: nat, k: seq<T>, d: seq<T>)
    requires 1 <= n < |xs| && k == KeptUpTo(same, xs, n) && d == DroppedUpTo(same, xs, n)
    ensures same(xs[n], k[|k| - 1]) ==> KeptUpTo(same, xs, n + 1) == k && DroppedUpTo(same, xs, n + 1) == d + [xs[n]]
    ensures !same(xs[n], k[|k| - 1]) ==> KeptUpTo(same, xs, n + 1) == k + [xs[n]] && DroppedUpTo(same, xs, n + 1) == d
  {
  }

  /** Emptying one slot past the kept prefix keeps the prefix and every other slot. */
  lemma VacateOneKeeps<T>(s: seq<Slot<T>>, t: seq<Slot<T>>, k: seq<T>, i: nat, hi: nat)
    requires HoldsPrefix(s, k) && |k| <= i < hi <= |s| && AgreeOn(s, t, i, hi)
    ensures HoldsPrefix(Vacate(s, i, i + 1), k) && AgreeOn(Vacate(s, i, i + 1), t, i + 1, hi)
  {
  }

  /** Copying slot `src` to the end of the kept prefix extends the prefix by its value. */
  lemma CopyOneExtends<T>(s: seq<Slot<T>>, t: seq<Slot<T>>, k: seq<T>, src: nat, hi: nat)
    requires HoldsPrefix(s, k) && |k| < src < hi <= |s| && s[src].Live? && AgreeOn(s, t, src, hi)
    ensures HoldsPrefix(CopyNonoverlapping(s, src, |k|, 1), k + [s[src].v])
    ensures AgreeOn(CopyNonoverlapping(s, src, |k|, 1), t, src + 1, hi)
  {
  }

  /** A duplicate is dropped in place; the kept prefix stays. */
  lemma DuplicateKeepsGap<T>(o: Owner<T>, same: SameBucket<T>, g: FillGap<T>, kept: seq<T>, gone: seq<T>)
    requires GapHolds(o, g, kept, gone) && g.read < o.len
    requires g.vec.slots[g.read].Live? && g.vec.slots[g.write - 1].Live?
    requires same(g.vec.slots[g.read].v, g.vec.slots[g.write - 1].v)
    ensures GapHolds(o, DedupOne(same, g), kept, gone + [AsSlice(o)[g.read]])
    ensures DedupOne(same, g).read == g.read + 1
  {
    var n := g.read;
    VacateOneKeeps(g.vec.slots, o.slots, kept, n, o.len);
    assert Values(g.vec.slots, n, n + 1) == [AsSlice(o)[n]];
  }

  /** A distinct element is copied to `write`, extending the kept prefix. */
  lemma DistinctKeepsGap<T>(o: Owner<T>, same: SameBucket<T>, g: FillGap<T>, kept: seq<T>, gone: seq<T>)
    requires GapHolds(o, g, kept, gone) && g.read < o.len
    requires g.vec.slots[g.read].Live? && g.vec.slots[g.write - 1].Live?
    requires !same(g.vec.slots[g.read].v, g.vec.slots[g.write - 1].v)
    ensures GapHolds(o, DedupOne(same, g), kept + [AsSlice(o)[g.read]], gone)
    ensures DedupOne(same, g).read == g.read + 1
  {
    var n := g.read;
    CopyOneExtends(g.vec.slots, o.slots, kept, n, o.len);
    assert g.vec.slots[n].v == AsSlice(o)[n];
  }

  /**
    `dedup_by`: the owner is returned untouched when `len <= 1` or when no
    adjacent pair is in the same bucket; otherwise the kept elements are the
    ones `DedupKept` describes and every other element is dropped once.
   */
  method DedupBy<T>(o: Owner<T>, same: SameBucket<T>) returns (r: Owner<T>)
    requires Valid(o)
    ensures Valid(r) && |r.slots| == |o.slots|
    ensures AsSlice(r) == DedupKept(same, AsSlice(o))
    ensures r.dropped == o.dropped + DedupDropped(same, AsSlice(o))
    ensures o.len <= 1 ==> r == o
    ensures (forall j :: 1 <= j < o.len ==> !same(AsSlice(o)[j], AsSlice(o)[j - 1])) ==> r == o
  {
    var xs := AsSlice(o);
    var len := o.len;
    if len <= 1 {
      assert xs[..len] == xs;
      return o;
    }
    var firstDuplicateIdx := 1;
    var start := AsMutPtr(o);
    while firstDuplicateIdx != len
      invariant 1 <= firstDuplicateIdx <= len
      invariant forall j :: 1 <= j < firstDuplicateIdx ==> !same(xs[j], xs[j - 1])
      decreases len - firstDuplicateIdx
    {
      var prev := start + firstDuplicateIdx - 1;
      var current := start + firstDuplicateIdx;
      var foundDuplicate := same(o.slots[current].v, o.slots[prev].v);
      if foundDuplicate {
        break;
      }
      firstDuplicateIdx := firstDuplicateIdx + 1;
    }
    if firstDuplicateIdx == len {
      NoDuplicatePrefix(same, xs, len);
      assert xs[..len] == xs;
      return o;
    }
    assert same(xs[firstDuplicateIdx], xs[firstDuplicateIdx - 1]);
    r := FillGapFrom(o, same, firstDuplicateIdx);
  }

  /**
    The part of `dedup_by` after the first duplicate, at `first`, was found:
    drops it, then runs the second loop under the guard and finalizes.
   */
  method FillGapFrom<T>(o: Owner<T>, same: SameBucket<T>, first: nat) returns (r: Owner<T>)
    requires Valid(o) && 1 <= first < o.len
    requires forall j :: 1 <= j < first ==> !same(AsSlice(o)[j], AsSlice(o)[j - 1])
    requires same(AsSlice(o)[first], AsSlice(o)[first - 1])
    ensures Valid(r) && |r.slots| == |o.slots|
    ensures AsSlice(r) == DedupKept(same, AsSlice(o))
    ensures r.dropped == o.dropped + DedupDropped(same, AsSlice(o))
  {
    var len := o.len;
    var start := AsMutPtr(o);
    var gap := FillGap(first + 1, first, o);
    gap := gap.(vec := DropInPlace(gap.vec, start + first, start + first + 1));
    FirstDuplicateDropped(o, same, first);
    while gap.read < len
      invariant DedupInv(o, same, gap)
      decreases len - gap.read
    {
      DedupOneKeepsInv(o, same, gap);
      gap := DedupOne(same, gap);
    }
    LastGapFinishes(o, same, gap);
    r := SetLen(gap.vec, gap.write);
  }

  /** Dropping the first duplicate sets up the second loop's invariant. */
  lemma FirstDuplicateDropped<T>(o: Owner<T>, same: SameBucket<T>, first: nat)
    requires Valid(o) && 1 <= first < o.len
    requires forall j :: 1 <= j < first ==> !same(AsSlice(o)[j], AsSlice(o)[j - 1])
    requires same(AsSlice(o)[first], AsSlice(o)[first - 1])
    ensures DedupInv(o, same, FillGap(first + 1, first, DropInPlace(o, first, first + 1)))
  {
    var xs := AsSlice(o);
    NoDuplicatePrefix(same, xs, first);
    assert Values(o.slots, first, first + 1) == [xs[first]];
  }

  /** Once every element was compared, setting `len` to `write` leaves exactly the kept elements. */
  lemma LastGapFinishes<T>(o: Owner<T>, same: SameBucket<T>, g: FillGap<T>)
    requires DedupInv(o, same, g) && g.read == o.len
    ensures var r := SetLen(g.vec, g.write);
      && Valid(r) && |r.slots| == |o.slots|
      && AsSlice(r) == DedupKept(same, AsSlice(o))
      && r.dropped == o.dropped + DedupDropped(same, AsSlice(o))
  {
    SliceIs(SetLen(g.vec, g.write), DedupKept(same, AsSlice(o)));
  }

  /** Instantiates the hypothesis that the bucket test is equality. */
  lemma SameIsEqual<T>(same: SameBucket<T>, a: T, b: T)
    requires forall x, y :: same(x, y) <==> x == y
    ensures same(a, b) <==> a == b
  {
  }

  /** No two adjacent elements of `k` are equal. */
  ghost predicate NoAdjacentRepeats<T>(k: seq<T>) {
    forall i :: 1 <= i < |k| ==> k[i] != k[i - 1]
  }

  /** When the bucket test is equality, no two adjacent kept elements are equal. */
  lemma {:induction false} EqualityLeavesNoAdjacentRepeats<T>(same: SameBucket<T>, xs: seq<T>, n: nat)
    requires n <= |xs|
    requires forall x, y :: same(x, y) <==> x == y
    ensures NoAdjacentRepeats(KeptUpTo(same, xs, n))
  {
    if n > 1 {
      EqualityLeavesNoAdjacentRepeats(same, xs, n - 1);
      NoAdjacentRepeatsStep(same, xs, n, KeptUpTo(same, xs, n - 1));
    }
  }

  /** The inductive step: appending an element unequal to the last kept one keeps the property. */
  lemma NoAdjacentRepeatsStep<T>(same: SameBucket<T>, xs: seq<T>, n: nat, k: seq<T>)
    requires 1 < n <= |xs| && k == KeptUpTo(same, xs, n - 1)
    requires forall x, y :: same(x, y) <==> x == y
    requires NoAdjacentRepeats(k)
    ensures NoAdjacentRepeats(KeptUpTo(same, xs, n))
  {
    SameIsEqual(same, xs[n - 1], k[|k| - 1]);
  }

  /** When the bucket test is equality, every value of the first `n` elements is still present after dedup. */
  lemma {:induction false} EqualityKeepsEveryValue<T>(same: SameBucket<T>, xs: seq<T>, n: nat)
    requires n <= |xs|
    requires forall x, y :: same(x, y) <==> x == y
    ensures forall x :: x in xs[..n] <==> x in KeptUpTo(same, xs, n)
  {
    if n > 1 {
      EqualityKeepsEveryValue(same, xs, n - 1);
      assert xs[..n] == xs[..n - 1] + [xs[n - 1]];
      var k := KeptUpTo(same, xs, n - 1);
      if same(xs[n - 1], k[|k| - 1]) {
        SameIsEqual(same, xs[n - 1], k[|k| - 1]);
        assert xs[n - 1] in k;
      }
    }
  }

  /** `dedup` (equality as the bucket test) removes exactly the consecutive repeats and loses no value. */
  lemma DedupByEquality<T>(same: SameBucket<T>, xs: seq<T>)
    requires forall x, y :: same(x, y) <==> x == y
    ensures NoAdjacentRepeats(DedupKept(same, xs))
    ensures forall x :: x in xs <==> x in DedupKept(same, xs)
  {
    EqualityLeavesNoAdjacentRepeats(same, xs, |xs|);
    EqualityKeepsEveryValue(same, xs, |xs|);
    assert xs[..|xs|] == xs;
  }

  /** The bucket test `dedup_by_key` hands to `dedup_by`: two elements share a bucket when their keys are equal. */
  function ByKey<T, K(==)>(key: T -> K): SameBucket<T> {
    (a, b) => key(a) == key(b)
  }

  /** The keys of `k`, in order. */
  function KeysOf<T, K>(key: T -> K, k: seq<T>): (r: seq<K>)
    ensures |r| == |k| && forall i :: 0 <= i < |k| ==> r[i] == key(k[i])
  {
    seq(|k|, i requires 0 <= i < |k| => key(k[i]))
  }

  /** Deduplicating by key leaves no two adjacent elements with the same key. */
  lemma {:induction false} KeyLeavesNoAdjacentRepeats<T, K>(key: T -> K, xs: seq<T>, n: nat)
    requires n <= |xs|
    ensures NoAdjacentRepeats(KeysOf(key, KeptUpTo(ByKey(key), xs, n)))
  {
    if n > 1 {
      KeyLeavesNoAdjacentRepeats(key, xs, n - 1);
      var k := KeptUpTo(ByKey(key), xs, n - 1);
      var x := xs[n - 1];
      if key(x) != key(k[|k| - 1]) {
        assert KeptUpTo(ByKey(key), xs, n) == k + [x];
        assert KeysOf(key, k + [x]) == KeysOf(key, k) + [key(x)];
      }
    }
  }

  /** Deduplicating by key keeps one element of every key among the first `n` elements. */
  lemma {:induction false} KeyKeepsEveryKey<T, K>(key: T -> K, xs: seq<T>, n: nat)
    requires n <= |xs|
    ensures forall i :: 0 <= i < n ==> key(xs[i]) in KeysOf(key, KeptUpTo(ByKey(key), xs, n))
  {
    if n > 1 {
      KeyKeepsEveryKey(key, xs, n - 1);
      var k := KeptUpTo(ByKey(key), xs, n - 1);
      var x := xs[n - 1];
      if key(x) == key(k[|k| - 1]) {
        assert KeysOf(key, k)[|k| - 1] == key(x);
      } else {
        assert KeptUpTo(ByKey(key), xs, n) == k + [x];
        assert KeysOf(key, k + [x]) == KeysOf(key, k) + [key(x)];
      }
    }
  }

  /**
    `dedup_by_key`: the elements left have no two neighbours with the same
    key, every key of the input is still present, and each element is either
    left or dropped, exactly once.
   */
  method DedupByKey<T, K(==)>(o: Owner<T>, key: T -> K) returns (r: Owner<T>)
    requires Valid(o)
    ensures Valid(r) && |r.slots| == |o.slots|
    ensures NoAdjacentRepeats(KeysOf(key, AsSlice(r)))
    ensures forall i :: 0 <= i < o.len ==> key(AsSlice(o)[i]) in KeysOf(key, AsSlice(r))
    ensures |o.dropped| <= |r.dropped| && r.dropped[..|o.dropped|] == o.dropped
    ensures multiset(AsSlice(r)) + multiset(r.dropped[|o.dropped|..]) == multiset(AsSlice(o))
    // which element survives: the first of each run of equal keys, in order
    ensures AsSlice(r) == DedupKept(ByKey(key), AsSlice(o))
    ensures r.dropped == o.dropped + DedupDropped(ByKey(key), AsSlice(o))
    ensures o.len <= 1 ==> r == o
    ensures (forall j :: 1 <= j < o.len ==> key(AsSlice(o)[j]) != key(AsSlice(o)[j - 1])) ==> r == o
  {
    r := DedupBy(o, ByKey(key));
    DedupByKeyFacts(key, AsSlice(o));
    assert r.dropped[|o.dropped|..] == DedupDropped(ByKey(key), AsSlice(o));
  }

  /** The three properties of `DedupByKey`, stated on whole sequences. */
  lemma DedupByKeyFacts<T, K>(key: T -> K, xs: seq<T>)
    ensures NoAdjacentRepeats(KeysOf(key, DedupKept(ByKey(key), xs)))
    ensures forall i :: 0 <= i < |xs| ==> key(xs[i]) in KeysOf(key, DedupKept(ByKey(key), xs))
    ensures multiset(DedupKept(ByKey(key), xs)) + multiset(DedupDropped(ByKey(key), xs)) == multiset(xs)
  {
    KeyLeavesNoAdjacentRepeats(key, xs, |xs|);
    KeyKeepsEveryKey(key, xs, |xs|);
    DedupPartitions(ByKey(key), xs, |xs|);
    assert xs[..|xs|] == xs;
  }
}
