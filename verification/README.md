# no_std_collections: a Dafny model of the sequence core

`no_std_collections` provides growable, contiguous sequences that work with
or without an allocator. Every algorithm is written once, as default methods
of the `Vec` trait, on top of pointer-level primitives:
- `SliceOwner` supplies the base pointer and the length;
- each backing supplies `capacity`, `set_len`, `reserve` and
  `split_off_unchecked`.

`StackVec<T, N>` is the fixed-capacity backing: an inline array of `N` slots
plus a length.

This project models:
- the `SliceOwner` capability;
- the default methods of `Vec`: `push`, `pop`, `insert`, `remove`,
  `swap_remove`, `truncate`, `clear`, `resize`, `resize_with`, `retain`,
  `retain_mut`, `dedup_by`, `dedup_by_key`, `append`, `extend_from_slice`,
  `extend_from_within`, `split_off` and `drain`, including their
  unwind-safety guards;
- the `Drain` iterator and its drop;
- `StackVec`;
- the by-value iterator `IntoIter`.

It proves what these operations leave in the sequence and what they drop.

How the model represents the library:
- **Memory.** An owner is its allocation, a sequence of slots
  (`Live(v)` or `Uninit`), plus its `len` field and the log of values it has
  destroyed, in the order they were destroyed. Pointers are slot offsets.
  `read` and `drop_in_place` leave a slot `Uninit`. Bitwise copies leave the
  source slot as it was.
- **Owner invariant.** The invariant `Valid` says that the first `len` slots
  are inside the allocation and hold values. The elements are `AsSlice`.
- **Outcomes.** Every checked operation returns an `Outcome`:
  - `Ok`;
  - `Fail(panic)`, carrying the panic message's data;
  - `Undefined(ub)`, when code as written reads or writes outside the
    allocation, reads an uninitialised slot, or passes overlapping regions to
    `copy_nonoverlapping`.
- **Reserve.** The backing's `reserve` is a function parameter. Each call is
  bound by `Reserved`: on success the owner keeps its elements and has room
  for the request.
- **StackVec reserve.** `StackVec`'s `reserve` always panics (`StackReserve`).
- **Closures.** Closures passed to `retain_mut`, `dedup_by`, `resize` and
  `resize_with` are pure function parameters.
- **Panics.** A panic inside a closure is covered by proving each guard's
  `drop` correct from every state of the loop it protects.

Two behaviours of the code are easy to misread; the model follows the code:
- **Drain.** The drop guard of `Drain` (src/traits/vec/drain.rs:66-85) is
  documented as restoring the original `Vec`. It appends the tail after the
  owner's current `len`, but `drain` (src/traits/vec/mod.rs:181-195) never
  lowers that `len` to the range start. As written, the owner ends longer
  than it began and is not valid (see "## Findings"). With the construction
  corrected, a drain of `1..3` over `[1, 2, 3, 4, 5]` abandoned after one
  `next` destroys the unyielded `3` and removes the whole range, leaving
  `[1, 4, 5]` (`Drains.DrainOfExample`).
- **StackVec reserve.** `StackVec::reserve` (src/stack_vec/mod.rs:628-631)
  panics on every call, whatever room is left. So `push`, `insert` and the
  other checked operations that may grow panic on a `StackVec` even when the
  array has room (`StackVecs.CheckedGrowthPanics`).

## Model

| member | source | states |
|---|---|---|
| SliceOwner.AsMutPtr | src/traits/slice_owner/mod.rs:8-11 | the default mutable base pointer is the same place as the shared one |
| SliceOwner.AsSlice | src/traits/slice_owner/mod.rs:13-16 | the slice has `len` elements, and element `i` is the value held by the slot `i` places past the base pointer |
| SliceOwner.AsMutSlice | src/traits/slice_owner/mod.rs:18-21 | the mutable slice has `len` elements, read from the slots from `as_mut_ptr` on |
| SliceOwner.MutSliceIsSlice | src/traits/slice_owner/mod.rs:8-21 | the mutable and the shared view cover the same region and show the same elements |
| SliceOwner.ArrayOwner | src/traits/slice_owner/mod.rs:24-50 | an array used as an owner is valid, its length is `N` and its elements are the array's |
| Ranges.SliceRange | src/traits/vec/mod.rs:714-742 | never undefined; the failures are checked in order: start overflow, end overflow, reversed range, end past `len`; a range that passes is ordered, lies within `len`, and contains exactly the indices the two bounds admit that are below `len`; it is exactly `start..end` as the two bounds resolve, so an empty range keeps its own start |
| Ranges.SliceRangeEmptyKeepsStart | src/traits/vec/mod.rs:714-742 | empty ranges are not collapsed to a common value: `(Excluded(1), Excluded(2))` gives `2..2` and `3..=2` gives `3..3` |
| Ranges.SliceRangeFullAndEmpty | src/traits/vec/mod.rs:714-742 | `..` gives `0..len`, and `s..s` gives the empty range at `s` for every `s <= len` |
| VecPrimitives.PushUnchecked | src/traits/vec/mod.rs:41-44 | with room in the allocation, the item is appended, nothing is dropped, and the allocation keeps its size |
| VecPrimitives.Push | src/traits/vec/mod.rs:46-49 | never undefined; a failing `reserve` panics with that panic; otherwise the item is appended and nothing is dropped |
| VecPrimitives.PopUnchecked | src/traits/vec/mod.rs:69-72 | returns the last element and leaves the elements before it; nothing is dropped |
| VecPrimitives.Pop | src/traits/vec/mod.rs:74-80 | `None` and no change on an empty owner; otherwise `Some` of the last element, and the owner keeps the others |
| VecPrimitives.PushPopRoundTrip | src/traits/vec/mod.rs:41-80 | popping right after pushing `v` returns `v` and restores the elements |
| VecPrimitives.SwapRemoveUncheckedAsWritten | src/traits/vec/mod.rs:94-101 | returns the element at `index` and shortens `len` by one, as written |
| VecPrimitives.SwapRemoveAsWrittenLosesLast | src/traits/vec/mod.rs:94-101 | as written, for any index before the last, slot `index` stays empty inside the live prefix and the last element is lost, so the invariant breaks; at the last index it behaves as `pop` |
| VecPrimitives.SwapRemoveAsWrittenExample | src/traits/vec/mod.rs:94-101 | on `[1, 2, 3]` at 0, the code as written leaves a hole followed by `2`, while the corrected version gives `[3, 2]` |
| VecPrimitives.SwapRemoveUnchecked | src/traits/vec/mod.rs:94-101 | corrected: returns the element at `index`; the remaining elements are the original ones with the last moved into `index`, in an owner one shorter |
| VecPrimitives.SwapRemove | src/traits/vec/mod.rs:82-92 | panics with the index and length exactly when `index >= len`; otherwise it behaves like the corrected unchecked version |
| VecPrimitives.RemoveUnchecked | src/traits/vec/mod.rs:103-112 | returns the element at `index`; the others keep their order, closed up over the gap |
| VecPrimitives.Remove | src/traits/vec/mod.rs:114-124 | panics with the index and length exactly when `index >= len`; otherwise it removes the element at `index` and preserves order |
| VecPrimitives.Clear | src/traits/vec/mod.rs:126-132 | leaves no elements and drops every former element once, front to back |
| VecPrimitives.TruncateUnchecked | src/traits/vec/mod.rs:141-146 | keeps the first `n` elements and drops the rest once, in order |
| VecPrimitives.Truncate | src/traits/vec/mod.rs:134-139 | leaves the owner unchanged when `n > len`; otherwise keeps the first `n` elements and drops the rest in order |
| VecPrimitives.ClearIsTruncateZero | src/traits/vec/mod.rs:126-139 | `clear` and `truncate(0)` leave the same owner |
| VecPrimitives.InsertUnchecked | src/traits/vec/mod.rs:148-153 | with room, the element lands at `index` between the unchanged prefix and the unchanged suffix |
| VecPrimitives.Insert | src/traits/vec/mod.rs:155-179 | panics with the index and length when `index > len`; otherwise a failing `reserve` panics with that panic; otherwise the element is inserted at `index` and nothing is dropped |
| VecPrimitives.InsertRemoveRoundTrip | src/traits/vec/mod.rs:103-153 | removing at `i` right after inserting `v` at `i` returns `v` and restores the elements |
| VecExtend.ExtendRawAsWritten | src/traits/vec/mod.rs:705-712 | as written, the helper copies `len` items to the base of the owner instead of `count` items to its end; it adds `count` to `len`; the slots past the old length are never written; it is undefined whenever the source lies inside the owner's own live prefix |
| VecExtend.ExtendRawAsWrittenExample | src/traits/vec/mod.rs:705-712 | extending `[1, 2]` by `[7, 8]` as written gives the slots `7, 8, -, -` with `len` 4, which is not a valid owner |
| VecExtend.ExtendRawAsWrittenBreaksInvariant | src/traits/vec/mod.rs:705-712 | as written, extending by at least one item into empty slots always produces an invalid owner |
| VecExtend.ExtendRaw | src/traits/vec/mod.rs:705-712 | the corrected helper appends exactly the `count` source items and drops nothing |
| VecExtend.AppendUnchecked | src/traits/vec/mod.rs:51-57 | corrected (through `ExtendRaw`): with room, the other owner's elements are appended in order and nothing is dropped |
| VecExtend.AppendUncheckedAsWritten | src/traits/vec/mod.rs:51-57 | as written: undefined exactly when the other buffer is shorter than `len`; otherwise the owner's first `len` slots are overwritten with the other's first `len` slots and `len` grows by the other's length |
| VecExtend.Append | src/traits/vec/mod.rs:59-67 | corrected (through `ExtendRaw`): a failing `reserve(other.len)` panics with that panic; otherwise the other owner's elements are appended |
| VecExtend.AppendAsWritten | src/traits/vec/mod.rs:59-67 | as written: a failing `reserve` panics with that panic; otherwise it behaves as `append_unchecked` as written |
| VecExtend.AppendAsWrittenExample | src/traits/vec/mod.rs:51-67 | appending `[7, 8]` to `[1, 2]` in four slots as written leaves `7, 8, -, -` with `len` 4, not a valid owner; the corrected append gives `[1, 2, 7, 8]` |
| VecExtend.ExtendFromSliceUnchecked | src/traits/vec/mod.rs:409-414 | corrected (through `ExtendRaw`): with room, the slice is appended in order |
| VecExtend.ExtendFromSliceUncheckedAsWritten | src/traits/vec/mod.rs:409-414 | as written: undefined exactly when the slice is shorter than `len`; otherwise the first `len` slots are overwritten with the slice's first `len` elements and `len` grows by the slice's length |
| VecExtend.ExtendFromSlice | src/traits/vec/mod.rs:416-422 | corrected (through `ExtendRaw`): a failing `reserve` panics with that panic; otherwise the slice is appended |
| VecExtend.ExtendFromSliceAsWritten | src/traits/vec/mod.rs:416-422 | as written: a failing `reserve` panics with that panic; otherwise it behaves as `extend_from_slice_unchecked` as written |
| VecExtend.ExtendFromWithin | src/traits/vec/mod.rs:424-434 | corrected (through `ExtendRaw`): a bad range panics as `slice_range` does; then a failing `reserve` panics; otherwise the owner's own elements in the range are appended after the old ones |
| VecExtend.ExtendFromWithinAsWritten | src/traits/vec/mod.rs:424-434 | as written: a bad range panics as `slice_range` does; then a failing `reserve` panics with that panic; otherwise it never panics (what it does is stated by `ExtendFromWithinAsWrittenIsUndefined` for ranges starting before `len` and by `ExtendFromWithinAsWrittenAtEnd` for ranges starting at `len`) |
| VecExtend.ExtendFromWithinAsWrittenIsUndefined | src/traits/vec/mod.rs:424-434 | as written, any range starting before `len` in a non-empty owner makes the helper copy overlapping regions or read past the allocation, which is undefined behaviour |
| VecExtend.ExtendFromWithinAsWrittenAtEnd | src/traits/vec/mod.rs:424-434 | as written, a range starting at `len` is empty, and the helper copies the `len` slots from `len` on over the live prefix: undefined when they run past the allocation, otherwise an owner of the same length whose elements are replaced by those slots |
| VecExtend.RawFromLen | src/traits/vec/mod.rs:705-712 | the helper as written, copying from the owner's own `len`, is undefined when the `len` slots from there run past the allocation and otherwise copies them over the live prefix, keeping `len` |
| VecExtend.ExtendFromWithinAsWrittenAtEndExample | src/traits/vec/mod.rs:424-434 | `extend_from_within(2..)` on `[1, 2]` in four slots, with room, as written leaves four empty slots and `len` 2: both elements are lost and the owner is not valid |
| VecExtend.ExtendFromWithinWholeDoubles | src/traits/vec/mod.rs:424-434 | corrected (through `ExtendRaw`): extending from the whole range `..` doubles the sequence; as written the same call on a non-empty owner is undefined |
| VecResize.WriteEach | src/traits/vec/mod.rs:367-370 | the write loop puts the `k`-th produced value into slot `lo + k` and leaves every other slot alone; the loop is undefined exactly when it runs past the allocation |
| VecResize.ResizeAsWritten | src/traits/vec/mod.rs:361-375 | as written, growing past the allocation is undefined because nothing reserves; growing within it appends `new_len - len - 1` clones and then the value itself; shrinking truncates |
| VecResize.Resize | src/traits/vec/mod.rs:361-375 | with `reserve` called first, growing either panics with `reserve`'s panic or appends the clones and then the value; shrinking keeps the prefix and drops the rest |
| VecResize.ResizeWithAsWritten | src/traits/vec/mod.rs:377-390 | as written, growing past the allocation is undefined; growing within it appends the generator's values in call order; shrinking truncates |
| VecResize.ResizeWith | src/traits/vec/mod.rs:377-390 | with `reserve` called first, growing either panics with `reserve`'s panic or appends the generated values; shrinking truncates |
| VecResize.ResizeFullOwnerExample | src/traits/vec/mod.rs:361-390 | growing a full `[1, 2]` to 3 is undefined as written, and panics with the reserve message on a backing that cannot grow |
| VecResize.ResizeThenTruncate | src/traits/vec/mod.rs:361-375 | growing and then truncating back restores the elements and drops exactly the added ones |
| VecRetain.RetainMut | src/traits/vec/mod.rs:205-277 | calls the closure once per element in index order; keeps exactly the accepted elements, in order and as the closure left them; drops each rejected one once; `len` shrinks by the number rejected |
| VecRetain.BackshiftFinish | src/traits/vec/mod.rs:219-234 | the guard's drop sets `len` to `original_len - deleted`, keeps the kept prefix, moves the unprocessed tail back over the gap and drops nothing |
| VecRetain.ProcessOne | src/traits/vec/mod.rs:252-270 | one turn hands the closure the element at `processed` and advances `processed`; a rejected element, as the closure left it, is dropped in place and counted as deleted; a kept one moves back to `processed - deleted`; the kept prefix is untouched |
| VecRetain.BackshiftRestores | src/traits/vec/mod.rs:219-235 | from any state of the loops, including a panic in the closure before it modifies its element, the guard's drop leaves a valid owner holding the kept elements followed by the unvisited ones, with exactly the rejected ones dropped |
| VecRetain.ProcessOneKeepsInv | src/traits/vec/mod.rs:252-271 | one turn of the loop keeps the loop invariant: kept prefix, untouched tail, rejected log |
| VecRetain.KeepStepKeepsInv | src/traits/vec/mod.rs:264-270 | keeping an element moves it back over the gap and keeps the invariant |
| VecRetain.RejectStepKeepsInv | src/traits/vec/mod.rs:254-257 | rejecting an element drops it in place and keeps the invariant |
| VecRetain.KeepMovesOne | src/traits/vec/mod.rs:264-270 | a kept element lands at `processed - deleted`, and no other slot but its old one changes |
| VecRetain.RejectDropsOne | src/traits/vec/mod.rs:254-257 | a rejected element is appended to the drop log; only its own slot changes |
| VecRetain.RetainCountsEvery | src/traits/vec/mod.rs:252-271 | every element ends up either kept or rejected: the two counts add up to the original length |
| VecRetain.RetainPartitions | src/traits/vec/mod.rs:252-271 | when the closure changes nothing, the kept and the rejected elements together are the original elements, as a multiset |
| VecRetain.KeepAllIsNoop | src/traits/vec/mod.rs:205-277 | a closure that keeps everything unchanged leaves the sequence as it was and drops nothing |
| VecRetain.RejectAllDropsAll | src/traits/vec/mod.rs:205-277 | a closure that rejects everything drops every element once, in order |
| VecRetain.LiftedSplitsByTest | src/traits/vec/mod.rs:197-203 | through `retain`'s closure, every kept element passes the test and every rejected one fails it |
| VecRetain.Retain | src/traits/vec/mod.rs:197-203 | the elements left are exactly the ones that pass the test, in their original order; the ones dropped are exactly the failing ones, dropped front to back; together they are the original elements, as a multiset |
| VecDedup.KeptUpTo | src/traits/vec/mod.rs:288-359 | at most `n` elements are kept from the first `n`, and the first element is always kept |
| VecDedup.DroppedUpTo | src/traits/vec/mod.rs:288-359 | the kept and the dropped counts add up to the number of elements compared |
| VecDedup.DedupPartitions | src/traits/vec/mod.rs:341-355 | every compared element is either kept or dropped, exactly once (multiset partition) |
| VecDedup.NoDuplicatePrefix | src/traits/vec/mod.rs:297-312 | a prefix in which no element shares a bucket with its predecessor is kept whole and nothing is dropped |
| VecDedup.FillGapRestores | src/traits/vec/mod.rs:319-332 | from any state of the second loop, including a panic in the comparator, the guard's drop leaves a valid owner holding the kept elements followed by the unvisited ones, with exactly the duplicates found so far dropped |
| VecDedup.FillGapFinish | src/traits/vec/mod.rs:319-332 | the guard's drop shortens `len` by `read - write`, keeps the first `write` slots, moves the unvisited tail down to `write` and drops nothing |
| VecDedup.DedupOne | src/traits/vec/mod.rs:342-355 | one turn advances `read`; an element in the last kept one's bucket is dropped in place; any other is copied down to `write`, which advances; the kept prefix is untouched |
| VecDedup.DedupOneKeepsInv | src/traits/vec/mod.rs:342-355 | one turn of the second loop keeps its invariant and advances `read` by one |
| VecDedup.DuplicateKeepsGap | src/traits/vec/mod.rs:346-348 | a duplicate is dropped in place; the kept prefix and the unvisited tail stay as they were |
| VecDedup.DistinctKeepsGap | src/traits/vec/mod.rs:349-354 | a distinct element is copied down to `write` and extends the kept prefix |
| VecDedup.FirstDuplicateDropped | src/traits/vec/mod.rs:333-340 | after the first duplicate is dropped, the guard is in a state of the second loop's invariant |
| VecDedup.LastGapFinishes | src/traits/vec/mod.rs:356-357 | once `read` reaches `len`, setting `len` to `write` leaves exactly the kept elements |
| VecDedup.FillGapFrom | src/traits/vec/mod.rs:333-358 | from the first duplicate on, the second loop keeps and drops exactly what the bucket test decides |
| VecDedup.DedupBy | src/traits/vec/mod.rs:288-359 | the owner keeps exactly the elements each of which differs from the last one kept, in order; it drops the others, each once, in order; an owner of length at most 1, or one without adjacent duplicates, is returned unchanged |
| VecDedup.EqualityLeavesNoAdjacentRepeats | src/traits/vec/mod.rs:288-359 | with equality as the bucket test, no two adjacent kept elements are equal |
| VecDedup.EqualityKeepsEveryValue | src/traits/vec/mod.rs:288-359 | with equality as the bucket test, every value of the input is still present |
| VecDedup.DedupByEquality | src/traits/vec/mod.rs:288-359 | deduplicating by equality removes exactly the consecutive repeats: no adjacent repeats remain and no value is lost |
| VecDedup.KeyLeavesNoAdjacentRepeats | src/traits/vec/mod.rs:279-286 | deduplicating by key leaves no two neighbours with the same key |
| VecDedup.KeyKeepsEveryKey | src/traits/vec/mod.rs:279-286 | deduplicating by key keeps an element for every key of the input |
| VecDedup.DedupByKey | src/traits/vec/mod.rs:279-286 | keeps the first element of every run of equal keys, in order, and drops the others front to back; no two neighbours left share a key; every key of the input is still present; each element is either left or dropped, exactly once; an owner of length at most 1, or one without adjacent equal keys, is returned unchanged |
| Drains.DrainAsWritten | src/traits/vec/mod.rs:181-195 | a bad range panics as `slice_range` does; otherwise the drain's cursors span the range and the tail is remembered, but the owner's `len` stays at its old value |
| Drains.DrainOf | src/traits/vec/mod.rs:181-195 | the corrected construction: as written, but with the owner's `len` set to the range start before the drain is handed out |
| Drains.StateCursors | src/traits/vec/drain.rs:5-13 | in every drain state the unyielded slots still hold the original elements at their original indices |
| Drains.Next | src/traits/vec/drain.rs:44-49 | `None` once the cursors meet; otherwise it moves out the element at the front cursor and advances that cursor by one |
| Drains.NextBack | src/traits/vec/drain.rs:57-61 | `None` once the cursors meet; otherwise it moves out the element just before the back cursor and lowers that cursor by one |
| Drains.NextKeepsState | src/traits/vec/drain.rs:44-49 | `next` keeps the drain state and returns the original element at the front cursor |
| Drains.NextBackKeepsState | src/traits/vec/drain.rs:57-61 | `next_back` keeps the drain state and returns the original element just before the back cursor |
| Drains.RunKeepsState | src/traits/vec/drain.rs:44-61 | any interleaving of `next` and `next_back` keeps the drain state and drops nothing; the cursors only move inward |
| Drains.RunYieldsInOrder | src/traits/vec/drain.rs:44-61 | in any interleaving, the front calls return the range's elements from the start in order, and the back calls return them from the end in reverse order |
| Drains.SizeHint | src/traits/vec/drain.rs:51-53 | the size hint is exact: the upper bound equals the lower bound |
| Drains.LenCountsRemaining | src/traits/vec/drain.rs:122-125 | the corrected `len` equals the size hint; it is positive exactly when `next` and `next_back` return a value; each call lowers it by one |
| Drains.LenAsWrittenIsTail | src/traits/vec/drain.rs:122-125 | as written, `len` returns the tail length `old_len - end`, not the number of unyielded elements, which is at most `end - start` |
| Drains.Len | src/traits/vec/drain.rs:122-125 | corrected: `len` is the size hint's lower bound, which equals its upper bound |
| Drains.LenAsWritten | src/traits/vec/drain.rs:122-125 | as written: `len` matches the number of elements still to be produced only when the tail happens to be that long |
| Drains.DropGuardFinish | src/traits/vec/drain.rs:69-85 | the guard never panics and drops nothing; it is undefined exactly when the tail must move and the move runs past the allocation; otherwise the tail lands in the slots from the owner's current `len` on, every other slot keeps its value, and `len` grows by the tail length |
| Drains.DropDrain | src/traits/vec/drain.rs:64-119 | never panics; undefined exactly when the guard's tail move is; on success the elements not produced are destroyed front to back and `len` grows by the tail length |
| Drains.GuardRestores | src/traits/vec/drain.rs:69-85 | after a correct drain, the guard leaves a valid owner holding the prefix before the range followed by the tail |
| Drains.DropRestores | src/traits/vec/drain.rs:64-119 | dropping a correct drain destroys exactly the unyielded elements, once each, in order, and leaves the owner as the prefix before the range followed by the tail |
| Drains.DrainRemovesRange | src/traits/vec/drain.rs:64-119 | with the corrected construction (`DrainOf`): for any interleaving of calls, each element of the range is yielded from the front, yielded from the back or destroyed on drop, exactly once, and the owner keeps exactly the elements outside the range |
| Drains.DrainReassembles | src/traits/vec/drain.rs:64-119 | with the corrected construction (`DrainOf`): putting back at `start` the front-yielded, destroyed and back-yielded elements (the last in index order) rebuilds the original sequence |
| Drains.DropAsWrittenCorrupts | src/traits/vec/drain.rs:69-85 | after a drain as written over a non-empty range, dropping is undefined exactly when the tail copy runs past the allocation; otherwise the owner ends up with `len = 2·old_len - end`, longer than the intended `old_len - (end - start)`, and not valid |
| Drains.DropAsWrittenMovesTail | src/traits/vec/drain.rs:69-85 | after a drain as written over a non-empty range, a successful drop leaves the tail copied to the slots from the old `len` on, the drained range empty and every other slot as it was, so slot `start` is an empty slot inside the live prefix |
| Drains.GuardAfterEmptiedRange | src/traits/vec/drain.rs:69-85 | the guard as written, run with `len` unchanged after the whole range has been emptied, places the slots as `DropAsWrittenMovesTail` states |
| Drains.DrainAsWrittenExample | src/traits/vec/mod.rs:181-195 | draining `1..3` of `[1, 2, 3, 4, 5]` as written and dropping after one `next` leaves `len` 7, an invalid owner and the slots `1, -, -, 4, 5, 4, 5, -` |
| Drains.DrainOfExample | src/traits/vec/drain.rs:64-119 | with the corrected construction the same run yields `2` and leaves `[1, 4, 5]` with `3` dropped; `len` reports 1 where the code as written reports 2 |
| Drains.ZstTruncate | src/traits/vec/mod.rs:134-139 | for zero-sized elements, truncating to `n` leaves `min(n, len)` and drops exactly the difference |
| Drains.DropDrainZst | src/traits/vec/drain.rs:93-102 | for zero-sized elements, dropping the drain destroys exactly the unyielded count and adds the tail back to `len` |
| Drains.ZstDrainCounts | src/traits/vec/drain.rs:93-102 | for zero-sized elements, a correct drain ends with `len - (end - start)` elements and every element of the range counted once as yielded or dropped; as written it ends with `len + (len - end)` |
| StackVecs.CapacityBoundsLen | src/stack_vec/mod.rs:38-45 | the capacity is `N` for sized elements and bounds `len` for every valid vector; zero-sized elements get `usize::MAX` |
| StackVecs.Capacity | src/stack_vec/mod.rs:38-45 | the capacity is `N` for sized elements and `usize::MAX` for zero-sized elements |
| StackVecs.New | src/stack_vec/mod.rs:16-22 | an empty valid vector of `N` uninitialised slots that has dropped nothing |
| StackVecs.SetLenStoresVerbatim | src/stack_vec/mod.rs:47-50 | `set_len` stores the length unchecked: lowering it keeps the vector valid and leaks the rest; a length past `N` breaks the invariant |
| StackVecs.StackReserve | src/stack_vec/mod.rs:628-631 | `reserve` panics for every request and never returns an owner, so it keeps the reserve promise vacuously |
| StackVecs.CheckedGrowthPanics | src/stack_vec/mod.rs:628-631 | on a `StackVec`, every checked operation that may grow panics with the reserve message, even when the array has room: `push`, `insert`, `append`, `extend_from_slice`, `extend_from_within`, and growing `resize`/`resize_with` as corrected; as written, growing `resize`/`resize_with` never call `reserve` and succeed when the array has room |
| StackVecs.StackReserveSound | src/stack_vec/mod.rs:628-631 | that `reserve` trivially keeps the reserve promise, since it never returns normally |
| StackVecs.SplitOffUnchecked | src/stack_vec/mod.rs:633-647 | the original keeps its array and the first `at` elements; a fresh array of the same size receives the rest |
| StackVecs.SplitOff | src/traits/vec/mod.rs:25-39 | panics with the index and length exactly when `at > len`; otherwise the two parts, concatenated, are the original elements, and the first has length `at` |
| StackVecs.SplitAppendRoundTrip | src/stack_vec/mod.rs:633-647 | through the corrected `append_unchecked`: appending the split-off part back restores the original elements and drops nothing |
| StackVecs.SplitOffExample | src/traits/vec/mod.rs:25-39 | splitting `[1, 2, 3, 4, 5]` at 2 gives `[1, 2]` and `[3, 4, 5]`; at 6 it panics |
| StackVecs.FromSliceCopyUnchecked | src/stack_vec/mod.rs:24-36 | panics with "Capacity overflow" exactly when the slice is longer than `N`; otherwise a fresh array whose elements are the slice |
| StackVecs.FromArray | src/stack_vec/mod.rs:316-324 | the array becomes the buffer: full, with the array's elements in order |
| StackVecs.Extend | src/stack_vec/mod.rs:300-314 | pushes the items one by one; never undefined; nothing to push leaves the vector as it was; a failing first `reserve` panics with its panic; any success has the items appended in order; with a `reserve` that grants every request, it succeeds |
| StackVecs.FromIterator | src/stack_vec/mod.rs:420-428 | a new vector extended by the items: on success it holds exactly the items; with a `reserve` that grants every request, it succeeds |
| StackVecs.StackExtendPanics | src/stack_vec/mod.rs:308-314 | on a `StackVec`, `extend` and `from_iter` succeed exactly when there is nothing to push |
| IntoIters.IntoIterOf | src/stack_vec/mod.rs:437-449 | the iterator's remaining elements are the vector's elements |
| IntoIters.Remaining | src/stack_vec/mod.rs:662-665 | `as_slice` has `end - start` elements |
| IntoIters.Len | src/stack_vec/mod.rs:735-739 | `len` is the number of elements still to be produced |
| IntoIters.SizeHint | src/stack_vec/mod.rs:699-703 | `size_hint` is exact: both bounds are the number of elements still to be produced |
| IntoIters.Count | src/stack_vec/mod.rs:705-708 | `count` equals the number of elements repeated `next` calls produce; since it consumes the iterator, the iterator is then dropped, which destroys every remaining element in order |
| IntoIters.Next | src/stack_vec/mod.rs:689-697 | `None` and no change once the iterator is exhausted; otherwise it returns the first remaining element, and the rest remain |
| IntoIters.NextBackAsWritten | src/stack_vec/mod.rs:716-726 | as written it never panics; it is undefined exactly when slot `end` is past the array or empty; otherwise it returns the value in slot `end`, one past the last remaining element |
| IntoIters.NextBack | src/stack_vec/mod.rs:716-726 | corrected: returns the last remaining element, and the others remain |
| IntoIters.Drop | src/stack_vec/mod.rs:728-733 | dropping destroys exactly the remaining elements, in order, and leaves their slots empty |
| IntoIters.Last | src/stack_vec/mod.rs:710-713 | corrected (through `NextBack`): returns the last remaining element and drops the others in order; an exhausted iterator gives `None` and drops nothing |
| IntoIters.LastAsWritten | src/stack_vec/mod.rs:710-713 | as written, `last` is undefined exactly when `next_back` as written is |
| IntoIters.Collect | src/stack_vec/mod.rs:689-697 | repeated `next` calls end with an exhausted iterator |
| IntoIters.CollectYieldsRemaining | src/stack_vec/mod.rs:689-697 | repeated `next` calls produce the remaining elements in order, each once, and drop nothing |
| IntoIters.ArrayRoundTrip | src/stack_vec/mod.rs:437-449 | iterating a vector built from an array gives back the array and leaves nothing to drop |
| IntoIters.TakeNext | src/stack_vec/mod.rs:689-697 | `k` calls of `next` keep the iterator well formed and drop nothing |
| IntoIters.TakeNextSplits | src/stack_vec/mod.rs:689-697 | `k` calls of `next` produce the first `k` remaining elements and leave the others |
| IntoIters.NextThenDropPartitions | src/stack_vec/mod.rs:689-733 | after any number `k` of `next` calls, dropping the iterator destroys exactly the elements not produced, so each element is produced or destroyed exactly once, in order |
| IntoIters.NextBackAsWrittenExample | src/stack_vec/mod.rs:716-726 | over a full `[1, 2]`, `next_back` and `last` as written read past the array; over `[1, 2]` in three slots they read the empty third slot; the corrected versions return 2 |
| IntoIters.NextBackAsWrittenPastFull | src/stack_vec/mod.rs:716-726 | for every full, non-empty `StackVec`, `next_back` as written reads past the array |

## Left out

- The heap-backed adapters (`Vec` and `Box` of the standard library) and the `VecUnsized` forwarding implementations: they delegate to the standard library, which is not part of this model.
- `leak` and `spare_capacity_mut`: they hand out raw views of the buffer and change no state the model tracks.
- `Clone` in `extend_from_slice` and `extend_from_within`: both require `T: Clone` but never call `clone` (src/traits/vec/mod.rs:409-434 and 705-712); they copy the elements' bits. The model copies the values, so the duplicated ownership this creates (two owners that would both drop the same element) is not modelled. `resize` does call `clone`, modelled as a function parameter; a `clone` that panics is not modelled.
- The closures' `&mut` access to elements is modelled only for `retain_mut`, which returns the updated element. `dedup_by`'s comparator is a pure function, so it cannot change the elements it compares.
- The stateful `resize_with` generator is modelled as a function of its call index.
- Unwinding is not executed. Each guard's `drop` is proved correct from every loop state instead (`BackshiftRestores`, `FillGapRestores`, `GuardRestores`). A `retain_mut` closure that modifies its element and then panics leaves a state outside the loop invariant, which is not covered.
- Elements whose own `Drop` panics are not modelled.
- `Send`/`Sync`, `Debug`, `Hash`, the comparison traits, `Deref`/`AsRef` and `Borrow`: these forward to the slice and add no behaviour.
- `Drain::as_slice` and `IntoIter::as_mut_slice`: read-only or forwarding views.
- `IntoIter`'s `Clone` and `Default`.
- `StackVec`'s `Clone` and `From<&[T; N]>`: element-wise clones of a whole array.
- FromSliceCopyUnchecked: models sized elements only. For zero-sized elements the capacity sentinel lets any length through, and no slot storage exists to model.
- `UNINIT_ARRAY` and `assume_init` are modelled as a sequence of `Uninit` slots. `StackVec` has no `Drop` implementation, so dropping one runs the drop glue of its `[T; N]` field, which destroys all `N` slots, the uninitialised ones included. `IntoIter`'s array field is dropped the same way after `IntoIter::drop` has run, which destroys the remaining elements a second time. Neither array drop is modelled: the model's drops are the explicit `drop_in_place` calls of the code.
- Integer widths: `usize` is the subset type `0..2^64`. The unchecked arithmetic (`unchecked_add`/`unchecked_sub`) is stated through preconditions, not wrap-around.
- DropDrain: its own contract states what it destroys and the new `len`, not what the slots hold afterwards. For the corrected drain that is stated by `DropRestores` and `DrainRemovesRange`, and for the drain as written by `DropAsWrittenMovesTail`; `DropAsWrittenCorrupts` states only the new `len` and the lost validity.
- DrainRemovesRange: stated for the corrected construction `DrainOf`; as written the drop leaves the owner as `DropAsWrittenMovesTail` states.
- DrainReassembles: stated for the corrected construction `DrainOf`, like `DrainRemovesRange`.
- Last: states the corrected `last`, through `NextBack`; as written it goes through `next_back` as written, stated by `LastAsWritten`.
- LastAsWritten: its contract only relates its undefinedness to `NextBackAsWritten`; the correct behaviour is stated for `Last`.
- Collect: its own contract only says the iterator ends exhausted; what it produces is stated by `CollectYieldsRemaining`.
- AppendUnchecked: corrected, built on the intended helper `ExtendRaw`; the code as written is `AppendUncheckedAsWritten`.
- Append: corrected, built on `ExtendRaw`; the code as written is `AppendAsWritten`.
- ExtendFromSliceUnchecked: corrected, built on `ExtendRaw`; the code as written is `ExtendFromSliceUncheckedAsWritten`.
- ExtendFromSlice: corrected, built on `ExtendRaw`; the code as written is `ExtendFromSliceAsWritten`.
- ExtendFromWithin: corrected, built on `ExtendRaw`; the code as written is `ExtendFromWithinAsWritten`, which is undefined for every range starting before `len` in a non-empty owner and overwrites the elements for a range starting at `len`.
- ExtendFromWithinWholeDoubles: states the corrected operation; as written the same call on a non-empty owner is undefined (`ExtendFromWithinAsWrittenIsUndefined`).
- SplitAppendRoundTrip: uses the corrected `append_unchecked`; as written, appending the split-off part overwrites the front of the owner.
- ExtendFromWithinAsWritten: its own contract covers only the panics; what it does otherwise is stated by `ExtendFromWithinAsWrittenIsUndefined` and `ExtendFromWithinAsWrittenAtEnd`.
- SwapRemoveUnchecked: corrected, moving the last element into `index`; the code as written is `SwapRemoveUncheckedAsWritten`.

## Findings

| source | as written | input that shows it | evidently intended | confidence | as-written member | corrected member |
|---|---|---|---|---|---|---|
| src/traits/vec/mod.rs:94-101 | `swap_remove_unchecked` copies slot `index` into slot `len - 1` (`copy_from` with the arguments swapped) | `[1, 2, 3]`, `swap_remove(0)`: returns `1` but leaves an empty slot followed by `2` in the live prefix | copy the last element into slot `index`, giving `[3, 2]` | high; not executed | VecPrimitives.SwapRemoveUncheckedAsWritten, VecPrimitives.SwapRemoveAsWrittenLosesLast, VecPrimitives.SwapRemoveAsWrittenExample | VecPrimitives.SwapRemoveUnchecked |
| src/traits/vec/mod.rs:705-712 | `extend_vec_with_raw_parts_unchecked` copies `len` items to the base of the owner, not `count` items to `as_mut_ptr() + len` | `[1, 2]` in four slots extended by `[7, 8]`: slots become `7, 8, -, -` with `len` 4; `extend_from_within` of any range starting before `len` on a non-empty owner copies overlapping regions, and of `len..` on `[1, 2]` in four slots replaces both elements with empty slots | copy `count` items to the end of the live prefix | high; not executed | VecExtend.ExtendRawAsWritten, VecExtend.ExtendRawAsWrittenExample, VecExtend.ExtendRawAsWrittenBreaksInvariant, VecExtend.AppendUncheckedAsWritten, VecExtend.AppendAsWritten, VecExtend.AppendAsWrittenExample, VecExtend.ExtendFromSliceUncheckedAsWritten, VecExtend.ExtendFromSliceAsWritten, VecExtend.ExtendFromWithinAsWritten, VecExtend.ExtendFromWithinAsWrittenIsUndefined, VecExtend.ExtendFromWithinAsWrittenAtEnd, VecExtend.ExtendFromWithinAsWrittenAtEndExample | VecExtend.ExtendRaw, VecExtend.AppendUnchecked, VecExtend.Append, VecExtend.ExtendFromSliceUnchecked, VecExtend.ExtendFromSlice, VecExtend.ExtendFromWithin, VecExtend.ExtendFromWithinWholeDoubles |
| src/traits/vec/mod.rs:181-195 | `drain` never sets the owner's `len` to `start`, yet the drop guard appends the tail after the owner's current `len` | `[1, 2, 3, 4, 5]` in eight slots, drain `1..3`, one `next`, drop: `len` becomes 7 and the slots read `1, -, -, 4, 5, 4, 5, -`, an empty slot and the tail twice inside the live prefix | set `len` to `start` before handing out the drain, so that the owner ends as `[1, 4, 5]` | high; not executed | Drains.DrainAsWritten, Drains.DropAsWrittenCorrupts, Drains.DropAsWrittenMovesTail, Drains.DrainAsWrittenExample | Drains.DrainOf, Drains.DrainRemovesRange, Drains.DrainOfExample |
| src/traits/vec/drain.rs:122-125 | `Drain::len` returns `tail_len` | the drain above after one `next`: reports 2 where one element remains | the number of unyielded elements, `back - front`, equal to `size_hint` | high; not executed | Drains.LenAsWritten, Drains.LenAsWrittenIsTail | Drains.Len, Drains.LenCountsRemaining |
| src/traits/vec/mod.rs:361-390 | `resize` and `resize_with` write the new elements without calling `reserve` | a full `[1, 2]` resized to 3 writes past the allocation | call `reserve(new_len - len)` before writing, as `push` and `insert` do | medium; not executed | VecResize.ResizeAsWritten, VecResize.ResizeWithAsWritten, VecResize.ResizeFullOwnerExample | VecResize.Resize, VecResize.ResizeWith |
| src/stack_vec/mod.rs:716-726 | `IntoIter::next_back` reads slot `end` and then lowers `end` | `StackVec::from([1, 2]).into_iter().next_back()` reads one past the array; `last` calls it too | read slot `end - 1`, returning `2` | high; not executed | IntoIters.NextBackAsWritten, IntoIters.LastAsWritten, IntoIters.NextBackAsWrittenExample, IntoIters.NextBackAsWrittenPastFull | IntoIters.NextBack, IntoIters.Last |
