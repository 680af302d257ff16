/**
  The raw memory of an allocation: a run of slots, each either holding a
  value the owner may still use or holding none.

  `Uninit` stands for a slot that was never written, or whose value was moved
  out by `read` or destroyed by `drop_in_place`. Copies are bitwise: they leave
  the source slots as they were, so a slot past the live prefix may still
  show a stale `Live` value.
 */
module Slots {

  datatype Slot<+T> = Live(v: T) | Uninit

  /** Slots `[lo, hi)` all hold values. */
  predicate AllLive<T>(s: seq<Slot<T>>, lo: nat, hi: nat)
    requires lo <= hi <= |s|
  {
    forall i :: lo <= i < hi ==> s[i].Live?
  }

  /** The values held by slots `[lo, hi)`, in order. */
  function Values<T>(s: seq<Slot<T>>, lo: nat, hi: nat): (r: seq<T>)
    requires lo <= hi <= |s| && AllLive(s, lo, hi)
    ensures |r| == hi - lo
    ensures forall i :: 0 <= i < |r| ==> s[lo + i] == Live(r[i])
  {
    seq(hi - lo, i requires 0 <= i < hi - lo => s[lo + i].v)
  }

  /** Slots holding the values of `xs`, in order. */
  function LiveSlots<T>(xs: seq<T>): (r: seq<Slot<T>>)
    ensures |r| == |xs| && AllLive(r, 0, |r|)
    ensures Values(r, 0, |r|) == xs
  {
    seq(|xs|, i requires 0 <= i < |xs| => Live(xs[i]))
  }

  /** `n` slots holding nothing. */
  function UninitSlots<T>(n: nat): (r: seq<Slot<T>>)
    ensures |r| == n && forall i :: 0 <= i < n ==> r[i] == Uninit
  {
    seq(n, _ => Uninit)
  }

  /** `ptr.add(i).write(v)`: overwrite slot `i` without dropping what it held. */
  function Write<T>(s: seq<Slot<T>>, i: nat, v: T): seq<Slot<T>>
    requires i < |s|
  {
    s[i := Live(v)]
  }

  /** `ptr::copy(src, dst, n)`: memmove, as if through a temporary buffer. */
  function Memmove<T>(s: seq<Slot<T>>, src: nat, dst: nat, n: nat): (r: seq<Slot<T>>)
    requires src + n <= |s| && dst + n <= |s|
    ensures |r| == |s|
  {
    seq(|s|, i requires 0 <= i < |s| => if dst <= i < dst + n then s[src + (i - dst)] else s[i])
  }

  /** `p.copy_to(q, n)`: writes the `n` slots at `p` into the slots at `q`. */
  function CopyTo<T>(s: seq<Slot<T>>, p: nat, q: nat, n: nat): (r: seq<Slot<T>>)
    requires p + n <= |s| && q + n <= |s|
    ensures |r| == |s|
  {
    Memmove(s, p, q, n)
  }

  /** `p.copy_from(q, n)`: writes the `n` slots at `q` into the slots at `p`. */
  function CopyFrom<T>(s: seq<Slot<T>>, p: nat, q: nat, n: nat): (r: seq<Slot<T>>)
    requires p + n <= |s| && q + n <= |s|
    ensures |r| == |s|
  {
    Memmove(s, q, p, n)
  }

  /** The ranges `[a, a + n)` and `[b, b + n)` share no slot. */
  predicate Disjoint(a: nat, b: nat, n: nat) {
    a + n <= b || b + n <= a
  }

  /** `ptr::copy_nonoverlapping(src, dst, n)` inside one allocation. */
  function CopyNonoverlapping<T>(s: seq<Slot<T>>, src: nat, dst: nat, n: nat): (r: seq<Slot<T>>)
    requires src + n <= |s| && dst + n <= |s| && Disjoint(src, dst, n)
    ensures |r| == |s|
  {
    Memmove(s, src, dst, n)
  }

  /** `ptr::copy_nonoverlapping` from one allocation into another. */
  function CopyAcross<T>(from: seq<Slot<T>>, src: nat, into: seq<Slot<T>>, dst: nat, n: nat): (r: seq<Slot<T>>)
    requires src + n <= |from| && dst + n <= |into|
    ensures |r| == |into|
  {
    seq(|into|, i requires 0 <= i < |into| => if dst <= i < dst + n then from[src + (i - dst)] else into[i])
  }

  /** The slots `[lo, hi)` after `drop_in_place` on them: no value is left. */
  function Vacate<T>(s: seq<Slot<T>>, lo: nat, hi: nat): (r: seq<Slot<T>>)
    requires lo <= hi <= |s|
    ensures |r| == |s|
  {
    seq(|s|, i requires 0 <= i < |s| => if lo <= i < hi then Uninit else s[i])
  }
}
