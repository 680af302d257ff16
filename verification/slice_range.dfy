/**
  `slice_range`: normalises a `RangeBounds<usize>` against a length into a
  half-open `start..end` with `start <= end <= len`, panicking otherwise.
 */
module Ranges {
  import opened Outcomes

  datatype Bound = Included(n: usize) | Excluded(n: usize) | Unbounded

  datatype Range = Range(start: nat, end: nat) {
    function Len(): nat
      requires start <= end
    {
      end - start
    }
  }

  /** The index `i` lies within the range written with bounds `lo` and `hi`. */
  predicate Admits(lo: Bound, hi: Bound, i: nat) {
    && (match lo
        case Included(s) => s <= i
        case Excluded(s) => s < i
        case Unbounded => true)
    && (match hi
        case Included(e) => i <= e
        case Excluded(e) => i < e
        case Unbounded => true)
  }

  /** The first index the start bound admits, in unbounded arithmetic. */
  function StartOf(lo: Bound): nat {
    match lo
    case Included(s) => s
    case Excluded(s) => s + 1
    case Unbounded => 0
  }

  /** One past the last index the end bound admits, in unbounded arithmetic. */
  function EndOf(hi: Bound, len: nat): nat {
    match hi
    case Included(e) => e + 1
    case Excluded(e) => e
    case Unbounded => len
  }

  function SliceRange(lo: Bound, hi: Bound, len: usize): (r: Outcome<Range>)
    ensures !r.Undefined?
    // the start overflow is reported first, then the end overflow
    ensures lo == Excluded(USIZE_MAX) ==> r == Fail(StartIndexOverflow)
    ensures lo != Excluded(USIZE_MAX) && hi == Included(USIZE_MAX) ==> r == Fail(EndIndexOverflow)
    // then a reversed range, and only then an end past the length
    ensures lo != Excluded(USIZE_MAX) && hi != Included(USIZE_MAX) ==>
              && (StartOf(lo) > EndOf(hi, len) ==> r == Fail(IndexOrder(StartOf(lo), EndOf(hi, len))))
              && (StartOf(lo) <= EndOf(hi, len) && EndOf(hi, len) > len ==> r == Fail(EndIndexLen(EndOf(hi, len), len)))
              && (StartOf(lo) <= EndOf(hi, len) <= len ==> r.Ok?)
    // a normalised range is ordered, inside the length, and admits exactly the indices the bounds admit
    ensures r.Ok? ==> r.value.start <= r.value.end <= len
    ensures r.Ok? ==> forall i: nat :: r.value.start <= i < r.value.end <==> Admits(lo, hi, i) && i < len
    // the range is built from the two resolved bounds, so even an empty one starts where its start bound says
    ensures r.Ok? ==> r.value == Range(StartOf(lo), EndOf(hi, len))
  {
    var start :- match lo
      case Included(s) => Ok(s)
      case Excluded(s) => if s == USIZE_MAX then Fail(StartIndexOverflow) else Ok(s + 1)
      case Unbounded => Ok(0);
    var end :- match hi
      case Included(e) => if e == USIZE_MAX then Fail(EndIndexOverflow) else Ok(e + 1)
      case Excluded(e) => Ok(e)
      case Unbounded => Ok(len);
    if start > end then Fail(IndexOrder(start, end))
    else if end > len then Fail(EndIndexLen(end, len))
    else Ok(Range(start, end))
  }

  /** Empty ranges keep their own start: `(1, 2)` exclusive is `2..2`, and `3..=2` is `3..3`. */
  lemma SliceRangeEmptyKeepsStart(len: usize)
    requires 3 <= len
    ensures SliceRange(Excluded(1), Excluded(2), len) == Ok(Range(2, 2))
    ensures SliceRange(Included(3), Included(2), len) == Ok(Range(3, 3))
  {
  }

  /** `..` resolves to the whole prefix, and an empty range `s..s` is accepted for every `s <= len`. */
  lemma SliceRangeFullAndEmpty(len: usize, s: usize)
    ensures SliceRange(Unbounded, Unbounded, len) == Ok(Range(0, len))
    ensures s <= len ==> SliceRange(Included(s), Excluded(s), len) == Ok(Range(s, s))
  {
  }
}
