/**
  Results of the modelled operations.

  A checked operation of the library either returns or panics; an unchecked
  one trusts its caller, and a violated precondition is undefined behaviour.
  Both kinds of failure are values here: `Fail` carries the panic the Rust
  code raises (one constructor per panic message), `Undefined` marks the
  point where code as written would perform undefined behaviour.
 */
module Outcomes {

  /** Largest value of Rust's `usize` on a 64-bit target. */
  const USIZE_MAX: nat := 0xFFFF_FFFF_FFFF_FFFF

  type usize = x: nat | x <= USIZE_MAX

  /** The panics raised by the core, one per message. */
  datatype Panic =
    | SplitIndex(at: nat, len: nat)           // "`at` split index ... should be <= len"
    | SwapRemoveIndex(index: nat, len: nat)   // "swap_remove index ... should be < len"
    | RemovalIndex(index: nat, len: nat)      // "removal index ... should be < len"
    | InsertionIndex(index: nat, len: nat)    // "insertion index ... should be <= len"
    | StartIndexOverflow                      // "attempted to index slice from after maximum usize"
    | EndIndexOverflow                        // "attempted to index slice up to maximum usize"
    | IndexOrder(start: nat, end: nat)        // "slice index starts at .. but ends at .."
    | EndIndexLen(end: nat, len: nat)         // "range end index .. out of range for slice of length .."
    | CapacityOverflow                        // "Capacity overflow"
    | CannotReserve                           // "Can not reserve in a StackVec!"

  /** The kinds of undefined behaviour that code as written can reach. */
  datatype Ub =
    | OutOfBounds       // a read or write outside the allocation
    | UninitRead        // a read of a slot that holds no value
    | OverlappingCopy   // `copy_nonoverlapping` on overlapping ranges

  /** Rust's `Option`, as returned by `pop` and the iterators. */
  datatype Option<+T> = None | Some(value: T)

  datatype Outcome<+R> = Ok(value: R) | Fail(panic: Panic) | Undefined(ub: Ub) {

    predicate IsFailure() {
      !Ok?
    }

    function PropagateFailure<U>(): Outcome<U>
      requires !Ok?
    {
      if Fail? then Fail(panic) else Undefined(ub)
    }

    function Extract(): R
      requires Ok?
    {
      value
    }
  }
}
