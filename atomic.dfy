/** The atomic cursor cell of both drafts (`AtomicUsize`), modelled single-threaded:
    each operation is one deterministic step, and `compare_exchange_weak` never fails
    spuriously. Memory orderings have no counterpart here. */
module Atomic {

  /** The outcome of a compare-exchange: `Ok(previous)` or `Err(actual)` in the source. */
  datatype Exchange = Swapped(previous: nat) | Failed(actual: nat)

  class AtomicUsize {
    var value: nat

    constructor New(v: nat)
      ensures value == v
    {
      value := v;
    }

    /** `load(Relaxed)`: a value the cell held no later than now. The cursor only grows,
        so such a value is never above the current one; a caller must treat it as a hint
        that the compare-exchange re-validates. */
    method Load() returns (v: nat)
      ensures v <= value
    {
      v := value;
    }

    /** `compare_exchange_weak(current, desired)`: stores `desired` only when the cell still holds
        `current`; otherwise leaves the cell alone and reports what it holds. */
    method CompareExchange(current: nat, desired: nat) returns (r: Exchange)
      modifies this
      ensures old(value) == current ==> r == Swapped(current) && value == desired
      ensures old(value) != current ==> r == Failed(old(value)) && value == old(value)
    {
      if value == current {
        r := Swapped(value);
        value := desired;
      } else {
        r := Failed(value);
      }
    }
  }
}
