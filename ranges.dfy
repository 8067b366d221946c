/** Views into the backing store, as offset pairs, and the shape the granted views take:
    laid end to end from offset 0 up to the cursor. */
module Ranges {

  datatype Option<T> = None | Some(value: T)

  /** An unsigned 8-bit value, as stored in the backing slice. */
  newtype Byte = x: int | 0 <= x < 0x100

  /** The half-open byte range [lo, hi) of the backing store that a view covers. */
  datatype Range = Range(lo: nat, hi: nat) {
    predicate Contains(i: int) {
      lo <= i < hi
    }

    function Width(): nat {
      if lo <= hi then hi - lo else 0
    }
  }

  /** No byte of the store lies in both ranges. */
  ghost predicate Disjoint(r: Range, s: Range) {
    forall i :: r.Contains(i) ==> !s.Contains(i)
  }

  /** The ranges in `gs`, in the order they were granted, are laid end to end:
      the first starts at offset 0, each one starts where the previous one ended,
      and the last one ends at `end`. */
  predicate Contiguous(gs: seq<Range>, end: nat)
    decreases |gs|
  {
    if gs == [] then end == 0
    else
      var last := gs[|gs| - 1];
      last.lo <= last.hi == end && Contiguous(gs[..|gs| - 1], last.lo)
  }

  /** The number of bytes the ranges cover together. */
  function TotalWidth(gs: seq<Range>): nat
    decreases |gs|
  {
    if gs == [] then 0 else TotalWidth(gs[..|gs| - 1]) + gs[|gs| - 1].Width()
  }

  /** Granting the next `sz` bytes at the cursor keeps the grants contiguous. */
  lemma ContiguousExtend(gs: seq<Range>, end: nat, sz: nat)
    requires Contiguous(gs, end)
    ensures Contiguous(gs + [Range(end, end + sz)], end + sz)
  {
  }

  /** Every granted range is well formed and lies below the cursor. */
  lemma {:induction false} ContiguousBound(gs: seq<Range>, end: nat, i: nat)
    requires Contiguous(gs, end)
    requires i < |gs|
    ensures gs[i].lo <= gs[i].hi <= end
  {
    if i < |gs| - 1 {
      ContiguousBound(gs[..|gs| - 1], gs[|gs| - 1].lo, i);
    }
  }

  /** The first grant starts at offset 0. */
  lemma {:induction false} ContiguousStartsAtZero(gs: seq<Range>, end: nat)
    requires Contiguous(gs, end)
    requires gs != []
    ensures gs[0].lo == 0
  {
    if |gs| > 1 {
      ContiguousStartsAtZero(gs[..|gs| - 1], gs[|gs| - 1].lo);
    }
  }

  /** Each grant starts exactly where the one granted before it ended. */
  lemma {:induction false} ContiguousAdjacent(gs: seq<Range>, end: nat, i: nat)
    requires Contiguous(gs, end)
    requires i + 1 < |gs|
    ensures gs[i].hi == gs[i + 1].lo
  {
    if i + 1 < |gs| - 1 {
      ContiguousAdjacent(gs[..|gs| - 1], gs[|gs| - 1].lo, i);
    }
  }

  /** An earlier grant ends no later than a later grant starts. */
  lemma {:induction false} ContiguousOrdered(gs: seq<Range>, end: nat, i: nat, j: nat)
    requires Contiguous(gs, end)
    requires i < j < |gs|
    ensures gs[i].hi <= gs[j].lo
  {
    var prefix, last := gs[..|gs| - 1], gs[|gs| - 1];
    if j == |gs| - 1 {
      ContiguousBound(prefix, last.lo, i);
    } else {
      ContiguousOrdered(prefix, last.lo, i, j);
    }
  }

  /** Two different grants never share a byte, and the earlier one lies wholly below the
      later one. */
  lemma ContiguousDisjoint(gs: seq<Range>, end: nat, i: nat, j: nat)
    requires Contiguous(gs, end)
    requires i < |gs| && j < |gs| && i != j
    ensures Disjoint(gs[i], gs[j])
    ensures i < j ==> gs[i].hi <= gs[j].lo
  {
    if i < j {
      ContiguousOrdered(gs, end, i, j);
    } else {
      ContiguousOrdered(gs, end, j, i);
    }
  }

  /** The cursor equals the total number of bytes granted. */
  lemma {:induction false} ContiguousTotal(gs: seq<Range>, end: nat)
    requires Contiguous(gs, end)
    ensures end == TotalWidth(gs)
  {
    if gs != [] {
      ContiguousTotal(gs[..|gs| - 1], gs[|gs| - 1].lo);
    }
  }

  /** Every byte below the cursor has been granted: the grants leave no gap. */
  lemma {:induction false} ContiguousCovers(gs: seq<Range>, end: nat, k: nat)
    requires Contiguous(gs, end)
    requires k < end
    ensures exists i :: 0 <= i < |gs| && gs[i].Contains(k)
  {
    var prefix, last := gs[..|gs| - 1], gs[|gs| - 1];
    if k < last.lo {
      ContiguousCovers(prefix, last.lo, k);
      var i :| 0 <= i < |prefix| && prefix[i].Contains(k);
      assert gs[i] == prefix[i];
    } else {
      assert gs[|gs| - 1].Contains(k);
    }
  }

  /** When the cursor is 0 or strictly below the capacity `len`, the last byte of the
      store, at offset `len - 1`, lies in no grant. */
  lemma LastByteNeverGranted(gs: seq<Range>, end: nat, len: nat)
    requires Contiguous(gs, end)
    requires end == 0 || end < len
    ensures forall r :: r in gs ==> !r.Contains(len - 1)
  {
    forall r | r in gs
      ensures !r.Contains(len - 1)
    {
      var i :| 0 <= i < |gs| && gs[i] == r;
      ContiguousBound(gs, end, i);
    }
  }
}
