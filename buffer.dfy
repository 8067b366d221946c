/** The earlier draft of the bump allocator (src/buffer.rs): a single `alloc` that runs the
    compare-exchange loop itself, hands out writable views only, and grants zero-size
    requests an empty view. */
module DraftBuffer {
  import opened Ranges
  import opened Atomic

  /** The view `alloc` hands out for a request of `sz` bytes at `cursor` on a store of
      `len` bytes: the next `sz` bytes, unless their end would reach `len`. */
  function Grant(cursor: nat, len: nat, sz: nat): (g: Option<Range>)
    ensures g.Some? <==> cursor + sz < len
    ensures g.Some? ==> g.value.lo == cursor && g.value.Width() == sz && g.value.hi < len
  {
    if cursor + sz >= len then None else Some(Range(cursor, cursor + sz))
  }

  /** On a store of zero bytes every request is refused. */
  lemma EmptyStoreGrantsNothing(cursor: nat, sz: nat)
    ensures Grant(cursor, 0, sz) == None
  {
  }

  /** A request for exactly the remaining bytes is always refused, so the last byte can
      never be handed out. */
  lemma RemainingNeverFits(cursor: nat, len: nat)
    requires cursor <= len
    ensures Grant(cursor, len, len - cursor) == None
  {
  }

  class Buffer {
    /** The caller's byte slice; its length never changes. */
    const bytes: array<Byte>
    /** Offset of the first byte not yet handed out. */
    const next: AtomicUsize
    /** Every view granted so far, in order (zero-size grants included). */
    ghost var grants: seq<Range>

    ghost predicate Valid()
      reads this, next
    {
      && Contiguous(grants, next.value)
      && (next.value == 0 || next.value < bytes.Length)
    }

    /** `init_from_bytes`: a buffer over `bytes` with nothing handed out yet. */
    constructor InitFromBytes(bytes: array<Byte>)
      ensures Valid() && fresh(next)
      ensures this.bytes == bytes && next.value == 0 && grants == []
      ensures Len() == bytes.Length && Remaining() == Len()
    {
      this.bytes := bytes;
      next := new AtomicUsize.New(0);
      grants := [];
    }

    /** `len`: the capacity, the length of the slice given at construction. */
    function Len(): (n: nat)
      ensures n == bytes.Length
    {
      bytes.Length
    }

    /** `remaining`: the capacity minus the cursor, which never underflows; it equals the
        capacity minus the total size of all grants so far. */
    function Remaining(): (r: nat)
      reads this, next
      requires Valid()
      ensures next.value + r == Len()
      ensures r == Len() - TotalWidth(grants)
    {
      ContiguousTotal(grants, next.value);
      bytes.Length - next.value
    }

    /** The bytes a view currently shows. */
    function View(r: Range): (s: seq<Byte>)
      reads bytes
      requires r.lo <= r.hi <= bytes.Length
      ensures |s| == r.hi - r.lo
      ensures forall k :: 0 <= k < |s| ==> s[k] == bytes[r.lo + k]
    {
      bytes[r.lo..r.hi]
    }

    /** `alloc`: a writable view of the next `sz` bytes, or None, found by a compare-exchange
        loop on the cursor. On success the cursor moves from its old value to exactly the
        end of the view (a zero-size grant leaves it where it was); on failure nothing
        changes. */
    method Alloc(sz: nat) returns (view: Option<Range>)
      requires Valid()
      modifies this, next
      ensures Valid()
      ensures view == Grant(old(next.value), bytes.Length, sz)
      ensures view.Some? ==> view.value == Range(old(next.value), old(next.value) + sz)
      ensures old(next.value) <= next.value
      ensures next.value == if view.Some? then view.value.hi else old(next.value)
      ensures grants == if view.Some? then old(grants) + [view.value] else old(grants)
    {
      var seen := next.Load();
      while true
        invariant seen <= next.value == old(next.value) <= bytes.Length
        modifies next
        decreases bytes.Length - seen
      {
        if seen + sz >= bytes.Length {
          return None;
        }
        var r := next.CompareExchange(seen, seen + sz);
        if r.Swapped? {
          break;
        }
        seen := r.actual;
      }
      view := Some(Range(seen, seen + sz));
      ContiguousExtend(grants, seen, sz);
      grants := grants + [Range(seen, seen + sz)];
    }

    /** Writing `b` at offset `k` through a granted view: that byte changes, every other
        byte of the store keeps its value, and so every other granted view reads as before. */
    method Write(view: Range, k: nat, b: Byte)
      requires Valid()
      requires view in grants
      requires k < view.hi - view.lo
      modifies bytes
      ensures Valid() && grants == old(grants)
      ensures view.hi <= bytes.Length && View(view)[k] == b
      ensures forall i :: 0 <= i < bytes.Length && i != view.lo + k ==> bytes[i] == old(bytes[i])
      ensures forall w :: w in grants && w != view ==> w.lo <= w.hi <= bytes.Length && View(w) == old(View(w))
    {
      ghost var g :| 0 <= g < |grants| && grants[g] == view;
      ContiguousBound(grants, next.value, g);
      bytes[view.lo + k] := b;
      forall w | w in grants && w != view
        ensures w.lo <= w.hi <= bytes.Length && View(w) == old(View(w))
      {
        var j :| 0 <= j < |grants| && grants[j] == w;
        ContiguousBound(grants, next.value, j);
        ContiguousDisjoint(grants, next.value, g, j);
        assert !w.Contains(view.lo + k);
      }
    }

    /** The last byte of the store lies in no grant of this buffer. */
    lemma LastByteNeverGranted()
      requires Valid()
      ensures forall r :: r in grants ==> !r.Contains(bytes.Length - 1)
    {
      Ranges.LastByteNeverGranted(grants, next.value, bytes.Length);
    }
  }
}
