/** The later draft of the bump allocator (src/lib.rs): a private `reserve` that returns the
    new cursor or 0, a read-only `alloc`, a writable `alloc_mut`, and the crate's own test. */
module LibBuffer {
  import opened Ranges
  import opened Atomic

  /** What `reserve` returns for a request of `sz` bytes at `cursor` on a store of `len`
      bytes: the new cursor, or 0 for "no allocation". Zero-size requests and requests whose
      end would reach `len` are rejected. */
  function Reserved(cursor: nat, len: nat, sz: nat): (r: nat)
    ensures r != 0 <==> 0 < sz && cursor + sz < len
    ensures r != 0 ==> r == cursor + sz && cursor < r < len
  {
    if sz == 0 then 0
    else if cursor + sz >= len then 0
    else cursor + sz
  }

  /** The view `alloc` and `alloc_mut` hand out, computed as they compute it: from the end
      cursor `reserve` returns, stepping back `sz` bytes. The contract says the sentinel 0
      never hides a real grant and that the view starts at the old cursor. */
  function Grant(cursor: nat, len: nat, sz: nat): (g: Option<Range>)
    ensures g.Some? <==> 0 < sz && cursor + sz < len
    ensures g.Some? ==> g.value == Range(cursor, cursor + sz)
  {
    var end := Reserved(cursor, len, sz);
    if end == 0 then None else Some(Range(end - sz, end))
  }

  /** A request for exactly the remaining bytes is always refused: because the end of a
      grant must stay strictly below the capacity, the last byte can never be handed out. */
  lemma RemainingNeverFits(cursor: nat, len: nat)
    requires cursor <= len
    ensures Grant(cursor, len, len - cursor) == None
  {
  }

  class Buffer {
    /** The caller's byte slice; its length never changes. */
    const bytes: array<Byte>
    /** Offset of the first byte not yet handed out. */
    const next: AtomicUsize
    /** Every view granted so far, in order. */
    ghost var grants: seq<Range>
    /** The granted views that came from `alloc_mut` and may be written through. */
    ghost var writable: set<Range>

    ghost predicate Valid()
      reads this, next
    {
      && Contiguous(grants, next.value)
      && (next.value == 0 || next.value < bytes.Length)
      && (forall i :: 0 <= i < |grants| ==> grants[i].lo < grants[i].hi)
      && (forall w :: w in writable ==> w in grants)
    }

    /** `init_from_bytes`: a buffer over `bytes` with nothing handed out yet. */
    constructor InitFromBytes(bytes: array<Byte>)
      ensures Valid() && fresh(next)
      ensures this.bytes == bytes && next.value == 0
      ensures grants == [] && writable == {}
      ensures Len() == bytes.Length && Remaining() == Len()
    {
      this.bytes := bytes;
      next := new AtomicUsize.New(0);
      grants := [];
      writable := {};
    }

    /** `len`: the capacity, the length of the slice given at construction. */
    function Len(): (n: nat)
      ensures n == bytes.Length
    {
      bytes.Length
    }

    /** `remaining`: the capacity minus the cursor, which never underflows; it equals the
        capacity minus the total size of all grants so far. */
    function Remaining(): (r: nat)
      reads this, next
      requires Valid()
      ensures next.value + r == Len()
      ensures r == Len() - TotalWidth(grants)
    {
      ContiguousTotal(grants, next.value);
      bytes.Length - next.value
    }

    /** The bytes a view currently shows. */
    function View(r: Range): (s: seq<Byte>)
      reads bytes
      requires r.lo <= r.hi <= bytes.Length
      ensures |s| == r.hi - r.lo
      ensures forall k :: 0 <= k < |s| ==> s[k] == bytes[r.lo + k]
    {
      bytes[r.lo..r.hi]
    }

    /** The last byte of the store lies in no grant of this buffer. */
    lemma LastByteNeverGranted()
      requires Valid()
      ensures forall r :: r in grants ==> !r.Contains(bytes.Length - 1)
    {
      Ranges.LastByteNeverGranted(grants, next.value, bytes.Length);
    }

    /** The private `reserve`: a compare-exchange loop on the cursor. The loop only relies
        on a failed exchange reporting a larger cursor than the one it tried. */
    method Reserve(sz: nat) returns (end: nat)
      requires Valid()
      modifies next
      ensures end == Reserved(old(next.value), bytes.Length, sz)
      ensures next.value == if end == 0 then old(next.value) else end
    {
      if sz == 0 {
        return 0;
      }
      var seen := next.Load();
      while seen + sz < bytes.Length
        invariant seen <= next.value == old(next.value) <= bytes.Length
        decreases bytes.Length - seen
      {
        var r := next.CompareExchange(seen, seen + sz);
        match r
        case Swapped(_) =>
          return seen + sz;
        case Failed(actual) =>
          seen := actual;
      }
      return 0;
    }

    /** `alloc`: a read-only view of the next `sz` bytes, or None. On success the cursor
        moves from its old value to exactly the end of the view; on failure nothing changes. */
    method Alloc(sz: nat) returns (view: Option<Range>)
      requires Valid()
      modifies this, next
      ensures Valid()
      ensures view == Grant(old(next.value), bytes.Length, sz)
      ensures view.Some? ==> view.value.hi - view.value.lo == sz
      ensures old(next.value) <= next.value
      ensures next.value == if view.Some? then view.value.hi else old(next.value)
      ensures grants == if view.Some? then old(grants) + [view.value] else old(grants)
      ensures writable == old(writable)
    {
      var end := Reserve(sz);
      if end == 0 {
        view := None;
      } else {
        var lo := end - sz;
        view := Some(Range(lo, end));
        ContiguousExtend(grants, lo, sz);
        grants := grants + [Range(lo, end)];
      }
    }

    /** `alloc_mut`: like `alloc`, but the view may be written through. */
    method AllocMut(sz: nat) returns (view: Option<Range>)
      requires Valid()
      modifies this, next
      ensures Valid()
      ensures view == Grant(old(next.value), bytes.Length, sz)
      ensures view.Some? ==> view.value.hi - view.value.lo == sz
      ensures old(next.value) <= next.value
      ensures next.value == if view.Some? then view.value.hi else old(next.value)
      ensures grants == if view.Some? then old(grants) + [view.value] else old(grants)
      ensures writable == if view.Some? then old(writable) + {view.value} else old(writable)
    {
      var end := Reserve(sz);
      if end == 0 {
        view := None;
      } else {
        var lo := end - sz;
        view := Some(Range(lo, end));
        ContiguousExtend(grants, lo, sz);
        grants := grants + [Range(lo, end)];
        writable := writable + {Range(lo, end)};
      }
    }

    /** Writing `b` at offset `k` through a view from `alloc_mut`: that byte changes, every
        other byte of the store keeps its value, and so every other granted view reads as
        before. */
    method Write(view: Range, k: nat, b: Byte)
      requires Valid()
      requires view in writable
      requires k < view.hi - view.lo
      modifies bytes
      ensures Valid() && grants == old(grants) && writable == old(writable)
      ensures view.hi <= bytes.Length && View(view)[k] == b
      ensures forall i :: 0 <= i < bytes.Length && i != view.lo + k ==> bytes[i] == old(bytes[i])
      ensures forall w :: w in grants && w != view ==> w.hi <= bytes.Length && View(w) == old(View(w))
    {
      ghost var g :| 0 <= g < |grants| && grants[g] == view;
      ContiguousBound(grants, next.value, g);
      bytes[view.lo + k] := b;
      forall w | w in grants && w != view
        ensures w.hi <= bytes.Length && View(w) == old(View(w))
      {
        var j :| 0 <= j < |grants| && grants[j] == w;
        ContiguousBound(grants, next.value, j);
        ContiguousDisjoint(grants, next.value, g, j);
        assert !w.Contains(view.lo + k);
      }
    }
  }

  /** A fresh store of `n` bytes, byte `i` holding `i % 255`, as the test fills it. */
  method FilledWithOffsets(n: nat) returns (bytes: array<Byte>)
    ensures fresh(bytes) && bytes.Length == n
    ensures bytes[..] == seq(n, i => (i % 255) as Byte)
  {
    bytes := new Byte[n];
    for k := 0 to n
      invariant forall i :: 0 <= i < k ==> bytes[i] == (i % 255) as Byte
    {
      bytes[k] := (k % 255) as Byte;
    }
  }

  /** The crate's test `it_works`: a 25-byte store holding 0, 1, 2, ...; a read-only grant
      of 12 bytes, a writable grant of 10 bytes written at offset 0, then a refused request
      for 20 bytes that leaves 3 bytes remaining. */
  method ItWorks() returns (view0: seq<Byte>, view1: seq<Byte>, remaining: nat, third: Option<Range>)
    ensures |view0| == 12 && view0[0] == 0 && view0[5] == 5
    ensures |view1| == 10 && view1[0] == 255 && view1[1] == 13
    ensures remaining == 3 && third == None
  {
    var bytes := FilledWithOffsets(25);
    var memory := new Buffer.InitFromBytes(bytes);
    assert memory.Len() == 25;

    var maybeBuf0 := memory.Alloc(12);
    var buf0 := maybeBuf0.value;
    view0 := memory.View(buf0);

    var maybeBuf1 := memory.AllocMut(10);
    var buf1 := maybeBuf1.value;
    assert memory.View(buf1)[0] == 12 && memory.View(buf1)[1] == 13;
    memory.Write(buf1, 0, 255);
    view1 := memory.View(buf1);

    assert memory.Remaining() == 3;
    third := memory.Alloc(20);
    remaining := memory.Remaining();
  }
}
