# buffer-rs: a bump allocator over a caller's byte slice

This project models `Buffer`, a bump (arena) allocator that hands out sub-slices of one
byte slice supplied by its caller. The repository holds two drafts of it:

- `src/lib.rs`, the later draft. A private `reserve` moves the cursor with a
  compare-exchange loop and returns the new cursor, or 0 for "no allocation". `alloc`
  returns a read-only view, `alloc_mut` a writable one. Zero-size requests are refused.
- `src/buffer.rs`, the earlier draft. A single `alloc` runs the loop itself and returns a
  writable view. A zero-size request yields an empty view as long as the cursor is strictly
  below the capacity.

Both drafts keep two pieces of state: `bytes`, the backing slice, whose length never changes,
and `next`, the cursor, the offset of the first byte not yet handed out. A request for `sz`
bytes reads the cursor `old` and computes `new = old + sz`. It is refused when `new >= len`.
Otherwise the cursor becomes `new` and the caller gets the bytes `[old, new)`.

The refusal test is `>=`, not `>`. So the last byte of the slice can never be handed out,
and a request for exactly `remaining()` bytes always fails. The model reproduces this
boundary as written (`LibBuffer.RemainingNeverFits`, `DraftBuffer.RemainingNeverFits`,
`Ranges.LastByteNeverGranted` and its corollary `LastByteNeverGranted` on each `Buffer`).

How the model is laid out:

- `atomic.dfy` (module `Atomic`): the `AtomicUsize` cursor cell, run one step at a time.
  `load` may return a stale value, never above the current one, because the cursor only
  grows. A compare-exchange swaps only when the cell still holds the expected value.
- `ranges.dfy` (module `Ranges`): a view is an offset pair `Range(lo, hi)` into the slice.
  `Contiguous(grants, end)` says the views granted so far lie end to end, from offset 0 up
  to the cursor. The lemmas derive the allocator's guarantees from that shape: grants are
  ordered, adjacent and pairwise disjoint; they cover `[0, next)` with no gap; their total
  size is the cursor; and none of them holds the last byte.
- `lib.dfy` (module `LibBuffer`) and `buffer.dfy` (module `DraftBuffer`): one `Buffer` class
  per draft. Each has a `const bytes: array<Byte>`, a `const next: AtomicUsize` and a ghost
  history `grants` of the views handed out. `LibBuffer` also keeps a ghost set `writable`
  of the views that came from `alloc_mut`. `Valid()` says the history is contiguous up to
  the cursor and that the cursor is 0 or strictly below the capacity. Every allocating
  method keeps `Valid()`. Each one is proved against a function (`Grant`) giving the view
  the source hands out. Writing through a view is the method `Write`. `LibBuffer.ItWorks`
  is the crate's `it_works` test.
- `drafts.dfy` (module `Drafts`): the two drafts grant the same views for every request of
  at least one byte. They differ only on zero-size requests.

Both drafts commit with compare-exchange, so a refused request never moves the cursor.
`src/lib.rs` refuses a zero-size request; `src/buffer.rs` grants it an empty view while the
cursor is below the capacity.

## Model

| member | source | states |
|---|---|---|
| `Atomic.AtomicUsize.New` | src/lib.rs:14 | a fresh cursor cell holds the given value (0 at construction) |
| `Atomic.AtomicUsize.Load` | src/lib.rs:30 | a relaxed load returns a value no larger than the current cursor |
| `Atomic.AtomicUsize.CompareExchange` | src/lib.rs:36-41 | stores the desired value and reports `Ok(old)` exactly when the cell holds the expected value; otherwise leaves the cell unchanged and reports what it holds |
| `Ranges.ContiguousExtend` | src/lib.rs:36-40 | committing `next := old + sz` and granting `[old, old+sz)` keeps the grants laid end to end up to the new cursor |
| `Ranges.ContiguousBound` | src/lib.rs:32-35 | every granted range is well formed and ends at or below the cursor |
| `Ranges.ContiguousStartsAtZero` | src/lib.rs:14 | the first grant starts at offset 0, where the cursor starts |
| `Ranges.ContiguousAdjacent` | src/lib.rs:32-40 | each grant starts exactly where the previous grant ended |
| `Ranges.ContiguousOrdered` | src/lib.rs:32-40 | an earlier grant ends no later than any later grant starts |
| `Ranges.ContiguousDisjoint` | src/lib.rs:56-65 | two different grants share no byte and the earlier lies wholly below the later, which is what makes handing out a mutable view from a shared handle sound |
| `Ranges.ContiguousTotal` | src/lib.rs:22-24 | the cursor equals the total size of all grants, so `remaining()` is the capacity minus what was granted |
| `Ranges.ContiguousCovers` | src/lib.rs:36-40 | every byte below the cursor lies in some grant: a refused request wastes no capacity |
| `Ranges.LastByteNeverGranted` | src/lib.rs:33 | with the cursor 0 or strictly below the capacity, no grant contains byte `len - 1` |
| `LibBuffer.Reserved` | src/lib.rs:26-44 | `reserve` answers 0 ("no allocation") exactly when the request is zero-size or `cursor + sz >= len`; otherwise it answers exactly `cursor + sz`, strictly between the old cursor and the capacity |
| `LibBuffer.Grant` | src/lib.rs:46-54 | `alloc` succeeds exactly when `sz > 0` and `old + sz < len`, and then the view, computed as `[new - sz, new)`, is `[old, old + sz)`; the sentinel 0 never hides a real grant |
| `LibBuffer.RemainingNeverFits` | src/lib.rs:32-35 | a request for exactly the remaining bytes is always refused |
| `LibBuffer.Buffer.InitFromBytes` | src/lib.rs:11-16 | a new buffer holds the given slice, the cursor is 0, nothing is granted, and `remaining()` equals `len()` |
| `LibBuffer.Buffer.Len` | src/lib.rs:18-20 | the capacity is the length of the slice given at construction |
| `LibBuffer.Buffer.Remaining` | src/lib.rs:22-24 | cursor plus remaining is the capacity, with no underflow, and remaining is the capacity minus the total size granted |
| `LibBuffer.Buffer.View` | src/lib.rs:52 | a view `[lo, hi)` reads as the slice's bytes from `lo` up to `hi` |
| `LibBuffer.Buffer.LastByteNeverGranted` | src/lib.rs:33 | in every valid state of the buffer, no granted view contains the last byte of the store |
| `LibBuffer.Buffer.Reserve` | src/lib.rs:26-44 | the compare-exchange loop returns `Reserved(old, len, sz)`, moves the cursor to it on success and leaves it unchanged otherwise; it terminates because a failed exchange sees a larger cursor |
| `LibBuffer.Buffer.Alloc` | src/lib.rs:46-54 | returns `Grant(old, len, sz)`, a view of length `sz`; on success the cursor moves from `old` to the end of the view and the view is appended to the grants; on failure nothing changes; the cursor never decreases and `Valid()` is kept |
| `LibBuffer.Buffer.AllocMut` | src/lib.rs:56-65 | as `Alloc`, and the granted view becomes writable |
| `LibBuffer.Buffer.Write` | src/lib.rs:93-94 | writing through a view from `alloc_mut` changes exactly one byte of that view; every other byte, and so every other granted view, reads as before |
| `LibBuffer.FilledWithOffsets` | src/lib.rs:72-75 | the test's store: byte `i` holds `i % 255` |
| `LibBuffer.ItWorks` | src/lib.rs:71-101 | on capacity 25, grants of 12 and 10 bytes succeed; the first view shows 0 at offset 0 and 5 at offset 5; after 255 is written through the second view it shows 255 at offset 0 and 13 at offset 1; 3 bytes remain; a request for 20 is refused and 3 bytes still remain |
| `DraftBuffer.Grant` | src/buffer.rs:25-39 | a request is granted exactly when `cursor + sz < len` (zero-size included); a granted view starts at the cursor, is `sz` bytes wide and ends strictly below the capacity |
| `DraftBuffer.EmptyStoreGrantsNothing` | src/buffer.rs:28-31 | on a zero-length slice every request is refused |
| `DraftBuffer.RemainingNeverFits` | src/buffer.rs:28-31 | a request for exactly the remaining bytes is always refused |
| `DraftBuffer.Buffer.InitFromBytes` | src/buffer.rs:10-15 | a new buffer holds the given slice, the cursor is 0, nothing is granted, and `remaining()` equals `len()` |
| `DraftBuffer.Buffer.Len` | src/buffer.rs:17-19 | the capacity is the length of the slice given at construction |
| `DraftBuffer.Buffer.Remaining` | src/buffer.rs:21-23 | cursor plus remaining is the capacity, with no underflow, and remaining is the capacity minus the total size granted |
| `DraftBuffer.Buffer.View` | src/buffer.rs:38 | a view `[lo, hi)` reads as the slice's bytes from `lo` up to `hi` |
| `DraftBuffer.Buffer.Alloc` | src/buffer.rs:25-39 | the compare-exchange loop returns `Grant(old, len, sz)`, which is `[old, old + sz)` on success; the cursor moves to the view's end on success and stays put on failure or for a zero-size grant; the cursor never decreases and `Valid()` is kept |
| `DraftBuffer.Buffer.Write` | src/buffer.rs:37-38 | writing through a granted view changes exactly one byte of it; every other granted view reads as before |
| `DraftBuffer.Buffer.LastByteNeverGranted` | src/buffer.rs:29 | in every valid state of the buffer, no granted view contains the last byte of the store |
| `Drafts.SameGrantForNonZeroSize` | src/buffer.rs:28-38 | for `sz > 0` both drafts grant the same view or both refuse |
| `Drafts.ZeroSizePolicies` | src/lib.rs:27-29 | a zero-size request is refused by the later draft, and granted the empty view `[old, old)` by the earlier one exactly when `old < len` |

## Left out

- `src/main.rs`: a demonstration driver that fills a slice, allocates from it and prints. It is I/O with no logic of its own.
- Concurrency: memory orderings, interleavings between threads, and spurious failures of `compare_exchange_weak` are not modelled. Each atomic operation is one deterministic step, and the compare-exchange never fails spuriously; with spurious failure the loop would have no termination argument.
- `Atomic.AtomicUsize.Load`: its contract only promises a value at or below the current cursor, which is what a relaxed load guarantees on a cursor that only grows. In the single-threaded model it returns the exact value. The weaker promise keeps the compare-exchange retry branch meaningful.
- `mutref::get_mutable_ref` is not part of this model. Its effect, that the holder of a view from `alloc_mut` may write into that range of `bytes`, is modelled by `Write`.
- Rust lifetimes and the borrow checker (`&'a self`, `&'a mut [u8]`) have no counterpart beyond the disjointness lemmas. A view is an offset pair, not a borrowed slice, and `Write` takes the view it writes through.
- The allocating methods are declared to modify the buffer object, although Rust takes `&self`. That object holds only the ghost history of grants; the real state they change is the cursor cell.
- `usize` overflow of `old + sz` is not modelled: sizes and offsets are unbounded naturals, and the source has no check for the wrap.
- Indexing a view out of range panics in Rust. `Write` instead requires the offset to lie inside the view.
