/** How the two drafts of `alloc` relate: they grant exactly the same views for every
    request of at least one byte, and differ only on zero-size requests. */
module Drafts {
  import opened Ranges
  import LibBuffer
  import DraftBuffer

  /** For a request of at least one byte both drafts grant the same view, or both refuse. */
  lemma SameGrantForNonZeroSize(cursor: nat, len: nat, sz: nat)
    requires sz > 0
    ensures LibBuffer.Grant(cursor, len, sz) == DraftBuffer.Grant(cursor, len, sz)
  {
  }

  /** A zero-size request: the later draft always refuses it, the earlier one grants the
      empty view at the cursor whenever the cursor is strictly below the capacity. */
  lemma ZeroSizePolicies(cursor: nat, len: nat)
    ensures LibBuffer.Grant(cursor, len, 0) == None
    ensures DraftBuffer.Grant(cursor, len, 0) == if cursor < len then Some(Range(cursor, cursor)) else None
  {
  }
}
