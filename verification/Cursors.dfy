/** Cursors and walks over a buffer, as functions from a position to the contiguous piece there. */
module Cursors {

  /** How many bytes lie in one contiguous piece from a position on. */
  type Segments = nat -> nat

  ghost predicate Within(segs: Segments, size: nat) {
    forall p: nat :: p <= size ==> p + segs(p) <= size
  }

  /** No segment inside the buffer is empty. */
  ghost predicate Positive(segs: Segments, size: nat) {
    forall p: nat :: p < size ==> segs(p) > 0
  }

  /** How many bytes a walk maps at each offset. */
  type Walk = nat -> nat

  /** A walk over `len` bytes maps at least a byte at a time. */
  ghost predicate Maps(walk: Walk, len: nat) {
    forall done: nat :: done < len ==> 0 < walk(done) <= len - done
  }

  function Min(a: nat, b: nat): nat { if a < b then a else b }
}
