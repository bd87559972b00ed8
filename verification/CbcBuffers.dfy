/** CBC applied piece by piece between two byte buffers, which may be one and the same. */
module CbcBuffers {
  import opened Bytes
  import opened BlockModes

  method WriteAt(a: array<bv8>, at: nat, data: seq<bv8>)
    requires at + |data| <= a.Length
    modifies a
    ensures a[..] == Splice(old(a[..]), at, data)
  {
    forall i | 0 <= i < |data| {
      a[at + i] := data[i];
    }
  }

  /** What the loop has produced after `done` bytes of the payload. */
  ghost predicate Produced(m: Mode, iv: Block, payload: seq<bv8>, done: nat, reg: Block,
                           before: seq<bv8>, at: nat, now: seq<bv8>)
    requires done <= |payload| && at + |payload| <= |before|
  {
    && Aligned(done)
    && reg == Chain(m, iv, payload[..done])
    && now == Splice(before, at, Crypt(m, iv, payload[..done]))
  }

  lemma {:induction false} CryptPrefix(m: Mode, iv: Block, payload: seq<bv8>, done: nat, chunk: seq<bv8>)
    requires done + |chunk| <= |payload| && Aligned(done)
    requires chunk == payload[done..done + |chunk|]
    ensures Crypt(m, iv, payload[..done + |chunk|]) == Crypt(m, iv, payload[..done]) + Crypt(m, Chain(m, iv, payload[..done]), chunk)
    ensures Chain(m, iv, payload[..done + |chunk|]) == Chain(m, Chain(m, iv, payload[..done]), chunk)
  {
    assert payload[..done + |chunk|] == payload[..done] + chunk;
    CryptAppend(m, iv, payload[..done], chunk);
  }

  lemma {:induction false} ProducedStep(m: Mode, iv: Block, payload: seq<bv8>, done: nat, reg: Block,
                     before: seq<bv8>, at: nat, now: seq<bv8>, chunk: seq<bv8>, reg': Block, now': seq<bv8>)
    requires done + |chunk| <= |payload| && at + |payload| <= |before| && Aligned(|chunk|)
    requires chunk == payload[done..done + |chunk|]
    requires Produced(m, iv, payload, done, reg, before, at, now)
    requires reg' == Chain(m, reg, chunk) && now' == Splice(now, at + done, Crypt(m, reg, chunk))
    ensures Produced(m, iv, payload, done + |chunk|, reg', before, at, now')
  {
    AlignedAdd(done, |chunk|);
    CryptPrefix(m, iv, payload, done, chunk);
    SpliceAppend(before, at, Crypt(m, iv, payload[..done]), Crypt(m, reg, chunk));
  }

  /** The source still holds its first bytes from `srcStart + done` on. */
  ghost predicate Unread(now: seq<bv8>, payload: seq<bv8>, start: nat, done: nat) {
    && start + |payload| <= |now|
    && forall i :: done <= i < |payload| ==> now[start + i] == payload[i]
  }

  lemma {:induction false} NextChunk(now: seq<bv8>, payload: seq<bv8>, start: nat, done: nat, n: nat)
    requires Unread(now, payload, start, done) && done + n <= |payload|
    ensures now[start + done..start + done + n] == payload[done..done + n]
  {
    var a, b := now[start + done..start + done + n], payload[done..done + n];
    forall q | 0 <= q < n
      ensures a[q] == b[q]
    {
      assert b[q] == payload[done + q];
    }
  }

  lemma {:induction false} ProducedNothing(m: Mode, iv: Block, payload: seq<bv8>, before: seq<bv8>, at: nat)
    requires at + |payload| <= |before|
    ensures Produced(m, iv, payload, 0, iv, before, at, before)
  {
    assert Splice(before, at, []) == before;
  }

  lemma {:induction false} ProducedWhole(m: Mode, iv: Block, payload: seq<bv8>, done: nat, reg: Block, before: seq<bv8>, at: nat, now: seq<bv8>)
    requires done == |payload| && at + |payload| <= |before|
    requires Produced(m, iv, payload, done, reg, before, at, now)
    ensures reg == Chain(m, iv, payload)
    ensures now == Splice(before, at, Crypt(m, iv, payload))
  {
    assert payload[..done] == payload;
  }

  lemma {:induction false} UnreadStart(now: seq<bv8>, start: nat, len: nat)
    requires start + len <= |now|
    ensures Unread(now, now[start..start + len], start, 0)
  {
  }

  /** Nothing outside the range from `at` on changed. */
  ghost predicate Outside<T>(before: seq<T>, now: seq<T>, at: nat, len: nat) {
    |now| == |before| && forall p :: 0 <= p < |now| && !(at <= p < at + len) ==> now[p] == before[p]
  }

  /** What that says of one byte, and of the slices around the range. */
  lemma {:induction false} OutsideKeeps<T>(before: seq<T>, now: seq<T>, at: nat, len: nat, p: nat)
    requires Outside(before, now, at, len) && at + len <= |before|
    ensures |now| == |before| && now[..at] == before[..at] && now[at + len..] == before[at + len..]
    ensures p < |before| && (p < at || at + len <= p) ==> now[p] == before[p]
  {
  }

  lemma {:induction false} ProducedOutside(m: Mode, iv: Block, payload: seq<bv8>, done: nat, reg: Block, before: seq<bv8>, at: nat, now: seq<bv8>)
    requires done <= |payload| && at + |payload| <= |before|
    requires Produced(m, iv, payload, done, reg, before, at, now)
    ensures Outside(before, now, at, |payload|)
  {
  }

  lemma {:induction false} SpliceOutside<T>(before: seq<T>, now: seq<T>, at: nat, len: nat, to: nat, data: seq<T>)
    requires Outside(before, now, at, len) && at <= to && to + |data| <= at + len <= |before|
    ensures Outside(before, Splice(now, to, data), at, len)
  {
  }

  /** A cipher call that fails may leave anything in the piece it was to write. */
  method Scribble(a: array<bv8>, at: nat, n: nat, junk: seq<bv8>, ghost before: seq<bv8>, ghost start: nat, ghost len: nat)
    requires start <= at && at + n <= start + len <= a.Length && Outside(before, a[..], start, len)
    modifies a
    ensures Outside(before, a[..], start, len)
  {
    if |junk| == n {
      SpliceOutside(before, a[..], start, len, at, junk);
      WriteAt(a, at, junk);
    }
  }
}
