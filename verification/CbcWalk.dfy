/** `km_AesCbcEncrypt` and `km_AesCbcDecrypt`: CBC over a kernel scatter walk, with
    the chaining register written back to the request. */
module CbcWalk {
  import opened Common
  import opened Cursors
  import opened Bytes
  import opened BlockModes
  import opened CbcBuffers

  /** The walk maps at least one block while one remains. */
  ghost predicate Steps(walk: Walk, len: nat) {
    forall done: nat :: done + 16 <= len ==> 16 <= walk(done) <= len - done
  }

  /** At which offsets the cipher call fails, what it then leaves behind, and the error the walk
      returns on reaching an offset, zero for none. */
  datatype CbcFaults = CbcFaults(cipher: nat -> bool, junk: seq<bv8>, walk: nat -> int)

  ghost predicate NoCbcFault(f: CbcFaults) {
    forall done: nat :: !f.cipher(done) && f.walk(done) == 0
  }

  /** The walk's next step with `left` bytes to go: it refuses less than a block. */
  function NextStep(walk: Walk, f: CbcFaults, done: nat, left: nat): (r: (int, nat)) {
    if f.walk(done) != 0 then (f.walk(done), 0)
    else if left == 0 then (0, 0)
    else if left < 16 then (-EINVAL, 0)
    else (0, walk(done))
  }

  /** One mapped step: its whole blocks are processed and the rest is given back. */
  method Step(m: Mode, ghost iv: Block, reg: Block, src: array<bv8>, at: nat, dst: array<bv8>, out: nat, n: nat,
              ghost payload: seq<bv8>, ghost done: nat, ghost srcStart: nat, ghost dst0: seq<bv8>, ghost dstStart: nat)
    returns (reg': Block)
    requires done + n <= |payload| && Aligned(n) && dstStart + |payload| <= |dst0| == dst.Length
    requires at == srcStart + done && out == dstStart + done && srcStart + |payload| <= src.Length
    requires src == dst ==> srcStart == dstStart
    requires Produced(m, iv, payload, done, reg, dst0, dstStart, dst[..])
    requires Unread(src[..], payload, srcStart, done)
    modifies dst
    ensures Produced(m, iv, payload, done + n, reg', dst0, dstStart, dst[..])
    ensures Unread(src[..], payload, srcStart, done + n)
  {
    ghost var now := dst[..];
    var chunk := src[..][at..at + n];
    NextChunk(src[..], payload, srcStart, done, n);
    reg' := Chain(m, reg, chunk);
    WriteAt(dst, out, Crypt(m, reg, chunk));
    ProducedStep(m, iv, payload, done, reg, dst0, dstStart, now, chunk, reg', dst[..]);
  }

  /** A request of any length. Without failures its whole blocks are processed, the register is
      written back, and a length that is no multiple of the block size is an error. Whatever
      fails, success means the whole request was processed, and nothing outside the
      output range changes; a failed cipher call leaves the vector as it was. */
  method CbcRequest(m: Mode, iv: Block, src: array<bv8>, srcStart: nat, dst: array<bv8>, dstStart: nat, len: nat, walk: Walk, f: CbcFaults)
    returns (err: int, iv': Block)
    requires srcStart + len <= src.Length && dstStart + len <= dst.Length
    requires src == dst ==> srcStart == dstStart
    requires Steps(walk, len)
    modifies dst
    ensures NoCbcFault(f) ==> err == if len % 16 == 0 then 0 else -EINVAL
    ensures err == 0 ==> len % 16 == 0
    ensures err == 0 || NoCbcFault(f) ==> dst[..] == Splice(old(dst[..]), dstStart, Crypt(m, iv, old(src[..])[srcStart..srcStart + len]))
    ensures err == 0 || NoCbcFault(f) ==> iv' == Chain(m, iv, old(src[..])[srcStart..srcStart + len])
    ensures Outside(old(dst[..]), dst[..], dstStart, len)
  {
    ghost var dst0 := dst[..];
    ghost var payload := src[..][srcStart..srcStart + len];
    var done: nat := 0;
    var next := NextStep(walk, f, 0, len);
    iv' := iv;
    UnreadStart(src[..], srcStart, len);
    ProducedNothing(m, iv, payload, dst0, dstStart);
    while next.1 != 0
      invariant done <= len && next == NextStep(walk, f, done, len - done)
      invariant Produced(m, iv, payload, done, iv', dst0, dstStart, dst[..])
      invariant Unread(src[..], payload, srcStart, done)
      decreases len - done
    {
      var n := next.1 - next.1 % 16;
      AlignedMod(n);
      if f.cipher(done) {
        ProducedOutside(m, iv, payload, done, iv', dst0, dstStart, dst[..]);
        Scribble(dst, dstStart + done, n, f.junk, dst0, dstStart, len);
        return -EINVAL, iv;
      }
      iv' := Step(m, iv, iv', src, srcStart + done, dst, dstStart + done, n, payload, done, srcStart, dst0, dstStart);
      done := done + n;
      next := NextStep(walk, f, done, len - done);
    }
    err := next.0;
    ProducedOutside(m, iv, payload, done, iv', dst0, dstStart, dst[..]);
    if f.walk(done) == 0 {
      LeftOver(len, done);
      ProducedAll(m, iv, payload, done, iv', dst0, dstStart, dst[..]);
    }
  }

  lemma {:induction false} LeftOver(len: nat, done: nat)
    requires done <= len < done + 16 && Aligned(done)
    ensures len % 16 == len - done
  {
    AlignedMod(done);
  }

  /** Less than a block left over changes nothing. */
  lemma {:induction false} ProducedAll(m: Mode, iv: Block, payload: seq<bv8>, done: nat, reg: Block, before: seq<bv8>, at: nat, now: seq<bv8>)
    requires done <= |payload| < done + 16 && at + |payload| <= |before|
    requires Produced(m, iv, payload, done, reg, before, at, now)
    ensures reg == Chain(m, iv, payload)
    ensures now == Splice(before, at, Crypt(m, iv, payload))
  {
    assert payload == payload[..done] + payload[done..];
    CryptAppend(m, iv, payload[..done], payload[done..]);
    assert Crypt(m, iv, payload) == Crypt(m, iv, payload[..done]);
  }

  lemma {:induction false} ChainSplice(m: Mode, iv: Block, before: seq<bv8>, start: nat, a: seq<bv8>, b: seq<bv8>, ab: seq<bv8>)
    requires ab == a + b && start + |ab| <= |before| && Aligned(|a|)
    ensures Splice(Splice(before, start, Crypt(m, iv, a)), start + |a|, Crypt(m, Chain(m, iv, a), b))
         == Splice(before, start, Crypt(m, iv, ab))
    ensures Chain(m, Chain(m, iv, a), b) == Chain(m, iv, ab)
  {
    CryptAppend(m, iv, a, b);
    SpliceAppend(before, start, Crypt(m, iv, a), Crypt(m, Chain(m, iv, a), b));
  }

  /** Two requests on adjacent parts of the buffers, as one on the whole.  `src1` is the source
      after the first: the destination itself when the buffers are one. */
  lemma {:induction false} TwoAsOne(m: Mode, iv: Block, src0: seq<bv8>, s: nat, dst0: seq<bv8>, d: nat, len1: nat, len2: nat,
                 inPlace: bool, dst1: seq<bv8>, src1: seq<bv8>, iv1: Block)
    requires s + len1 + len2 <= |src0| && d + len1 + len2 <= |dst0| && Aligned(len1)
    requires inPlace ==> src0 == dst0 && s == d
    requires dst1 == Splice(dst0, d, Crypt(m, iv, src0[s..s + len1]))
    requires src1 == if inPlace then dst1 else src0
    requires iv1 == Chain(m, iv, src0[s..s + len1])
    ensures Splice(dst1, d + len1, Crypt(m, iv1, src1[s + len1..s + len1 + len2]))
         == Splice(dst0, d, Crypt(m, iv, src0[s..s + len1 + len2]))
    ensures Chain(m, iv1, src1[s + len1..s + len1 + len2]) == Chain(m, iv, src0[s..s + len1 + len2])
  {
    var a, b := src0[s..s + len1], src0[s + len1..s + len1 + len2];
    assert src1[s + len1..s + len1 + len2] == b;
    ChainSplice(m, iv, dst0, d, a, b, src0[s..s + len1 + len2]);
  }

  /** Two requests on adjacent parts, the second started from the register the first wrote
      back, give what one request on the whole gives, under any walks, between separate
      buffers or in place. */
  method RequestsChain(m: Mode, iv: Block, src: array<bv8>, srcStart: nat, dst: array<bv8>, dstStart: nat, len1: nat, len2: nat,
                       walk1: Walk, walk2: Walk, f1: CbcFaults, f2: CbcFaults)
    returns (err1: int, err2: int, iv2: Block)
    requires srcStart + len1 + len2 <= src.Length && dstStart + len1 + len2 <= dst.Length && len1 % 16 == 0
    requires src == dst ==> srcStart == dstStart
    requires Steps(walk1, len1) && Steps(walk2, len2) && NoCbcFault(f1) && NoCbcFault(f2)
    modifies dst
    ensures err1 == 0 && err2 == if len2 % 16 == 0 then 0 else -EINVAL
    ensures dst[..] == Splice(old(dst[..]), dstStart, Crypt(m, iv, old(src[..])[srcStart..srcStart + len1 + len2]))
    ensures iv2 == Chain(m, iv, old(src[..])[srcStart..srcStart + len1 + len2])
  {
    ghost var src0, dst0 := src[..], dst[..];
    var iv1;
    err1, iv1 := CbcRequest(m, iv, src, srcStart, dst, dstStart, len1, walk1, f1);
    AlignedMod(len1);
    TwoAsOne(m, iv, src0, srcStart, dst0, dstStart, len1, len2, src == dst, dst[..], src[..], iv1);
    var s2, d2 := srcStart + len1, dstStart + len1;
    err2, iv2 := CbcRequest(m, iv1, src, s2, dst, d2, len2, walk2, f2);
  }
}
