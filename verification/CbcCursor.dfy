/** `wolfkdriv_cbc_work`: CBC over two scatter-gather cursors with a bounce block. */
module CbcCursor {
  import opened Common
  import opened Cursors
  import opened Bytes
  import opened BlockModes
  import opened CbcBuffers

  /** One cipher call: read `n` bytes at `at`, directly or through the bounce block, and
      write the result at `out`, directly or through the bounce block. */
  method CryptChunk(m: Mode, reg: Block, src: array<bv8>, at: nat, dst: array<bv8>, out: nat, n: nat,
                    inBounce: bool, outBounce: bool, block: array<bv8>) returns (reg': Block)
    requires at + n <= src.Length && out + n <= dst.Length && Aligned(n)
    requires block.Length == 16 && block != src && block != dst
    requires inBounce || outBounce ==> n == 16
    modifies dst, block
    ensures dst[..] == Splice(old(dst[..]), out, Crypt(m, reg, old(src[..])[at..at + n]))
    ensures reg' == Chain(m, reg, old(src[..])[at..at + n])
  {
    var input := src[..][at..at + n];
    if inBounce {
      WriteAt(block, 0, input);
      assert block[..] == input;
      input := block[..];
    }
    var output := Crypt(m, reg, input);
    reg' := Chain(m, reg, input);
    if outBounce {
      WriteAt(block, 0, output);
      assert block[..] == output;
      output := block[..];
    }
    WriteAt(dst, out, output);
  }

  /** One turn of the loop after `done` bytes, with the cursors where they belong. */
  method Turn(m: Mode, ghost iv: Block, reg: Block, src: array<bv8>, at: nat, dst: array<bv8>, out: nat, n: nat,
              inBounce: bool, outBounce: bool, block: array<bv8>,
              ghost payload: seq<bv8>, ghost done: nat, ghost srcStart: nat, ghost dst0: seq<bv8>, ghost dstStart: nat)
    returns (reg': Block)
    requires done + n <= |payload| && Aligned(n) && dstStart + |payload| <= |dst0| == dst.Length
    requires at == srcStart + done && out == dstStart + done && srcStart + |payload| <= src.Length
    requires src == dst ==> srcStart == dstStart
    requires block.Length == 16 && block != src && block != dst
    requires inBounce || outBounce ==> n == 16
    requires Produced(m, iv, payload, done, reg, dst0, dstStart, dst[..])
    requires Unread(src[..], payload, srcStart, done)
    modifies dst, block
    ensures Produced(m, iv, payload, done + n, reg', dst0, dstStart, dst[..])
    ensures Unread(src[..], payload, srcStart, done + n)
  {
    ghost var now := dst[..];
    ghost var chunk := src[..][at..at + n];
    NextChunk(src[..], payload, srcStart, done, n);
    reg' := CryptChunk(m, reg, src, at, dst, out, n, inBounce, outBounce, block);
    ProducedStep(m, iv, payload, done, reg, dst0, dstStart, now, chunk, reg', dst[..]);
  }

  /** What is left of a segment after `n` bytes: a bounced step asks the cursor, now at
      `cc`, for its next segment; a direct one just shortens the present one. */
  function Remaining(segs: Segments, cc: nat, len: nat, bounced: bool, n: nat): nat
    requires n <= len
  {
    if bounced then segs(cc) else len - n
  }

  /** For every segmentation of input and output, separate or in place, the output range
      receives CBC of the payload.  `fails` says at which offsets the cipher call reports an
      error and `junk` what it leaves behind; even then nothing outside the range changes. */
  method CbcWork(m: Mode, iv: Block, src: array<bv8>, srcStart: nat, dst: array<bv8>, dstStart: nat, len: nat,
                 inSegs: Segments, outSegs: Segments, fails: nat -> bool, junk: seq<bv8>) returns (error: int)
    requires srcStart + len <= src.Length && dstStart + len <= dst.Length
    requires src == dst ==> srcStart == dstStart
    requires Within(inSegs, src.Length) && Within(outSegs, dst.Length)
    modifies dst
    ensures len % 16 != 0 ==> error == EINVAL && dst[..] == old(dst[..])
    ensures error == 0 ==> dst[..] == Splice(old(dst[..]), dstStart, Crypt(m, iv, old(src[..])[srcStart..srcStart + len]))
    ensures error != 0 ==> Outside(old(dst[..]), dst[..], dstStart, len)
    ensures error == 0 || error == EINVAL
    ensures len % 16 == 0 && (forall d: nat :: !fails(d)) ==> error == 0
  {
    AlignedMod(len);
    if len % 16 != 0 {
      return EINVAL;
    }
    ghost var dst0 := dst[..];
    ghost var payload := src[..][srcStart..srcStart + len];
    var reg := iv;
    var block := new bv8[16];
    var ccIn, ccOut := srcStart, dstStart;
    var inSeg, inLen := ccIn, inSegs(ccIn);
    var outSeg, outLen := ccOut, outSegs(ccOut);
    var dataLen: nat := len;
    ghost var done: nat := 0;
    UnreadStart(src[..], srcStart, len);
    ProducedNothing(m, iv, payload, dst0, dstStart);
    while dataLen != 0
      invariant done + dataLen == len && Aligned(dataLen)
      invariant inSeg == ccIn == srcStart + done && ccIn + inLen <= src.Length
      invariant outSeg == ccOut == dstStart + done && ccOut + outLen <= dst.Length
      invariant Produced(m, iv, payload, done, reg, dst0, dstStart, dst[..])
      invariant Unread(src[..], payload, srcStart, done)
    {
      var inBounce, outBounce := inLen < 16, outLen < 16;
      inLen := if inBounce then 16 else inLen;
      outLen := if outBounce then 16 else outLen;
      var segLen := RoundDown(Min(dataLen, Min(inLen, outLen)));
      if fails(len - dataLen) {
        ProducedOutside(m, iv, payload, done, reg, dst0, dstStart, dst[..]);
        Scribble(dst, outSeg, segLen, if outBounce then [] else junk, dst0, dstStart, len);
        return EINVAL;
      }
      reg := Turn(m, iv, reg, src, inSeg, dst, outSeg, segLen, inBounce, outBounce, block, payload, done, srcStart, dst0, dstStart);
      done := done + segLen;
      ccOut, outSeg := ccOut + segLen, outSeg + segLen;
      outLen := Remaining(outSegs, ccOut, outLen, outBounce, segLen);
      ccIn, inSeg := ccIn + segLen, inSeg + segLen;
      inLen := Remaining(inSegs, ccIn, inLen, inBounce, segLen);
      AlignedSub(dataLen, segLen);
      dataLen := dataLen - segLen;
    }
    ProducedWhole(m, iv, payload, done, reg, dst0, dstStart, dst[..]);
    return 0;
  }

  function RoundDown(n: nat): (r: nat)
    ensures r <= n && Aligned(r)
    ensures n >= 16 ==> r >= 16
    ensures n == 16 ==> r == 16
  {
    AlignedMod(n - n % 16);
    n - n % 16
  }

  /** Decrypting what was encrypted, under any two pairs of segmentations: from one buffer into a
      second and on into a third, any of which may be the same one worked on in place. */
  method CbcThereAndBack(c: Cipher, iv: Block, src: array<bv8>, srcStart: nat, mid: array<bv8>, midStart: nat, dst: array<bv8>, dstStart: nat,
                         len: nat, in1: Segments, out1: Segments, in2: Segments, out2: Segments) returns (e1: int, e2: int)
    requires Inverts(c) && len % 16 == 0
    requires srcStart + len <= src.Length && midStart + len <= mid.Length && dstStart + len <= dst.Length
    requires (src == mid ==> srcStart == midStart) && (mid == dst ==> midStart == dstStart)
    requires Within(in1, src.Length) && Within(out1, mid.Length) && Within(in2, mid.Length) && Within(out2, dst.Length)
    modifies mid, dst
    ensures e1 == 0 && e2 == 0
    ensures dst[..] == Splice(old(dst[..]), dstStart, old(src[..])[srcStart..srcStart + len])
    ensures mid != dst ==> mid[..] == Splice(old(mid[..]), midStart, Crypt(Cbc(c, Encrypt), iv, old(src[..])[srcStart..srcStart + len]))
  {
    ghost var dst0, mid0 := dst[..], mid[..];
    ghost var payload := src[..][srcStart..srcStart + len];
    ghost var coded := Crypt(Cbc(c, Encrypt), iv, payload);
    AlignedMod(len);
    e1 := CbcWork(Cbc(c, Encrypt), iv, src, srcStart, mid, midStart, len, in1, out1, _ => false, []);
    ghost var dst1 := dst[..];
    SpliceReads(mid0, midStart, coded);
    e2 := CbcWork(Cbc(c, Decrypt), iv, mid, midStart, dst, dstStart, len, in2, out2, _ => false, []);
    CbcUndoes(c);
    ModeRoundTrip(Cbc(c, Decrypt), Cbc(c, Encrypt), iv, payload);
    if mid == dst { SpliceAgain(mid0, midStart, coded, payload); }
  }
}
