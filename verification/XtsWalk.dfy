/** `km_AesXtsEncrypt` and `km_AesXtsDecrypt`: a request walked in pieces, streamed
    through Init, Update and Final, gives the one-shot XTS of the whole request. */
module XtsWalk {
  import opened Common
  import opened Bytes
  import opened BlockModes
  import opened CbcBuffers
  import opened Xts
  import opened XtsLibrary

  /** `XtsAesStreamData`: the running tweak and the bytes processed under it, whose low bit
      is set once the stream is finalized. */
  class XtsStream {
    var tweakBlock: Block
    var bytes: nat

    constructor (k: XtsKey, iv: Block)
      ensures tweakBlock == k.tweak(iv) && bytes == 0
    {
      tweakBlock, bytes := k.tweak(iv), 0;
    }

    /** The step shared by Update and Final: one-shot XTS from the running tweak, which then
        stands after the whole blocks, short of the last of them for a partial decryption. */
    method Feed(k: XtsKey, dir: Direction, data: seq<bv8>) returns (err: int, out: seq<bv8>)
      modifies this
      ensures err == if |data| < 16 || old(bytes) % 16 != 0 then BAD_FUNC_ARG else 0
      ensures err == 0 ==> out == XtsUnit(k, dir, old(tweakBlock), data) && bytes == old(bytes) + |data|
      ensures err == 0 && |data| % 16 == 0 ==> tweakBlock == Chain(XtsMode(k, dir), old(tweakBlock), data)
      ensures err == 0 && |data| % 16 != 0 ==>
                tweakBlock == Chain(XtsMode(k, dir), old(tweakBlock), data[..|data| - |data| % 16 - if dir == Encrypt then 0 else 16])
      ensures err != 0 ==> out == [] && bytes == old(bytes) && tweakBlock == old(tweakBlock)
    {
      if |data| < 16 || bytes % 16 != 0 {
        return BAD_FUNC_ARG, [];
      }
      assert data[..|data|] == data;
      err, bytes := 0, bytes + |data|;
      if dir == Encrypt {
        out, tweakBlock := EncryptUpdate(k, tweakBlock, data);
      } else {
        out, tweakBlock := DecryptUpdate(k, tweakBlock, data);
      }
    }

    /** Only whole blocks may be passed; a refused call leaves the stream as it was. */
    method Update(k: XtsKey, dir: Direction, data: seq<bv8>) returns (err: int, out: seq<bv8>)
      modifies this
      ensures err == if |data| % 16 != 0 || |data| < 16 || old(bytes) % 16 != 0 then BAD_FUNC_ARG else 0
      ensures err == 0 ==> out == XtsUnit(k, dir, old(tweakBlock), data)
      ensures err == 0 ==> tweakBlock == Chain(XtsMode(k, dir), old(tweakBlock), data) && bytes == old(bytes) + |data|
      ensures err != 0 ==> out == [] && bytes == old(bytes) && tweakBlock == old(tweakBlock)
    {
      if |data| % 16 != 0 {
        return BAD_FUNC_ARG, [];
      }
      err, out := Feed(k, dir, data);
    }

    /** Any length, or none; afterwards the stream refuses more. */
    method Final(k: XtsKey, dir: Direction, data: seq<bv8>) returns (err: int, out: seq<bv8>)
      modifies this
      ensures |data| == 0 ==> err == 0 && out == []
      ensures |data| > 0 ==> err == if |data| < 16 || old(bytes) % 16 != 0 then BAD_FUNC_ARG else 0
      ensures |data| > 0 && err == 0 ==> out == XtsUnit(k, dir, old(tweakBlock), data)
      ensures err != 0 ==> out == []
      ensures bytes % 2 == 1 && tweakBlock == seq(16, _ => 0)
    {
      err, out := 0, [];
      if |data| > 0 {
        err, out := Feed(k, dir, data);
      }
      bytes := if bytes % 2 == 0 then bytes + 1 else bytes;
      tweakBlock := seq(16, _ => 0);
    }
  }

  /** How many bytes walk number `w` maps at each offset. */
  type Walks = (nat, nat) -> nat

  /** A walk over `total` bytes maps at least a byte at a time. */
  ghost predicate MapsEach(walks: Walks, w: nat, total: nat) {
    forall done: nat :: done < total ==> 0 < walks(w, done) <= total - done
  }

  /** A walk over `total` bytes maps at least two blocks, or all that is left, which is what the
      algorithm asks of the kernel with its `walksize`. */
  ghost predicate LongSteps(walks: Walks, w: nat, total: nat) {
    forall done: nat :: done < total ==> walks(w, done) <= total - done && (walks(w, done) >= 32 || walks(w, done) == total - done)
  }

  /** Library calls that fail, by walk and offset (walk 3 is the initial call), what they leave
      behind, and the error a walk returns on reaching an offset. */
  datatype XtsFaults = XtsFaults(library: (nat, nat) -> bool, junk: seq<bv8>, walk: (nat, nat) -> int)

  ghost predicate NoXtsFault(f: XtsFaults) {
    forall w: nat, done: nat :: !f.library(w, done) && f.walk(w, done) == 0
  }

  /** The bytes of a step that go to Update: whole blocks, unless it is the last step. */
  function StepLen(nbytes: nat, left: nat): (n: nat)
    requires nbytes <= left
    ensures n <= nbytes
    ensures nbytes == left ==> n == left
    ensures nbytes < left ==> n % 16 == 0 && n + 16 > nbytes
  {
    if nbytes < left then nbytes - nbytes % 16 else nbytes
  }

  /** One step of the streaming loop. */
  method StreamStep(k: XtsKey, dir: Direction, stream: XtsStream, src: array<bv8>, at: nat, dst: array<bv8>, out: nat, n: nat,
                    ghost t0: Block, ghost payload: seq<bv8>, ghost done: nat, ghost srcStart: nat, ghost dst0: seq<bv8>, ghost dstStart: nat)
    returns (err: int)
    requires done + n <= |payload| && Aligned(n) && n >= 16 && dstStart + |payload| <= |dst0| == dst.Length
    requires at == srcStart + done && out == dstStart + done && srcStart + |payload| <= src.Length
    requires src == dst ==> srcStart == dstStart
    requires stream.bytes == done
    requires Produced(XtsMode(k, dir), t0, payload, done, stream.tweakBlock, dst0, dstStart, dst[..])
    requires Unread(src[..], payload, srcStart, done)
    modifies dst, stream
    ensures err == 0 && stream.bytes == done + n
    ensures Produced(XtsMode(k, dir), t0, payload, done + n, stream.tweakBlock, dst0, dstStart, dst[..])
    ensures Unread(src[..], payload, srcStart, done + n)
  {
    ghost var now, reg := dst[..], stream.tweakBlock;
    var chunk := src[..][at..at + n];
    NextChunk(src[..], payload, srcStart, done, n);
    AlignedMod(n);
    AlignedMod(done);
    var piece;
    err, piece := stream.Update(k, dir, chunk);
    XtsAligned(k, dir, reg, chunk);
    WriteAt(dst, out, piece);
    ProducedStep(XtsMode(k, dir), t0, payload, done, reg, dst0, dstStart, now, chunk, stream.tweakBlock, dst[..]);
  }

  /** Every step of a walk over whole blocks passes Update at least one block and only whole
      blocks, so the loop never takes its Final branch and no call is refused. */
  lemma {:induction false} StepIsWholeBlocks(total: nat, done: nat, nbytes: nat)
    requires done < total && Aligned(total) && Aligned(done)
    requires nbytes <= total - done && (nbytes >= 32 || nbytes == total - done)
    ensures Aligned(StepLen(nbytes, total - done)) && StepLen(nbytes, total - done) >= 16
  {
    AlignedSub(total, done);
    AlignedMod(StepLen(nbytes, total - done));
  }

  /** Every step from `done` on passes Update at least a block. */
  predicate GoodWalk(walks: Walks, w: nat, total: nat, done: nat)
    requires done <= total
    decreases total - done
  {
    done == total ||
    (walks(w, done) <= total - done &&
     StepLen(walks(w, done), total - done) >= 16 &&
     GoodWalk(walks, w, total, done + StepLen(walks(w, done), total - done)))
  }

  lemma {:induction false} LongStepsAreGood(walks: Walks, w: nat, total: nat, done: nat)
    requires done <= total && Aligned(total) && Aligned(done) && LongSteps(walks, w, total)
    ensures GoodWalk(walks, w, total, done)
    decreases total - done
  {
    if done < total {
      var n := StepLen(walks(w, done), total - done);
      StepIsWholeBlocks(total, done, walks(w, done));
      AlignedAdd(done, n);
      LongStepsAreGood(walks, w, total, done + n);
    }
  }

  /** The bytes that go to Update are whole blocks, possibly none. */
  lemma {:induction false} StepIsAligned(total: nat, done: nat, nbytes: nat)
    requires done < total && Aligned(total) && Aligned(done) && nbytes <= total - done
    ensures Aligned(StepLen(nbytes, total - done))
    ensures StepLen(nbytes, total - done) < 16 ==> StepLen(nbytes, total - done) == 0
  {
    AlignedSub(total, done);
    AlignedMod(StepLen(nbytes, total - done));
  }

  /** The streaming loop over the first `total` bytes. A step of less than a block makes Update
      refuse an empty piece. */
  method StreamLoop(k: XtsKey, dir: Direction, stream: XtsStream, src: array<bv8>, srcStart: nat, dst: array<bv8>, dstStart: nat,
                    total: nat, walks: Walks, w: nat, f: XtsFaults, ghost t0: Block, ghost payload: seq<bv8>, ghost dst0: seq<bv8>)
    returns (err: int)
    requires Aligned(total) && total <= |payload| && MapsEach(walks, w, total)
    requires dstStart + |payload| <= |dst0| == dst.Length && srcStart + |payload| <= src.Length
    requires src == dst ==> srcStart == dstStart
    requires stream.bytes == 0 && stream.tweakBlock == t0 && dst[..] == dst0 && Unread(src[..], payload, srcStart, 0)
    modifies dst, stream
    ensures NoXtsFault(f) ==> err == if GoodWalk(walks, w, total, 0) then 0 else -EINVAL
    ensures err == 0 ==> stream.bytes == total
    ensures err == 0 ==> Produced(XtsMode(k, dir), t0, payload, total, stream.tweakBlock, dst0, dstStart, dst[..])
    ensures err == 0 ==> Unread(src[..], payload, srcStart, total)
    ensures Outside(dst0, dst[..], dstStart, |payload|)
  {
    var done: nat := 0;
    ProducedNothing(XtsMode(k, dir), t0, payload, dst0, dstStart);
    while done < total
      invariant done <= total && stream.bytes == done
      invariant Produced(XtsMode(k, dir), t0, payload, done, stream.tweakBlock, dst0, dstStart, dst[..])
      invariant Unread(src[..], payload, srcStart, done)
      invariant GoodWalk(walks, w, total, 0) == GoodWalk(walks, w, total, done)
    {
      var nbytes := walks(w, done);
      var n := StepLen(nbytes, total - done);
      StepIsAligned(total, done, nbytes);
      ProducedOutside(XtsMode(k, dir), t0, payload, done, stream.tweakBlock, dst0, dstStart, dst[..]);
      if f.library(w, done) {
        Scribble(dst, dstStart + done, n, f.junk, dst0, dstStart, |payload|);
        return -EINVAL;
      }
      if n < 16 {
        var refused, _ := stream.Update(k, dir, []);
        assert refused != 0;
        return -EINVAL;
      }
      err := StreamStep(k, dir, stream, src, srcStart + done, dst, dstStart + done, n, t0, payload, done, srcStart, dst0, dstStart);
      done := done + n;
      if f.walk(w, done) != 0 {
        ProducedOutside(XtsMode(k, dir), t0, payload, done, stream.tweakBlock, dst0, dstStart, dst[..]);
        return f.walk(w, done);
      }
    }
    ProducedOutside(XtsMode(k, dir), t0, payload, done, stream.tweakBlock, dst0, dstStart, dst[..]);
    return 0;
  }

  /** What the loop and a final part of at least a block have produced together. */
  lemma {:induction false} StreamedUnit(k: XtsKey, dir: Direction, t0: Block, payload: seq<bv8>, total: nat, reg: Block,
                     before: seq<bv8>, at: nat, now: seq<bv8>, n: nat, rest: seq<bv8>, to: nat, upto: nat)
    requires to == at + total && upto == total + n
    requires at + |payload| <= |before| && 16 <= n && total + n <= |payload|
    requires Produced(XtsMode(k, dir), t0, payload, total, reg, before, at, now)
    requires rest == payload[total..total + n]
    ensures Splice(now, to, XtsUnit(k, dir, reg, rest)) == Splice(before, at, XtsUnit(k, dir, t0, payload[..upto]))
  {
    assert payload[..total + n] == payload[..total] + rest;
    XtsAppend(k, dir, t0, payload[..total], rest);
    SpliceAppend(before, at, Crypt(XtsMode(k, dir), t0, payload[..total]), XtsUnit(k, dir, reg, rest));
  }

  /** The bytes streamed before the last block and the part after it. */
  lemma {:induction false} TailSplit(len: nat)
    requires len > 32 && len % 16 != 0
    ensures Aligned(Streamed(len)) && Streamed(len) >= 16 && len - Streamed(len) == 16 + len % 16
  {
    AlignedMod(Streamed(len));
  }

  /** The length of the sub-request: all blocks but the last two, one of which is partial. */
  function Streamed(len: nat): (n: nat)
    requires len > 32
    ensures n <= len
  {
    ((len + 15) / 16 - 2) * 16
  }

  /** The last block and the part after it, walked once more and finalized. What the walk does
      not map in its first step is lost. */
  method FinishTail(k: XtsKey, dir: Direction, stream: XtsStream, src: array<bv8>, srcStart: nat, dst: array<bv8>, dstStart: nat,
                    total: nat, len: nat, walks: Walks, f: XtsFaults, ghost t0: Block, ghost payload: seq<bv8>, ghost dst0: seq<bv8>) returns (err: int)
    requires |payload| == len && total + 16 < len < total + 32 && MapsEach(walks, 2, len - total)
    requires dstStart + len <= |dst0| == dst.Length && srcStart + len <= src.Length
    requires stream.bytes == total
    requires Produced(XtsMode(k, dir), t0, payload, total, stream.tweakBlock, dst0, dstStart, dst[..])
    requires Unread(src[..], payload, srcStart, total)
    modifies dst, stream
    ensures NoXtsFault(f) ==> err == if walks(2, 0) >= 16 then 0 else -EINVAL
    ensures err == 0 ==> walks(2, 0) >= 16 && dst[..] == Splice(dst0, dstStart, XtsUnit(k, dir, t0, payload[..total + walks(2, 0)]))
    ensures Outside(dst0, dst[..], dstStart, len)
  {
    ghost var now, reg := dst[..], stream.tweakBlock;
    ProducedOutside(XtsMode(k, dir), t0, payload, total, reg, dst0, dstStart, now);
    if f.walk(2, 0) != 0 {
      return f.walk(2, 0);
    }
    var nbytes := walks(2, 0);
    var at: nat := dstStart + total;
    if f.library(2, 0) {
      Scribble(dst, at, nbytes, f.junk, dst0, dstStart, len);
      return -EINVAL;
    }
    var rest := src[..][srcStart + total..srcStart + total + nbytes];
    NextChunk(src[..], payload, srcStart, total, nbytes);
    AlignedMod(total);
    var piece;
    err, piece := stream.Final(k, dir, rest);
    if err != 0 {
      return -EINVAL;
    }
    SpliceOutside(dst0, now, dstStart, len, at, piece);
    WriteAt(dst, at, piece);
    StreamedUnit(k, dir, t0, payload, total, reg, dst0, dstStart, now, nbytes, rest, at, total + nbytes);
    err := f.walk(2, nbytes);
  }

  /** Which walks a request of at least a block gets through. */
  predicate Accepts(walks: Walks, len: nat)
    requires len >= 16
  {
    walks(0, 0) == len ||
    if len % 16 == 0 then GoodWalk(walks, 0, len, 0)
    else len > 32 && GoodWalk(walks, 1, Streamed(len), 0) && walks(2, 0) >= 16
  }

  /** How much of a request is processed when it succeeds: all of it, unless the last part of a
      request with a partial block is not mapped in one step. */
  function Covered(walks: Walks, len: nat): (n: nat)
    requires len >= 16
  {
    if walks(0, 0) != len && len > 32 && len % 16 != 0 then Streamed(len) + walks(2, 0) else len
  }

  ghost predicate AllMap(walks: Walks, len: nat) {
    MapsEach(walks, 0, len) && (len > 32 && len % 16 != 0 ==> MapsEach(walks, 1, Streamed(len)) && MapsEach(walks, 2, len - Streamed(len)))
  }

  ghost predicate AllLong(walks: Walks, len: nat) {
    LongSteps(walks, 0, len) && (len > 32 && len % 16 != 0 ==> LongSteps(walks, 1, Streamed(len)) && LongSteps(walks, 2, len - Streamed(len)))
  }

  /** Long steps get through, and map the last part in one step. */
  lemma {:induction false} LongStepsSuffice(walks: Walks, len: nat)
    requires len >= 16 && AllLong(walks, len)
    ensures Accepts(walks, len) && Covered(walks, len) == len
  {
    if len % 16 == 0 {
      AlignedMod(len);
      LongStepsAreGood(walks, 0, len, 0);
    } else if len > 32 {
      TailSplit(len);
      LongStepsAreGood(walks, 1, Streamed(len), 0);
    }
  }

  /** The streamed form of a request that its first step does not map whole. */
  method StreamRequest(k: XtsKey, dir: Direction, iv: Block, src: array<bv8>, srcStart: nat, dst: array<bv8>, dstStart: nat, len: nat,
                       walks: Walks, f: XtsFaults) returns (err: int)
    requires srcStart + len <= src.Length && dstStart + len <= dst.Length && len >= 16
    requires src == dst ==> srcStart == dstStart
    requires AllMap(walks, len) && walks(0, 0) != len
    modifies dst
    ensures NoXtsFault(f) ==> err == if Accepts(walks, len) then 0 else -EINVAL
    ensures err == 0 ==> 16 <= Covered(walks, len) <= len
    ensures err == 0 ==>
              dst[..] == Splice(old(dst[..]), dstStart, XtsUnit(k, dir, k.tweak(iv), old(src[..])[srcStart..srcStart + len][..Covered(walks, len)]))
    ensures Outside(old(dst[..]), dst[..], dstStart, len)
  {
    ghost var dst0 := dst[..];
    ghost var payload := src[..][srcStart..srcStart + len];
    UnreadStart(src[..], srcStart, len);
    var tail := len % 16;
    if tail > 0 && len <= 32 {
      return -EINVAL;
    }
    var total, w := if tail > 0 then Streamed(len) else len, if tail > 0 then 1 else 0;
    if tail > 0 { TailSplit(len); } else { AlignedMod(len); }
    if f.walk(w, 0) != 0 {
      return f.walk(w, 0);
    }
    if f.library(3, 0) {
      return -EINVAL;
    }
    var stream := new XtsStream(k, iv);
    ghost var t0 := stream.tweakBlock;
    err := StreamLoop(k, dir, stream, src, srcStart, dst, dstStart, total, walks, w, f, t0, payload, dst0);
    if err != 0 {
      return;
    }
    if tail > 0 {
      err := FinishTail(k, dir, stream, src, srcStart, dst, dstStart, total, len, walks, f, t0, payload, dst0);
    } else {
      ProducedWhole(XtsMode(k, dir), t0, payload, len, stream.tweakBlock, dst0, dstStart, dst[..]);
      XtsAligned(k, dir, t0, payload);
      assert payload[..len] == payload;
      if f.library(3, 1) {
        return -EINVAL;
      }
      var _, _ := stream.Final(k, dir, []);
    }
  }

  /** A request of any length, under any walks and failures. It gets through exactly when no step
      is too short, and a success leaves the one-shot XTS of what was covered in the output
      range; nothing else ever changes. Steps of the length that the algorithm asks for
      get through and cover the whole request. */
  method XtsRequest(k: XtsKey, dir: Direction, iv: Block, src: array<bv8>, srcStart: nat, dst: array<bv8>, dstStart: nat, len: nat,
                    walks: Walks, f: XtsFaults) returns (err: int)
    requires srcStart + len <= src.Length && dstStart + len <= dst.Length
    requires src == dst ==> srcStart == dstStart
    requires AllMap(walks, len)
    modifies dst
    ensures len < 16 ==> err == -EINVAL && dst[..] == old(dst[..])
    ensures len >= 16 && NoXtsFault(f) ==> err == if Accepts(walks, len) then 0 else -EINVAL
    ensures len >= 16 && err == 0 ==> 16 <= Covered(walks, len) <= len
    ensures len >= 16 && err == 0 ==>
              dst[..] == Splice(old(dst[..]), dstStart, XtsUnit(k, dir, k.tweak(iv), old(src[..])[srcStart..srcStart + len][..Covered(walks, len)]))
    ensures len >= 16 && AllLong(walks, len) ==> Accepts(walks, len) && Covered(walks, len) == len
    ensures Outside(old(dst[..]), dst[..], dstStart, len)
  {
    if len < 16 {
      return -EINVAL;
    }
    ghost var dst0 := dst[..];
    if AllLong(walks, len) { LongStepsSuffice(walks, len); }
    if f.walk(0, 0) != 0 {
      return f.walk(0, 0);
    }
    if walks(0, 0) != len {
      err := StreamRequest(k, dir, iv, src, srcStart, dst, dstStart, len, walks, f);
      return;
    }
    if f.library(0, 0) {
      Scribble(dst, dstStart, len, f.junk, dst0, dstStart, len);
      return -EINVAL;
    }
    var payload := src[..][srcStart..srcStart + len];
    assert payload[..len] == payload;
    var out := OneShot(k, dir, k.tweak(iv), payload);
    WriteAt(dst, dstStart, out);
    err := f.walk(0, len);
  }

  /** `wc_AesXtsEncrypt` and `wc_AesXtsDecrypt`: the same block loops from a fresh tweak. */
  method OneShot(k: XtsKey, dir: Direction, t: Block, data: seq<bv8>) returns (out: seq<bv8>)
    requires |data| >= 16
    ensures out == XtsUnit(k, dir, t, data)
  {
    var t';
    if dir == Encrypt {
      out, t' := EncryptUpdate(k, t, data);
    } else {
      out, t' := DecryptUpdate(k, t, data);
    }
  }

  /** Decrypting what was encrypted, under any walks of the length asked for: from one buffer into a
      second and on into a third, any of which may be the same one worked on in place. */
  method XtsThereAndBack(k: XtsKey, iv: Block, src: array<bv8>, srcStart: nat, mid: array<bv8>, midStart: nat, dst: array<bv8>, dstStart: nat,
                         len: nat, walks1: Walks, walks2: Walks, f: XtsFaults) returns (e1: int, e2: int)
    requires Inverts(k.cipher) && 16 <= len && NoXtsFault(f)
    requires srcStart + len <= src.Length && midStart + len <= mid.Length && dstStart + len <= dst.Length
    requires (src == mid ==> srcStart == midStart) && (mid == dst ==> midStart == dstStart)
    requires AllLong(walks1, len) && AllLong(walks2, len)
    modifies mid, dst
    ensures e1 == 0 && e2 == 0
    ensures dst[..] == Splice(old(dst[..]), dstStart, old(src[..])[srcStart..srcStart + len])
  {
    ghost var mid0 := mid[..];
    ghost var payload := src[..][srcStart..srcStart + len];
    assert payload[..len] == payload;
    ghost var coded := XtsUnit(k, Encrypt, k.tweak(iv), payload);
    e1 := XtsRequest(k, Encrypt, iv, src, srcStart, mid, midStart, len, walks1, f);
    SpliceReads(mid0, midStart, coded);
    ghost var got := mid[..][midStart..midStart + len];
    assert got == coded && got[..len] == got;
    XtsRoundTrip(k, k.tweak(iv), payload);
    e2 := XtsRequest(k, Decrypt, iv, mid, midStart, dst, dstStart, len, walks2, f);
    if mid == dst { SpliceAgain(mid0, midStart, coded, payload); }
  }
}
