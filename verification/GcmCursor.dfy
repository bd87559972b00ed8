/** `wolfkdriv_gcm_work`: GCM fed from scatter-gather cursors, the cipher kept abstract
    as a key stream and a tag over the additional data and the ciphertext. */
module GcmCursor {
  import opened Common
  import opened Cursors
  import opened Bytes
  import opened CbcBuffers
  import opened BlockModes

  const EBADMSG := 89

  /** GCM under one key and one IV. */
  datatype Session = Session(pad: nat -> bv8, tag: (seq<bv8>, seq<bv8>) -> Block)

  /** `data` under the key stream from position `pos` on; its own inverse. */
  function Pad(s: Session, pos: nat, data: seq<bv8>): (r: seq<bv8>)
    ensures |r| == |data|
  {
    seq(|data|, i requires 0 <= i < |data| => data[i] ^ s.pad(pos + i))
  }

  lemma {:induction false} PadAppend(s: Session, pos: nat, a: seq<bv8>, b: seq<bv8>)
    ensures Pad(s, pos, a + b) == Pad(s, pos, a) + Pad(s, pos + |a|, b)
  {
    var x, y := Pad(s, pos, a + b), Pad(s, pos, a) + Pad(s, pos + |a|, b);
    forall i | 0 <= i < |x|
      ensures x[i] == y[i]
    {
      if i < |a| {
        assert (a + b)[i] == a[i];
      } else {
        assert (a + b)[i] == b[i - |a|];
        assert pos + i == pos + |a| + (i - |a|);
      }
    }
  }

  lemma {:induction false} PadTwice(s: Session, pos: nat, data: seq<bv8>)
    ensures Pad(s, pos, Pad(s, pos, data)) == data
  {
    forall i | 0 <= i < |data|
      ensures Pad(s, pos, Pad(s, pos, data))[i] == data[i]
    {
      XorByte(data[i], s.pad(pos + i));
    }
  }

  /** The ciphertext side of a payload. */
  function Coded(s: Session, dir: Direction, data: seq<bv8>): (r: seq<bv8>)
    ensures |r| == |data|
  {
    if dir == Encrypt then Pad(s, 0, data) else data
  }

  /** The streaming state: what it has been fed, and which of its calls fail. */
  class Gcm {
    const s: Session
    const fails: nat -> bool
    var aad: seq<bv8>
    var text: seq<bv8>
    var calls: nat

    constructor (s: Session, fails: nat -> bool)
      ensures this.s == s && this.fails == fails && aad == [] && text == [] && calls == 0
    {
      this.s, this.fails, this.aad, this.text, this.calls := s, fails, [], [], 0;
    }

    method UpdateAad(data: seq<bv8>) returns (ok: bool)
      modifies this
      ensures ok == !fails(old(calls)) && calls == old(calls) + 1 && text == old(text)
      ensures aad == if ok then old(aad) + data else old(aad)
    {
      ok, calls := !fails(calls), calls + 1;
      if ok {
        aad := aad + data;
      }
    }

    method UpdateText(dir: Direction, data: seq<bv8>) returns (ok: bool, out: seq<bv8>)
      modifies this
      ensures ok == !fails(old(calls)) && calls == old(calls) + 1 && aad == old(aad)
      ensures ok ==> out == Pad(s, |old(text)|, data) && text == old(text) + if dir == Encrypt then out else data
      ensures !ok ==> text == old(text)
    {
      ok, calls, out := !fails(calls), calls + 1, [];
      if ok {
        out := Pad(s, |text|, data);
        text := text + if dir == Encrypt then out else data;
      }
    }
  }

  ghost predicate NeverFails(fails: nat -> bool) {
    forall n: nat :: !fails(n)
  }

  /** Additional data taken from the buffer piece by piece. */
  method FeedAad(gcm: Gcm, src: array<bv8>, start: nat, len: nat, segs: Segments) returns (error: int)
    requires start + len <= src.Length && Within(segs, src.Length)
    modifies gcm
    ensures gcm.text == old(gcm.text)
    ensures error == 0 || error == EINVAL
    ensures error == 0 ==> gcm.aad == old(gcm.aad) + src[..][start..start + len]
    ensures NeverFails(gcm.fails) && Positive(segs, src.Length) ==> error == 0
  {
    ghost var before, all := gcm.aad, src[..];
    var cc, left: nat := start, len;
    assert all[start..start] == [];
    while left > 0
      invariant cc + left == start + len && start <= cc
      invariant gcm.aad == before + all[start..cc] && gcm.text == old(gcm.text)
    {
      var n := Min(left, segs(cc));
      if n == 0 {
        return EINVAL;
      }
      var ok := gcm.UpdateAad(src[..][cc..cc + n]);
      if !ok {
        return EINVAL;
      }
      assert all[start..cc] + all[cc..cc + n] == all[start..cc + n];
      cc, left := cc + n, left - n;
    }
    return 0;
  }

  /** What the payload loop has fed and produced after `done` bytes. */
  ghost predicate Fed(s: Session, dir: Direction, payload: seq<bv8>, done: nat, text: seq<bv8>, before: seq<bv8>, at: nat, now: seq<bv8>)
    requires done <= |payload| && at + |payload| <= |before|
  {
    && text == Coded(s, dir, payload[..done])
    && now == Splice(before, at, Pad(s, 0, payload[..done]))
  }

  lemma {:induction false} FedNothing(s: Session, dir: Direction, payload: seq<bv8>, before: seq<bv8>, at: nat)
    requires at + |payload| <= |before|
    ensures Fed(s, dir, payload, 0, [], before, at, before)
  {
    assert Coded(s, dir, payload[..0]) == [];
    assert Splice(before, at, Pad(s, 0, payload[..0])) == before;
  }

  lemma {:induction false} CodedPrefix(s: Session, dir: Direction, payload: seq<bv8>, done: nat, chunk: seq<bv8>)
    requires done + |chunk| <= |payload| && chunk == payload[done..done + |chunk|]
    ensures Pad(s, 0, payload[..done + |chunk|]) == Pad(s, 0, payload[..done]) + Pad(s, done, chunk)
    ensures Coded(s, dir, payload[..done + |chunk|]) == Coded(s, dir, payload[..done]) + if dir == Encrypt then Pad(s, done, chunk) else chunk
  {
    assert payload[..done + |chunk|] == payload[..done] + chunk;
    PadAppend(s, 0, payload[..done], chunk);
  }

  lemma {:induction false} FedStep(s: Session, dir: Direction, payload: seq<bv8>, done: nat, text: seq<bv8>, before: seq<bv8>, at: nat, now: seq<bv8>,
                chunk: seq<bv8>, piece: seq<bv8>, text': seq<bv8>, now': seq<bv8>)
    requires done + |chunk| <= |payload| && at + |payload| <= |before| && chunk == payload[done..done + |chunk|]
    requires Fed(s, dir, payload, done, text, before, at, now)
    requires piece == Pad(s, |text|, chunk) && text' == text + if dir == Encrypt then piece else chunk
    requires now' == Splice(now, at + done, piece)
    ensures Fed(s, dir, payload, done + |chunk|, text', before, at, now')
  {
    CodedPrefix(s, dir, payload, done, chunk);
    SpliceAppend(before, at, Pad(s, 0, payload[..done]), piece);
  }

  lemma {:induction false} FedOutside(s: Session, dir: Direction, payload: seq<bv8>, done: nat, text: seq<bv8>, before: seq<bv8>, at: nat, now: seq<bv8>)
    requires done <= |payload| && at + |payload| <= |before| && Fed(s, dir, payload, done, text, before, at, now)
    ensures Outside(before, now, at, |payload|)
  {
  }

  /** One turn of the payload loop. A failing update may leave `junk` in the piece it was to write. */
  method FeedChunk(gcm: Gcm, dir: Direction, src: array<bv8>, at: nat, dst: array<bv8>, out: nat, n: nat, junk: seq<bv8>,
                   ghost payload: seq<bv8>, ghost done: nat, ghost srcStart: nat, ghost dst0: seq<bv8>, ghost dstStart: nat)
    returns (ok: bool)
    requires done + n <= |payload| && dstStart + |payload| <= |dst0| == dst.Length && srcStart + |payload| <= src.Length
    requires at == srcStart + done && out == dstStart + done
    requires src == dst ==> srcStart == dstStart
    requires Fed(gcm.s, dir, payload, done, gcm.text, dst0, dstStart, dst[..])
    requires Unread(src[..], payload, srcStart, done)
    modifies gcm, dst
    ensures gcm.aad == old(gcm.aad)
    ensures NeverFails(gcm.fails) ==> ok
    ensures ok ==> Fed(gcm.s, dir, payload, done + n, gcm.text, dst0, dstStart, dst[..])
    ensures ok ==> Unread(src[..], payload, srcStart, done + n)
    ensures Outside(dst0, dst[..], dstStart, |payload|)
  {
    ghost var now, text := dst[..], gcm.text;
    FedOutside(gcm.s, dir, payload, done, text, dst0, dstStart, now);
    var chunk := src[..][at..at + n];
    NextChunk(src[..], payload, srcStart, done, n);
    var piece;
    ok, piece := gcm.UpdateText(dir, chunk);
    if ok {
      WriteAt(dst, out, piece);
      FedStep(gcm.s, dir, payload, done, text, dst0, dstStart, now, chunk, piece, gcm.text, dst[..]);
      FedOutside(gcm.s, dir, payload, done + n, gcm.text, dst0, dstStart, dst[..]);
    } else {
      Scribble(dst, out, n, junk, dst0, dstStart, |payload|);
    }
  }

  /** The payload loop. */
  method FeedPayload(gcm: Gcm, dir: Direction, src: array<bv8>, srcStart: nat, dst: array<bv8>, dstStart: nat, len: nat, inSegs: Segments, outSegs: Segments, junk: seq<bv8>)
    returns (error: int)
    requires srcStart + len <= src.Length && dstStart + len <= dst.Length && gcm.text == []
    requires src == dst ==> srcStart == dstStart
    requires Within(inSegs, src.Length) && Within(outSegs, dst.Length)
    modifies gcm, dst
    ensures gcm.aad == old(gcm.aad)
    ensures error == 0 || error == EINVAL
    ensures NeverFails(gcm.fails) && Positive(inSegs, src.Length) && Positive(outSegs, dst.Length) ==> error == 0
    ensures error == 0 ==> gcm.text == Coded(gcm.s, dir, old(src[..])[srcStart..srcStart + len])
    ensures error == 0 ==> dst[..] == Splice(old(dst[..]), dstStart, Pad(gcm.s, 0, old(src[..])[srcStart..srcStart + len]))
    ensures Outside(old(dst[..]), dst[..], dstStart, len)
  {
    ghost var dst0 := dst[..];
    ghost var payload := src[..][srcStart..srcStart + len];
    var ccIn, ccOut, dataLen: nat := srcStart, dstStart, len;
    ghost var done: nat := 0;
    FedNothing(gcm.s, dir, payload, dst0, dstStart);
    UnreadStart(src[..], srcStart, len);
    while dataLen != 0
      invariant done + dataLen == len && ccIn == srcStart + done && ccOut == dstStart + done
      invariant gcm.aad == old(gcm.aad)
      invariant Fed(gcm.s, dir, payload, done, gcm.text, dst0, dstStart, dst[..])
      invariant Unread(src[..], payload, srcStart, done)
    {
      var n := Min(dataLen, Min(inSegs(ccIn), outSegs(ccOut)));
      if n == 0 {
        FedOutside(gcm.s, dir, payload, done, gcm.text, dst0, dstStart, dst[..]);
        return EINVAL;
      }
      var ok := FeedChunk(gcm, dir, src, ccIn, dst, ccOut, n, junk, payload, done, srcStart, dst0, dstStart);
      if !ok {
        return EINVAL;
      }
      done := done + n;
      ccIn, ccOut, dataLen := ccIn + n, ccOut + n, dataLen - n;
    }
    assert payload[..len] == payload;
    FedOutside(gcm.s, dir, payload, done, gcm.text, dst0, dstStart, dst[..]);
    return 0;
  }

  /** Where the additional data comes from: its own buffer, or a range of the input. */
  datatype AadSource = Separate(data: seq<bv8>) | InBuffer(start: nat, len: nat)

  function AadOf(a: AadSource, src: seq<bv8>): seq<bv8>
    requires a.InBuffer? ==> a.start + a.len <= |src|
  {
    match a
    case Separate(data) => data
    case InBuffer(start, len) => src[start..start + len]
  }

  /** Ciphertext and tag where they belong. */
  lemma {:induction false} EncryptedBytes(s: Session, payload: seq<bv8>, before: seq<bv8>, at: nat, digest: nat, tag: Block, now: seq<bv8>)
    requires at + |payload| <= |before| && digest + 16 <= |before|
    requires now == Splice(Splice(before, at, Pad(s, 0, payload)), digest, tag)
    ensures now[digest..digest + 16] == tag
    ensures digest + 16 <= at || at + |payload| <= digest ==> now[at..at + |payload|] == Pad(s, 0, payload)
    ensures digest + 16 <= at || at + |payload| <= digest ==> forall i :: 0 <= i < |payload| ==> now[at + i] == payload[i] ^ s.pad(i)
  {
  }

  /** Which of the library calls fail: the initial one, an update by its number, the final one;
      and what a failing update leaves behind. */
  datatype GcmFaults = GcmFaults(initial: bool, update: nat -> bool, final: bool, junk: seq<bv8>)

  ghost predicate NoGcmFault(f: GcmFaults) {
    !f.initial && NeverFails(f.update) && !f.final
  }

  /** The request itself. */
  method Work(s: Session, f: GcmFaults, dir: Direction, src: array<bv8>, srcStart: nat, dst: array<bv8>, dstStart: nat, len: nat,
              aad: AadSource, digestStart: nat, aadSegs: Segments, inSegs: Segments, outSegs: Segments) returns (error: int)
    requires srcStart + len <= src.Length && dstStart + len <= dst.Length
    requires src == dst ==> srcStart == dstStart
    requires aad.InBuffer? ==> aad.start + aad.len <= src.Length
    requires dir == Encrypt ==> digestStart + 16 <= dst.Length
    requires dir == Decrypt ==> digestStart + 16 <= src.Length
    requires Within(aadSegs, src.Length) && Within(inSegs, src.Length) && Within(outSegs, dst.Length)
    modifies dst
    ensures error in {0, EINVAL, EBADMSG}
    ensures NoGcmFault(f) && Positive(aadSegs, src.Length) && Positive(inSegs, src.Length) && Positive(outSegs, dst.Length) ==> error != EINVAL
    ensures error != EINVAL ==>
              var payload := old(src[..])[srcStart..srcStart + len];
              var made := Splice(old(dst[..]), dstStart, Pad(s, 0, payload));
              var tag := s.tag(AadOf(aad, old(src[..])), Coded(s, dir, payload));
              if dir == Encrypt then error == 0 && dst[..] == Splice(made, digestStart, tag)
              else dst[..] == made && (error == 0 <==> !f.final && (if src == dst then made else old(src[..]))[digestStart..digestStart + 16] == tag)
    ensures error == EINVAL ==> Outside(old(dst[..]), dst[..], dstStart, len)
  {
    if f.initial {
      return EINVAL;
    }
    var gcm := new Gcm(s, f.update);
    match aad {
      case Separate(data) =>
        var ok := gcm.UpdateAad(data);
        if !ok {
          return EINVAL;
        }
      case InBuffer(start, n) =>
        error := FeedAad(gcm, src, start, n, aadSegs);
        if error != 0 {
          return;
        }
    }
    assert gcm.aad == AadOf(aad, src[..]);
    error := FeedPayload(gcm, dir, src, srcStart, dst, dstStart, len, inSegs, outSegs, f.junk);
    if error != 0 {
      return;
    }
    var tag := s.tag(gcm.aad, gcm.text);
    if dir == Encrypt {
      if f.final {
        return EINVAL;
      }
      WriteAt(dst, digestStart, tag);
    } else {
      var given := src[..][digestStart..digestStart + 16];
      error := if given == tag && !f.final then 0 else EBADMSG;
    }
  }

  lemma {:induction false} DecryptedBytes(s: Session, payload: seq<bv8>, before: seq<bv8>, at: nat, now: seq<bv8>)
    requires at + |payload| <= |before| && now == Splice(before, at, Pad(s, 0, payload))
    ensures forall i :: 0 <= i < |payload| ==> now[at + i] == payload[i] ^ s.pad(i)
  {
  }

  /** The request, for every segmentation of its buffers, separate or in place.  The tag is
      written to the output buffer, or read from the input buffer, at `digestStart`.  Whatever
      fails, nothing outside the output range changes but the tag of a success. `bytes` is
      the additional data and `payload` the input. */
  method GcmWork(s: Session, f: GcmFaults, dir: Direction, src: array<bv8>, srcStart: nat, dst: array<bv8>, dstStart: nat, len: nat,
                 aad: AadSource, digestStart: nat, aadSegs: Segments, inSegs: Segments, outSegs: Segments, ghost bytes: seq<bv8>, ghost payload: seq<bv8>) returns (error: int)
    requires srcStart + len <= src.Length && dstStart + len <= dst.Length
    requires src == dst ==> srcStart == dstStart
    requires aad.InBuffer? ==> aad.start + aad.len <= src.Length
    requires dir == Encrypt ==> digestStart + 16 <= dst.Length
    requires dir == Decrypt ==> digestStart + 16 <= src.Length
    requires Within(aadSegs, src.Length) && Within(inSegs, src.Length) && Within(outSegs, dst.Length)
    requires aad.Separate? ==> bytes == aad.data
    requires aad.InBuffer? ==> bytes == src[..][aad.start..aad.start + aad.len]
    requires payload == src[..][srcStart..srcStart + len]
    modifies dst
    ensures error in {0, EINVAL, EBADMSG}
    ensures NoGcmFault(f) && Positive(aadSegs, src.Length) && Positive(inSegs, src.Length) && Positive(outSegs, dst.Length) ==> error != EINVAL
    ensures error != EINVAL ==>
              var made := Splice(old(dst[..]), dstStart, Pad(s, 0, payload));
              var tag := s.tag(AadOf(aad, old(src[..])), Coded(s, dir, payload));
              if dir == Encrypt then error == 0 && dst[..] == Splice(made, digestStart, tag)
              else dst[..] == made && (error == 0 <==> !f.final && (if src == dst then made else old(src[..]))[digestStart..digestStart + 16] == tag)
    ensures error == EINVAL ==> Outside(old(dst[..]), dst[..], dstStart, len)
    // the same with the bytes spelled out
    ensures error == 0 && dir == Encrypt && (digestStart + 16 <= dstStart || dstStart + len <= digestStart) ==>
              && (forall i :: 0 <= i < len ==> dst[..][dstStart + i] == payload[i] ^ s.pad(i))
              && dst[..][digestStart..digestStart + 16] == s.tag(bytes, dst[..][dstStart..dstStart + len])
    ensures error != EINVAL && dir == Decrypt ==>
              forall i :: 0 <= i < len ==> dst[..][dstStart + i] == payload[i] ^ s.pad(i)
    ensures error != EINVAL && dir == Decrypt && src != dst && !f.final ==>
              (error == 0 <==> s.tag(bytes, payload) == old(src[..])[digestStart..digestStart + 16])
  {
    ghost var dst0 := dst[..];
    error := Work(s, f, dir, src, srcStart, dst, dstStart, len, aad, digestStart, aadSegs, inSegs, outSegs);
    if error != EINVAL && dir == Decrypt {
      DecryptedBytes(s, payload, dst0, dstStart, dst[..]);
    } else if error != EINVAL {
      EncryptedBytes(s, payload, dst0, dstStart, digestStart, s.tag(bytes, Pad(s, 0, payload)), dst[..]);
    }
  }

  /** The buffer after encryption: ciphertext and tag stand in it, and decryption leaves the tag alone. */
  lemma {:induction false} SentImage(s: Session, mid: seq<bv8>, start: nat, payload: seq<bv8>, digest: nat, tag: Block, sent: seq<bv8>)
    requires start + |payload| <= |mid| && digest + 16 <= |mid| && (digest + 16 <= start || start + |payload| <= digest)
    requires sent == Splice(Splice(mid, start, Pad(s, 0, payload)), digest, tag)
    ensures sent[start..start + |payload|] == Pad(s, 0, payload)
    ensures sent[digest..digest + 16] == tag
    ensures Pad(s, 0, Pad(s, 0, payload)) == payload
    ensures Splice(sent, start, payload)[digest..digest + 16] == tag
  {
    PadTwice(s, 0, payload);
  }

  /** Decrypting what was encrypted, under any segmentations, from one buffer into a second and on
      into a third, any of which may be the same one worked on in place: the payload comes
      back, and the tag is accepted exactly when the additional data now given has the tag
      of what was given before. */
  method GcmThereAndBack(s: Session, src: array<bv8>, srcStart: nat, mid: array<bv8>, midStart: nat, dst: array<bv8>, dstStart: nat, len: nat,
                         aad1: AadSource, aad2: AadSource, digest: nat, f: GcmFaults,
                         aadSegs1: Segments, in1: Segments, out1: Segments, aadSegs2: Segments, in2: Segments, out2: Segments)
    returns (e1: int, e2: int, ghost sent: seq<bv8>)
    requires srcStart + len <= src.Length && midStart + len <= mid.Length && dstStart + len <= dst.Length
    requires (src == mid ==> srcStart == midStart) && (mid == dst ==> midStart == dstStart)
    requires aad1.InBuffer? ==> aad1.start + aad1.len <= src.Length
    requires aad2.InBuffer? ==> aad2.start + aad2.len <= mid.Length
    requires digest + 16 <= mid.Length && (digest + 16 <= midStart || midStart + len <= digest)
    requires NoGcmFault(f) && Within(aadSegs1, src.Length) && Within(in1, src.Length) && Within(out1, mid.Length)
    requires Within(aadSegs2, mid.Length) && Within(in2, mid.Length) && Within(out2, dst.Length)
    requires Positive(aadSegs1, src.Length) && Positive(in1, src.Length) && Positive(out1, mid.Length)
    requires Positive(aadSegs2, mid.Length) && Positive(in2, mid.Length) && Positive(out2, dst.Length)
    modifies mid, dst
    ensures e1 == 0 && |sent| == mid.Length
    ensures dst[..] == Splice(if mid == dst then sent else old(dst[..]), dstStart, old(src[..])[srcStart..srcStart + len])
    ensures var coded := Pad(s, 0, old(src[..])[srcStart..srcStart + len]);
            && sent == Splice(Splice(old(mid[..]), midStart, coded), digest, s.tag(AadOf(aad1, old(src[..])), coded))
            && e2 == if s.tag(AadOf(aad2, sent), coded) == s.tag(AadOf(aad1, old(src[..])), coded) then 0 else EBADMSG
  {
    ghost var mid0, dst0 := mid[..], dst[..];
    ghost var payload := src[..][srcStart..srcStart + len];
    ghost var coded := Pad(s, 0, payload);
    ghost var tag := s.tag(AadOf(aad1, src[..]), coded);
    e1 := GcmWork(s, f, Encrypt, src, srcStart, mid, midStart, len, aad1, digest, aadSegs1, in1, out1, AadOf(aad1, src[..]), payload);
    sent := mid[..];
    SentImage(s, mid0, midStart, payload, digest, tag, sent);
    ghost var got := sent[midStart..midStart + len];
    assert got == coded && Pad(s, 0, got) == payload;
    e2 := GcmWork(s, f, Decrypt, mid, midStart, dst, dstStart, len, aad2, digest, aadSegs2, in2, out2, AadOf(aad2, sent), got);
    assert dst[..] == Splice(if mid == dst then sent else dst0, dstStart, Pad(s, 0, got));
  }
}
