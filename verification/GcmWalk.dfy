/** The streaming form of `AesGcmCrypt_1`: additional data in one piece, then the text step by step
    as a kernel walk maps it, gives flat GCM of the request. */
module GcmWalk {
  import opened Common
  import opened Cursors
  import opened Bytes
  import opened BlockModes
  import opened CbcBuffers
  import G = GcmCursor
  import A = AeadGlue

  /** The fallible calls: set-up errors, the library calls, mapping or copying the additional
      data, and the error the walk returns on reaching an offset. */
  datatype WalkEnv = WalkEnv(setup: A.Env, faults: G.GcmFaults, mapErr: int, mallocOk: bool, walk: nat -> int)

  ghost predicate NoWalkFault(env: WalkEnv) {
    && env.setup.walkErr == 0 && env.setup.keyErr == 0
    && G.NoGcmFault(env.faults) && env.mapErr == 0 && env.mallocOk
    && forall done: nat :: env.walk(done) == 0
  }

  /** The walk over the text. */
  method WalkText(gcm: G.Gcm, dir: Direction, src: array<bv8>, dst: array<bv8>, start: nat, len: nat, walk: Walk, env: WalkEnv) returns (err: int)
    requires start + len <= src.Length && start + len <= dst.Length && gcm.text == [] && Maps(walk, len)
    modifies gcm, dst
    ensures gcm.aad == old(gcm.aad)
    ensures NoWalkFault(env) && gcm.fails == env.faults.update ==> err == 0
    ensures err == 0 ==> gcm.text == G.Coded(gcm.s, dir, old(src[..])[start..start + len])
    ensures err == 0 ==> dst[..] == Splice(old(dst[..]), start, G.Pad(gcm.s, 0, old(src[..])[start..start + len]))
    ensures Outside(old(dst[..]), dst[..], start, len)
  {
    ghost var dst0 := dst[..];
    ghost var payload := src[..][start..start + len];
    var done: nat := 0;
    G.FedNothing(gcm.s, dir, payload, dst0, start);
    UnreadStart(src[..], start, len);
    while done < len
      invariant done <= len && gcm.aad == old(gcm.aad)
      invariant G.Fed(gcm.s, dir, payload, done, gcm.text, dst0, start, dst[..])
      invariant Unread(src[..], payload, start, done)
    {
      var n := walk(done);
      var ok := G.FeedChunk(gcm, dir, src, start + done, dst, start + done, n, env.faults.junk, payload, done, start, dst0, start);
      if !ok {
        return -EINVAL;
      }
      done := done + n;
      if env.walk(done) != 0 {
        G.FedOutside(gcm.s, dir, payload, done, gcm.text, dst0, start, dst[..]);
        return env.walk(done);
      }
    }
    assert payload[..len] == payload;
    G.FedOutside(gcm.s, dir, payload, done, gcm.text, dst0, start, dst[..]);
    return 0;
  }

  predicate IsGcm(r: A.Req) { r.kind.Gcm? || r.kind.Rfc4106? }

  function Dir(r: A.Req): Direction {
    if r.decrypt then Decrypt else Encrypt
  }

  /** The tag of the request's source, cut to the tag size. */
  function TagOf(s: G.Session, r: A.Req, source: seq<bv8>): (t: seq<bv8>)
    requires A.Ready(r) && |source| >= A.Total(r)
  {
    s.tag(source[..A.AadLen(r)], G.Coded(s, Dir(r), source[r.assoclen..r.assoclen + A.TextLen(r)]))[..r.authsize]
  }

  /** What the request makes of its source: the text under the key stream and, when encrypting, the tag. */
  function Made(s: G.Session, r: A.Req, source: seq<bv8>): (out: seq<bv8>)
    requires A.Ready(r) && |source| >= A.Total(r)
    ensures |out| == A.OutLen(r)
  {
    var text := G.Pad(s, 0, source[r.assoclen..r.assoclen + A.TextLen(r)]);
    if r.decrypt then text else text + TagOf(s, r, source)
  }

  /** The tag that came with the source is the right one. */
  predicate Authentic(s: G.Session, r: A.Req, source: seq<bv8>)
    requires A.Ready(r) && |source| >= A.Total(r)
  {
    r.decrypt ==> source[r.assoclen + A.TextLen(r)..A.Total(r)] == TagOf(s, r, source)
  }

  /** The library's stream: additional data, text, and the tag at the end. */
  method Stream(s: G.Session, r: A.Req, src: array<bv8>, dst: array<bv8>, walk: Walk, env: WalkEnv) returns (err: int, tag: seq<bv8>)
    requires A.Ready(r) && A.Total(r) <= src.Length && r.assoclen + A.TextLen(r) <= dst.Length && Maps(walk, A.TextLen(r))
    modifies dst
    ensures NoWalkFault(env) ==> err == 0
    ensures err == 0 ==> tag == TagOf(s, r, old(src[..]))
    ensures err == 0 ==> dst[..] == Splice(old(dst[..]), r.assoclen, G.Pad(s, 0, old(src[..])[r.assoclen..r.assoclen + A.TextLen(r)]))
    ensures Outside(old(dst[..]), dst[..], r.assoclen, A.TextLen(r))
  {
    tag := [];
    ghost var source := src[..];
    var gcm := new G.Gcm(s, env.faults.update);
    var ok := gcm.UpdateAad(src[..][..A.AadLen(r)]);
    if !ok {
      return -EINVAL, [];
    }
    assert gcm.aad == source[..A.AadLen(r)];
    err := WalkText(gcm, Dir(r), src, dst, r.assoclen, A.TextLen(r), walk, env);
    if err == 0 && env.faults.final {
      err := -EINVAL;
    }
    if err == 0 {
      tag := s.tag(gcm.aad, gcm.text)[..r.authsize];
    }
  }

  /** A request that was not refused.  `headLen` is the length of the source's first entry. */
  method Handle(s: G.Session, r: A.Req, src: array<bv8>, dst: array<bv8>, headLen: nat, walk: Walk, env: WalkEnv) returns (err: int)
    requires A.Ready(r) && A.Total(r) <= src.Length && r.assoclen + A.OutLen(r) <= dst.Length && Maps(walk, A.TextLen(r))
    modifies dst
    ensures NoWalkFault(env) ==> err == if Authentic(s, r, old(src[..])) then 0 else -A.EBADMSG
    ensures err == 0 || NoWalkFault(env) ==> dst[..] == Splice(old(dst[..]), r.assoclen, Made(s, r, old(src[..])))
    ensures err == 0 ==> Authentic(s, r, old(src[..]))
    ensures Outside(old(dst[..]), dst[..], r.assoclen, A.OutLen(r))
  {
    var textLen, aadLen := A.TextLen(r), A.AadLen(r);
    var authTag := if r.decrypt then src[..][r.assoclen + textLen..A.Total(r)] else [];
    if env.faults.initial {
      return -EINVAL;
    }
    if headLen >= aadLen && headLen > 0 {
      if env.mapErr != 0 {
        return env.mapErr;
      }
    } else if !env.mallocOk {
      return -ENOMEM;
    }
    ghost var source, dst0 := src[..], dst[..];
    var tag;
    err, tag := Stream(s, r, src, dst, walk, env);
    if err != 0 {
      return;
    }
    if r.decrypt {
      err := if authTag == tag then 0 else -A.EBADMSG;
    } else {
      AppendTag(s, r, dst, tag, source, dst0);
    }
  }

  /** The tag behind the text. */
  method AppendTag(ghost s: G.Session, r: A.Req, dst: array<bv8>, tag: seq<bv8>, ghost source: seq<bv8>, ghost dst0: seq<bv8>)
    requires A.Ready(r) && !r.decrypt && |source| >= A.Total(r) && r.assoclen + A.OutLen(r) <= |dst0| == dst.Length
    requires tag == TagOf(s, r, source)
    requires dst[..] == Splice(dst0, r.assoclen, G.Pad(s, 0, source[r.assoclen..r.assoclen + A.TextLen(r)]))
    modifies dst
    ensures dst[..] == Splice(dst0, r.assoclen, Made(s, r, source))
  {
    var at: nat := r.assoclen + A.TextLen(r);
    SpliceAppend(dst0, r.assoclen, G.Pad(s, 0, source[r.assoclen..at]), tag);
    WriteAt(dst, at, tag);
  }

  /** For every walk, separate or in place: flat GCM stands at the text position of the destination,
      no other byte changes, and a decryption without failures reports a bad message
      exactly when the tag is wrong. */
  method GcmRequest(sessions: seq<byte> -> G.Session, r: A.Req, src: array<bv8>, dst: array<bv8>, headLen: nat, walk: Walk, env: WalkEnv)
      returns (err: int)
    requires A.SizesFit(r) && IsGcm(r)
    requires A.Ready(r) ==> A.Total(r) <= src.Length && r.assoclen + A.OutLen(r) <= dst.Length && Maps(walk, A.TextLen(r))
    modifies dst
    ensures A.Refusal(r, env.setup) != 0 ==> err == A.Refusal(r, env.setup) && dst[..] == old(dst[..])
    ensures A.Refusal(r, env.setup) == 0 && NoWalkFault(env) ==>
              err == if Authentic(sessions(A.Nonce(r).value), r, old(src[..])) then 0 else -A.EBADMSG
    ensures A.Refusal(r, env.setup) == 0 && (err == 0 || NoWalkFault(env)) ==>
              dst[..] == Splice(old(dst[..]), r.assoclen, Made(sessions(A.Nonce(r).value), r, old(src[..])))
    ensures A.Refusal(r, env.setup) == 0 && err == 0 ==> Authentic(sessions(A.Nonce(r).value), r, old(src[..]))
    ensures A.Refusal(r, env.setup) == 0 ==> Outside(old(dst[..]), dst[..], r.assoclen, A.OutLen(r))
  {
    err := A.Refusal(r, env.setup);
    if err == 0 {
      err := Handle(sessions(A.Nonce(r).value), r, src, dst, headLen, walk, env);
    }
  }

  /** What a request makes, with the bytes spelled out: each text byte under its byte of the key
      stream, and the tag over the additional data proper and the ciphertext. */
  lemma {:induction false} MadeMeans(s: G.Session, r: A.Req, source: seq<bv8>, aad: seq<bv8>, cipher: seq<bv8>)
    requires A.Ready(r) && IsGcm(r) && |source| >= A.Total(r)
    requires aad == source[..if r.kind.Rfc4106? then r.assoclen - 8 else r.assoclen]
    requires |cipher| == (if r.decrypt then r.cryptlen - r.authsize else r.cryptlen)
    requires forall i :: 0 <= i < |cipher| ==> cipher[i] == if r.decrypt then source[r.assoclen + i] else source[r.assoclen + i] ^ s.pad(i)
    ensures forall i :: 0 <= i < |cipher| ==> Made(s, r, source)[i] == source[r.assoclen + i] ^ s.pad(i)
    ensures !r.decrypt ==> Made(s, r, source)[r.cryptlen..] == s.tag(aad, cipher)[..r.authsize]
    ensures r.decrypt ==> (Authentic(s, r, source) <==> source[r.assoclen + |cipher|..r.assoclen + r.cryptlen] == s.tag(aad, cipher)[..r.authsize])
  {
    var text := source[r.assoclen..r.assoclen + A.TextLen(r)];
    assert cipher == G.Coded(s, Dir(r), text);
    assert forall i :: 0 <= i < |text| ==> G.Pad(s, 0, text)[i] == source[r.assoclen + i] ^ s.pad(i);
  }

  /** Decrypting what encrypting made returns the text, and is authentic exactly when the
      additional data now in front has the tag of what it was encrypted with. */
  lemma {:induction false} OpenMade(s: G.Session, r: A.Req, source: seq<bv8>, t: seq<bv8>, made: seq<bv8>)
    requires A.Ready(r) && !r.decrypt && A.Ready(A.Reversal(r)) && |source| >= A.Total(r) && |t| >= A.Total(A.Reversal(r))
    requires made == Made(s, r, source) && t[r.assoclen..r.assoclen + |made|] == made
    ensures Made(s, A.Reversal(r), t) == source[r.assoclen..A.Total(r)]
    ensures Authentic(s, A.Reversal(r), t) <==> SameGcmTag(s, r, source, t)
  {
    var text := source[r.assoclen..r.assoclen + A.TextLen(r)];
    var c, g := G.Pad(s, 0, text), TagOf(s, r, source);
    Halves(t, r.assoclen, c, g);
    G.PadTwice(s, 0, text);
  }

  lemma {:induction false} Halves(t: seq<bv8>, at: nat, c: seq<bv8>, g: seq<bv8>)
    requires at + |c| + |g| <= |t| && t[at..at + |c + g|] == c + g
    ensures t[at..at + |c|] == c && t[at + |c|..at + |c| + |g|] == g
  {
    var u := t[at..at + |c + g|];
    assert t[at..at + |c|] == u[..|c|];
    assert t[at + |c|..at + |c| + |g|] == u[|c|..];
  }

  predicate SameGcmTag(s: G.Session, r: A.Req, source: seq<bv8>, t: seq<bv8>)
    requires A.Ready(r) && !r.decrypt && |source| >= A.Total(r) && |t| >= r.assoclen
  {
    var coded := G.Pad(s, 0, source[r.assoclen..A.Total(r)]);
    s.tag(t[..A.AadLen(r)], coded)[..r.authsize] == s.tag(source[..A.AadLen(r)], coded)[..r.authsize]
  }

  lemma {:induction false} OpenSent(s: G.Session, r: A.Req, source: seq<bv8>, mid: seq<bv8>, t: seq<bv8>)
    requires A.Ready(r) && !r.decrypt && A.Ready(A.Reversal(r)) && |source| >= A.Total(r) && |mid| >= A.Total(A.Reversal(r))
    requires t == Splice(mid, r.assoclen, Made(s, r, source))
    ensures Made(s, A.Reversal(r), t) == source[r.assoclen..A.Total(r)]
    ensures Authentic(s, A.Reversal(r), t) <==> SameGcmTag(s, r, source, mid)
  {
    var made := Made(s, r, source);
    SpliceReads(mid, r.assoclen, made);
    OpenMade(s, r, source, t, made);
    assert t[..A.AadLen(r)] == mid[..A.AadLen(r)];
  }

  /** The tag tells the two pieces of additional data apart, if they differ. */
  predicate GcmToldApart(s: G.Session, r: A.Req, coded: seq<bv8>, x: seq<bv8>, y: seq<bv8>)
    requires r.authsize <= 16
  {
    s.tag(x, coded)[..r.authsize] == s.tag(y, coded)[..r.authsize] ==> x == y
  }

  /** Encrypting and decrypting under any two walks, from one buffer into a second and on into a
      third, any of which may be the same one: the text comes back. It is accepted unless the
      second buffer held other additional data, which this form does not copy over, and
      then refused as long as the tag tells the two apart. */
  method GcmWalkThereAndBack(sessions: seq<byte> -> G.Session, r: A.Req, src: array<bv8>, mid: array<bv8>, dst: array<bv8>,
                             head1: nat, head2: nat, walk1: Walk, walk2: Walk, env: WalkEnv) returns (sealed: int, opening: int)
    requires A.Ready(r) && IsGcm(r) && !r.decrypt && A.Ready(A.Reversal(r)) && NoWalkFault(env)
    requires A.Total(r) <= src.Length && A.Total(r) + r.authsize <= mid.Length && A.Total(r) <= dst.Length
    requires Maps(walk1, r.cryptlen) && Maps(walk2, r.cryptlen)
    modifies mid, dst
    ensures sealed == 0
    ensures opening == if SameGcmTag(sessions(A.Nonce(r).value), r, old(src[..]), old(mid[..])) then 0 else -A.EBADMSG
    ensures old(mid[..])[..A.AadLen(r)] == old(src[..])[..A.AadLen(r)] ==> opening == 0
    ensures var s := sessions(A.Nonce(r).value);
            GcmToldApart(s, r, G.Pad(s, 0, old(src[..])[r.assoclen..A.Total(r)]), old(mid[..])[..A.AadLen(r)], old(src[..])[..A.AadLen(r)]) ==>
              (opening == 0 <==> old(mid[..])[..A.AadLen(r)] == old(src[..])[..A.AadLen(r)])
    ensures var sent := Splice(old(mid[..]), r.assoclen, Made(sessions(A.Nonce(r).value), r, old(src[..])));
            && dst[..] == Splice(if mid == dst then sent else old(dst[..]), r.assoclen, old(src[..])[r.assoclen..A.Total(r)])
            && (mid != dst ==> mid[..] == sent)
  {
    ghost var source, mid0 := src[..], mid[..];
    var back := A.Reversal(r);
    ghost var s := sessions(A.Nonce(r).value);
    sealed := GcmRequest(sessions, r, src, mid, head1, walk1, env);
    ghost var t := mid[..];
    OpenSent(s, r, source, mid0, t);
    opening := GcmRequest(sessions, back, mid, dst, head2, walk2, env);
  }

  /** A failing input: one byte of additional data, no text, and a separate destination that holds
      another byte where the additional data goes. */
  method ForeignAdditionalData(sessions: seq<byte> -> G.Session, iv: seq<byte>, authsize: nat, src: array<bv8>, mid: array<bv8>, walk: Walk, env: WalkEnv)
      returns (sealed: int, opening: int)
    requires A.GcmTagSize(authsize) && |iv| == 12 && NoWalkFault(env)
    requires src.Length >= 1 && mid.Length >= 1 + authsize
    requires sessions(iv).tag([mid[0]], [])[..authsize] != sessions(iv).tag([src[0]], [])[..authsize]
    modifies mid
    ensures sealed == 0 && opening == -A.EBADMSG
  {
    var r := A.Req(A.Gcm, false, 1, 0, authsize, iv, []);
    ghost var source, mid0 := src[..], mid[..];
    assert source[..1] == [src[0]] && mid0[..1] == [mid[0]];
    assert G.Pad(sessions(iv), 0, source[1..1]) == [];
    assert !SameGcmTag(sessions(iv), r, source, mid0);
    sealed, opening := GcmWalkThereAndBack(sessions, r, src, mid, mid, 1, 1 + authsize, walk, walk, env);
  }
}
