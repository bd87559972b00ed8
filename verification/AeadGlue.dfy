/** The GCM and CCM request handlers: nonce layouts, the mapped and the bounce path, and the
    round trip through any scatterlists. */
module AeadGlue {
  import opened Common
  import opened Bytes
  import opened Scatter

  const EBADMSG := 74

  /** The four algorithms that share the handler. */
  datatype Kind = Gcm | Rfc4106 | Ccm | Rfc4309

  /** The library's one-shot mode under the transform's key. The tag covers the nonce, the
      associated data and the text. */
  datatype Aead = Aead(cipher: (seq<byte>, seq<byte>) -> seq<byte>,
                       plain: (seq<byte>, seq<byte>) -> seq<byte>,
                       tag: (seq<byte>, seq<byte>, seq<byte>, nat) -> seq<byte>)

  ghost predicate Lawful(a: Aead) {
    && (forall n, t :: |a.cipher(n, t)| == |t| && a.plain(n, a.cipher(n, t)) == t)
    && (forall n, t :: |a.plain(n, t)| == |t|)
    && (forall n, x, t, k :: |a.tag(n, x, t, k)| == k)
  }

  /** A request, with the transform's salt and tag size. */
  datatype Req = Req(kind: Kind, decrypt: bool, assoclen: nat, cryptlen: nat, authsize: nat, iv: seq<byte>, salt: seq<byte>)

  /** The outcome of the fallible calls: error codes, zero for success, and the text that a
      failed library call leaves in the output. */
  datatype Env = Env(walkErr: int, keyErr: int, mapErr: int, mallocOk: bool, cipherOk: bool, junk: seq<byte>)

  predicate SizesFit(r: Req) {
    && r.assoclen < TWO32 && r.cryptlen < TWO32 && r.authsize <= 16
    && match r.kind
       case Gcm => |r.iv| == 12
       case Ccm => |r.iv| == 16
       case Rfc4106 => |r.iv| == 8 && |r.salt| == 4
       case Rfc4309 => |r.iv| == 8 && |r.salt| == 3
  }

  predicate IsIpsec(k: Kind) { k.Rfc4106? || k.Rfc4309? }

  /** The nonce, or nothing for a request that the handler refuses. */
  function Nonce(r: Req): (n: Option<seq<byte>>)
    requires SizesFit(r)
  {
    match r.kind
    case Gcm => Some(r.iv)
    case Ccm =>
      var first: int := r.iv[0];
      if 2 <= first + 1 <= 8 then Some(r.iv[1..15 - first]) else None
    case _ => if r.assoclen == 16 || r.assoclen == 20 then Some(r.salt + r.iv) else None
  }

  /** The mode's nonce size: 12 for GCM; for CCM the 15 - L of section 2 of RFC 3610, which is 11 for RFC 4309. */
  lemma {:induction false} NonceSize(r: Req)
    requires SizesFit(r) && Nonce(r).Some?
    ensures var k := |Nonce(r).value|;
      if r.kind.Gcm? || r.kind.Rfc4106? then k == 12 else if r.kind.Rfc4309? then k == 11 else 7 <= k <= 13 && k == 14 - r.iv[0]
  {
  }

  /** Two requests under one transform share a nonce exactly when their vectors agree; for
      generic CCM, when the length byte and the nonce bytes agree, whatever the scratch bytes hold. */
  lemma {:induction false} NonceReuse(r: Req, s: Req)
    requires SizesFit(r) && SizesFit(s) && Nonce(r).Some? && Nonce(s).Some?
    requires r.kind == s.kind && r.salt == s.salt
    ensures Nonce(r) == Nonce(s) <==> if r.kind.Ccm? then r.iv[..15 - r.iv[0]] == s.iv[..15 - r.iv[0]] else r.iv == s.iv
  {
    if IsIpsec(r.kind) {
      assert (r.salt + r.iv)[|r.salt|..] == r.iv;
      assert (s.salt + s.iv)[|s.salt|..] == s.iv;
    } else if r.kind.Ccm? {
      var k := 15 - r.iv[0];
      assert r.iv[..k] == [r.iv[0]] + r.iv[1..k];
      assert s.iv[..k] == [s.iv[0]] + s.iv[1..k];
    }
  }

  /** Which requests have a nonce, and which bytes it is made of: the salt and then the vector; for
      generic CCM, the bytes behind the length byte. */
  lemma {:induction false} NonceBytes(r: Req)
    requires SizesFit(r)
    ensures r.kind.Gcm? ==> Nonce(r) == Some(r.iv)
    ensures r.kind.Rfc4106? || r.kind.Rfc4309? ==> (Nonce(r).Some? <==> r.assoclen == 16 || r.assoclen == 20)
    ensures (r.kind.Rfc4106? || r.kind.Rfc4309?) && Nonce(r).Some? ==>
              |Nonce(r).value| == |r.salt| + |r.iv| && Nonce(r).value[..|r.salt|] == r.salt && Nonce(r).value[|r.salt|..] == r.iv
    ensures r.kind.Ccm? ==> (Nonce(r).Some? <==> 1 <= r.iv[0] <= 7)
    ensures r.kind.Ccm? && Nonce(r).Some? ==>
              |Nonce(r).value| == 14 - r.iv[0] && forall i :: 0 <= i < |Nonce(r).value| ==> Nonce(r).value[i] == r.iv[1 + i]
  {
  }

  /** The associated data proper: the security-payload forms leave out the inline vector. */
  function AadLen(r: Req): (n: nat)
    requires Ready(r)
  {
    if IsIpsec(r.kind) then r.assoclen - 8 else r.assoclen
  }

  function Total(r: Req): nat { r.assoclen + r.cryptlen }

  /** The request passes the checks that come before any text is touched. */
  predicate Ready(r: Req) {
    SizesFit(r) && Total(r) < TWO32 && (r.decrypt ==> r.authsize <= r.cryptlen) && Nonce(r).Some?
  }

  function TextLen(r: Req): nat
    requires Ready(r)
  {
    if r.decrypt then r.cryptlen - r.authsize else r.cryptlen
  }

  /** Bytes written from the text position on. */
  function OutLen(r: Req): nat
    requires Ready(r)
  {
    if r.decrypt then r.cryptlen - r.authsize else r.cryptlen + r.authsize
  }

  /** The error for a request that is not `Ready` or whose set-up fails; zero otherwise. */
  function Refusal(r: Req, env: Env): (err: int)
    requires SizesFit(r)
    ensures err == 0 ==> Ready(r)
    ensures Ready(r) && env.walkErr == 0 && env.keyErr == 0 ==> err == 0
  {
    if Total(r) >= TWO32 then -EOVERFLOW
    else if r.decrypt && r.cryptlen < r.authsize then -EINVAL
    else if env.walkErr != 0 then (if r.kind.Ccm? || r.kind.Rfc4309? then -EINVAL else env.walkErr)
    else if env.keyErr != 0 then env.keyErr
    else if Nonce(r).None? then -EINVAL
    else 0
  }

  /** The error of each refusal, in the order of the checks. */
  lemma {:induction false} RefusalCodes(r: Req, env: Env)
    requires SizesFit(r)
    ensures r.assoclen + r.cryptlen >= TWO32 ==> Refusal(r, env) == -EOVERFLOW
    ensures r.assoclen + r.cryptlen < TWO32 && r.decrypt && r.cryptlen < r.authsize ==> Refusal(r, env) == -EINVAL
    ensures r.assoclen + r.cryptlen < TWO32 && (r.decrypt ==> r.authsize <= r.cryptlen) ==>
              && (env.walkErr != 0 && (r.kind.Gcm? || r.kind.Rfc4106?) ==> Refusal(r, env) == env.walkErr)
              && (env.walkErr != 0 && (r.kind.Ccm? || r.kind.Rfc4309?) ==> Refusal(r, env) == -EINVAL)
              && (env.walkErr == 0 && env.keyErr != 0 ==> Refusal(r, env) == env.keyErr)
              && (env.walkErr == 0 && env.keyErr == 0 && r.kind.Ccm? && !(1 <= r.iv[0] <= 7) ==> Refusal(r, env) == -EINVAL)
              && (env.walkErr == 0 && env.keyErr == 0 && (r.kind.Rfc4106? || r.kind.Rfc4309?) && r.assoclen != 16 && r.assoclen != 20 ==>
                    Refusal(r, env) == -EINVAL)
  {
  }

  /** The flat meaning of a request on the source bytes: what must stand at the text position of
      the destination, or nothing if the tag does not match. */
  function Result(a: Aead, r: Req, s: seq<byte>): (out: Option<seq<byte>>)
    requires Ready(r) && |s| == Total(r)
  {
    var nonce, aad := Nonce(r).value, s[..AadLen(r)];
    var text := s[r.assoclen..r.assoclen + TextLen(r)];
    if r.decrypt then
      var p := a.plain(nonce, text);
      if a.tag(nonce, aad, p, r.authsize) == s[r.assoclen + TextLen(r)..] then Some(p) else None
    else
      Some(a.cipher(nonce, text) + a.tag(nonce, aad, text, r.authsize))
  }

  lemma {:induction false} ResultLen(a: Aead, r: Req, s: seq<byte>)
    requires Lawful(a) && Ready(r) && |s| == Total(r)
    ensures Result(a, r, s).Some? ==> |Result(a, r, s).value| == OutLen(r)
    ensures !r.decrypt ==> Result(a, r, s).Some?
  {
  }

  /** Decrypting what encrypting produced gives the text back, exactly when the associated data
      now in front of it has the tag of the associated data it was encrypted with. */
  lemma {:induction false} OpenSealed(a: Aead, r: Req, back: Req, s: seq<byte>, t: seq<byte>)
    requires Lawful(a) && Ready(r) && !r.decrypt && |s| == Total(r)
    requires back == Reversal(r) && Ready(back)
    requires |t| == Total(back) && t[r.assoclen..] == Result(a, r, s).value
    ensures Result(a, back, t) == if SameTag(a, r, s, t) then Some(s[r.assoclen..]) else None
  {
    var nonce, aad, text := Nonce(r).value, s[..AadLen(r)], s[r.assoclen..r.assoclen + TextLen(r)];
    var c, g := a.cipher(nonce, text), a.tag(nonce, aad, text, r.authsize);
    ToEnd(s, r.assoclen, r.assoclen + TextLen(r));
    TwoParts(t, r.assoclen, c, g);
  }

  lemma {:induction false} ToEnd(s: seq<byte>, lo: nat, hi: nat)
    requires lo <= hi == |s|
    ensures s[lo..hi] == s[lo..]
  {
    assert s[..hi] == s;
  }

  lemma {:induction false} TwoParts(t: seq<byte>, at: nat, c: seq<byte>, g: seq<byte>)
    requires at <= |t| && t[at..] == c + g
    ensures t[at..at + |c|] == c && t[at + |c|..] == g
  {
    assert t[at..at + |c|] == t[at..][..|c|];
    assert t[at + |c|..] == t[at..][|c|..];
  }

  /** The request that undoes `r`: the tag now counts as part of the text. */
  function Reversal(r: Req): Req {
    r.(decrypt := true, cryptlen := r.cryptlen + r.authsize)
  }

  predicate SameTag(a: Aead, r: Req, s: seq<byte>, t: seq<byte>)
    requires Ready(r) && !r.decrypt && |s| == Total(r) && |t| >= r.assoclen
  {
    var nonce, text := Nonce(r).value, s[r.assoclen..];
    a.tag(nonce, t[..AadLen(r)], text, r.authsize) == a.tag(nonce, s[..AadLen(r)], text, r.authsize)
  }

  /** Both lists start with one entry that holds the whole request. */
  predicate Mapped(r: Req, src: seq<Seg>, dst: seq<Seg>) {
    Total(r) <= HeadLen(src) && Total(r) <= HeadLen(dst)
  }

  /** The lists lie in memory, are long enough, and are the same list or share no address. */
  ghost predicate Placed(r: Req, src: seq<Seg>, dst: seq<Seg>, size: nat)
  {
    && InMemory(Addresses(src), size) && InMemory(Addresses(dst), size)
    && Distinct(Addresses(src)) && Distinct(Addresses(dst))
    && (src == dst || Apart(Addresses(src), Addresses(dst)))
    && Total(r) <= |Addresses(src)|
    && r.assoclen + (if r.decrypt then r.cryptlen - r.authsize else r.cryptlen + r.authsize) <= |Addresses(dst)|
    && HeadAt(src) + HeadLen(src) <= size && HeadAt(dst) + HeadLen(dst) <= size
  }

  /** The library's answer on the flat request. */
  function Verdict(a: Aead, r: Req, s: seq<byte>, ok: bool): int
    requires Ready(r) && |s| == Total(r)
  {
    if !ok then -EINVAL else if Result(a, r, s).None? then -EBADMSG else 0
  }

  /** The one-shot library call, on the pieces of the flat request `s`. */
  method CallLibrary(a: Aead, r: Req, aad: seq<byte>, text: seq<byte>, authTag: seq<byte>, ok: bool, ghost s: seq<byte>)
      returns (err: int, out: seq<byte>, tag: seq<byte>)
    requires Lawful(a) && Ready(r) && |s| == Total(r)
    requires aad == s[..AadLen(r)] && text == s[r.assoclen..r.assoclen + TextLen(r)]
    requires r.decrypt ==> authTag == s[r.assoclen + TextLen(r)..]
    ensures err == Verdict(a, r, s, ok)
    ensures err == 0 ==> |out| == TextLen(r) && Result(a, r, s) == Some(out + tag) && |out + tag| == OutLen(r)
    ensures r.decrypt ==> tag == []
  {
    err, out, tag := 0, [], [];
    if !ok { return -EINVAL, [], []; }
    var nonce := Nonce(r).value;
    if r.decrypt {
      out := a.plain(nonce, text);
      if a.tag(nonce, aad, out, r.authsize) != authTag { return -EBADMSG, [], []; }
      assert out + tag == out;
    } else {
      out, tag := a.cipher(nonce, text), a.tag(nonce, aad, text, r.authsize);
    }
  }

  /** The three pieces of the source, read through the list. */
  lemma {:induction false} SourcePieces(r: Req, mem: seq<byte>, addrs: seq<nat>, s: seq<byte>)
    requires Ready(r) && InMemory(addrs, |mem|) && Total(r) <= |addrs| && s == Gather(mem, addrs, 0, Total(r))
    ensures s[..AadLen(r)] == Gather(mem, addrs, 0, AadLen(r))
    ensures s[..r.assoclen] == Gather(mem, addrs, 0, r.assoclen)
    ensures s[r.assoclen..r.assoclen + TextLen(r)] == Gather(mem, addrs, r.assoclen, r.assoclen + TextLen(r))
    ensures s[r.assoclen + TextLen(r)..] == Gather(mem, addrs, r.assoclen + TextLen(r), Total(r))
  {
    GatherSlice(mem, addrs, 0, AadLen(r), Total(r), s);
    GatherSlice(mem, addrs, 0, r.assoclen, Total(r), s);
    GatherSlice(mem, addrs, r.assoclen, r.assoclen + TextLen(r), Total(r), s);
    GatherSlice(mem, addrs, r.assoclen + TextLen(r), Total(r), Total(r), s);
  }

  /** A store of `bytes` in mapped memory. */
  method StoreAt(mem: array<byte>, at: nat, bytes: seq<byte>, ghost was: seq<byte>) returns (ghost now: seq<byte>)
    requires at + |bytes| <= mem.Length && was == mem[..]
    modifies mem
    ensures now == mem[..] && now == Splice(was, at, bytes)
  {
    forall i | 0 <= i < |bytes| { mem[at + i] := bytes[i]; }
    now := mem[..];
  }

  /** The library call on the mapped source. */
  method CallOnMapped(mem: array<byte>, a: Aead, r: Req, src: seq<Seg>, authTag: seq<byte>, ok: bool, ghost was: seq<byte>, ghost s: seq<byte>)
      returns (err: int, out: seq<byte>, tag: seq<byte>)
    requires Lawful(a) && Ready(r) && InMemory(Addresses(src), mem.Length) && was == mem[..]
    requires Total(r) <= HeadLen(src) <= |Addresses(src)| && HeadAt(src) + HeadLen(src) <= mem.Length
    requires s == Gather(was, Addresses(src), 0, Total(r)) && (r.decrypt ==> authTag == s[r.assoclen + TextLen(r)..])
    ensures err == Verdict(a, r, s, ok)
    ensures err == 0 ==> |out| == TextLen(r) && Result(a, r, s) == Some(out + tag) && |out + tag| == OutLen(r)
    ensures r.decrypt ==> tag == []
  {
    SourcePieces(r, was, Addresses(src), s);
    var assoc: nat := HeadAt(src);
    var assocEnd: nat, inText: nat := assoc + AadLen(r), assoc + r.assoclen;
    var textEnd: nat := inText + TextLen(r);
    GatherHead(was, src, Addresses(src), 0, AadLen(r), assoc, assocEnd);
    GatherHead(was, src, Addresses(src), r.assoclen, r.assoclen + TextLen(r), inText, textEnd);
    var aad := mem[..][assoc..assocEnd];
    var text := mem[..][inText..textEnd];
    err, out, tag := CallLibrary(a, r, aad, text, authTag, ok, s);
  }

  /** The text into the mapped destination, and the tag behind it through the list. */
  method DeliverMapped(mem: array<byte>, dst: seq<Seg>, lo: nat, out: seq<byte>, tag: seq<byte>, ghost was: seq<byte>) returns (ghost now: seq<byte>)
    requires InMemory(Addresses(dst), mem.Length) && Distinct(Addresses(dst)) && was == mem[..]
    requires lo + |out| <= HeadLen(dst) && lo + |out| + |tag| <= |Addresses(dst)| && HeadAt(dst) + HeadLen(dst) <= mem.Length
    modifies mem
    ensures now == mem[..] && Written(was, now, Addresses(dst), lo, out + tag)
  {
    ghost var to := Addresses(dst);
    WrittenHead(was, dst, to, lo, out);
    ghost var mid := StoreAt(mem, HeadAt(dst) + lo, out, was);
    now := CopyTo(mem, Addresses(dst), lo + |out|, tag, mid);
    WrittenAppend(was, mid, now, to, lo, lo + |out|, out, tag, out + tag);
  }

  /** Both lists are mapped: text goes straight from one to the other. A failed library call
      may leave anything in the destination's text, and nothing elsewhere. */
  method CryptMapped(mem: array<byte>, a: Aead, r: Req, src: seq<Seg>, dst: seq<Seg>, env: Env, authTag: seq<byte>,
                     ghost was: seq<byte>, ghost s: seq<byte>) returns (err: int, ghost left: seq<byte>, ghost now: seq<byte>)
    requires Lawful(a) && Ready(r) && Placed(r, src, dst, mem.Length) && Mapped(r, src, dst) && was == mem[..]
    requires s == Gather(was, Addresses(src), 0, Total(r)) && (r.decrypt ==> authTag == s[r.assoclen + TextLen(r)..])
    modifies mem
    ensures now == mem[..] && r.assoclen + |left| <= |Addresses(dst)| && Written(was, now, Addresses(dst), r.assoclen, left)
    ensures err == if env.mapErr != 0 then env.mapErr else Verdict(a, r, s, env.cipherOk)
    ensures if err == 0 then Result(a, r, s) == Some(left) else |left| <= TextLen(r)
  {
    now, left := was, [];
    if env.mapErr != 0 { return env.mapErr, left, now; }
    HeadAddresses(src);
    HeadAddresses(dst);
    var out, tag;
    err, out, tag := CallOnMapped(mem, a, r, src, authTag, env.cipherOk, was, s);
    if err != 0 {
      out, tag := if |env.junk| == TextLen(r) then env.junk else [], [];
    }
    left := out + tag;
    now := DeliverMapped(mem, dst, r.assoclen, out, tag, was);
  }

  lemma {:induction false} BouncePieces(r: Req, mem: seq<byte>, addrs: seq<nat>, s: seq<byte>, buf: seq<byte>)
    requires Ready(r) && InMemory(addrs, |mem|) && Total(r) <= |addrs|
    requires s == Gather(mem, addrs, 0, Total(r)) && buf == Gather(mem, addrs, 0, r.assoclen + TextLen(r))
    ensures buf[..AadLen(r)] == s[..AadLen(r)] && buf[..r.assoclen] == s[..r.assoclen]
    ensures buf[r.assoclen..] == s[r.assoclen..r.assoclen + TextLen(r)]
  {
    SourcePieces(r, mem, addrs, s);
    GatherSlice(mem, addrs, 0, AadLen(r), |buf|, buf);
    GatherSlice(mem, addrs, 0, r.assoclen, |buf|, buf);
    GatherSlice(mem, addrs, r.assoclen, |buf|, |buf|, buf);
  }

  /** The bounce buffer back through the list, and the tag behind it. */
  method DeliverBounced(mem: array<byte>, to: seq<nat>, assoc: seq<byte>, out: seq<byte>, tag: seq<byte>, ghost was: seq<byte>) returns (ghost now: seq<byte>)
    requires InMemory(to, mem.Length) && Distinct(to) && was == mem[..] && |assoc| + |out| + |tag| <= |to|
    modifies mem
    ensures now == mem[..] && Written(was, now, to, 0, assoc + (out + tag))
  {
    var buf := assoc + out;
    ghost var mid := CopyTo(mem, to, 0, buf, was);
    now := CopyTo(mem, to, |buf|, tag, mid);
    WrittenAppend(was, mid, now, to, 0, |buf|, buf, tag, assoc + (out + tag));
  }

  /** The bounce path: the source is copied out, worked on, and copied back in, associated
      data included. Nothing reaches the destination unless the library succeeds. */
  method CryptBounced(mem: array<byte>, a: Aead, r: Req, src: seq<Seg>, dst: seq<Seg>, env: Env, authTag: seq<byte>,
                      ghost was: seq<byte>, ghost s: seq<byte>) returns (err: int, ghost left: seq<byte>, ghost now: seq<byte>)
    requires Lawful(a) && Ready(r) && Placed(r, src, dst, mem.Length) && was == mem[..]
    requires s == Gather(was, Addresses(src), 0, Total(r)) && (r.decrypt ==> authTag == s[r.assoclen + TextLen(r)..])
    modifies mem
    ensures now == mem[..] && |left| <= |Addresses(dst)| && Written(was, now, Addresses(dst), 0, left)
    ensures err == if !env.mallocOk then -ENOMEM else Verdict(a, r, s, env.cipherOk)
    ensures if err == 0 then Result(a, r, s).Some? && left == s[..r.assoclen] + Result(a, r, s).value else left == []
  {
    now, left := was, [];
    if !env.mallocOk { return -ENOMEM, left, now; }
    var buf := Gather(mem[..], Addresses(src), 0, r.assoclen + TextLen(r));
    BouncePieces(r, was, Addresses(src), s, buf);
    var out, tag;
    err, out, tag := CallLibrary(a, r, buf[..AadLen(r)], buf[r.assoclen..], authTag, env.cipherOk, s);
    if err == 0 {
      left := s[..r.assoclen] + (out + tag);
      now := DeliverBounced(mem, Addresses(dst), buf[..r.assoclen], out, tag, was);
    }
  }

  /** The effect on memory of a request that was not refused, as an answer `err` allows it. */
  ghost predicate Effect(a: Aead, r: Req, src: seq<Seg>, dst: seq<Seg>, was: seq<byte>, now: seq<byte>, err: int)
    requires Ready(r) && Placed(r, src, dst, |was|) && Lawful(a)
  {
    var s, to := Gather(was, Addresses(src), 0, Total(r)), Addresses(dst);
    ResultLen(a, r, s);
    if err == 0 then
      && Result(a, r, s).Some?
      && if Mapped(r, src, dst) then Written(was, now, to, r.assoclen, Result(a, r, s).value)
         else Written(was, now, to, 0, s[..r.assoclen] + Result(a, r, s).value)
    else if Mapped(r, src, dst) then
      exists left :: r.assoclen + |left| <= |to| && |left| <= TextLen(r) && Written(was, now, to, r.assoclen, left)
    else now == was
  }

  lemma {:induction false} WrittenNothing(was: seq<byte>, now: seq<byte>, addrs: seq<nat>)
    requires InMemory(addrs, |was|) && Written(was, now, addrs, 0, [])
    ensures now == was
  {
    forall p | 0 <= p < |was| ensures now[p] == was[p] {
      if p in addrs {
        var i :| 0 <= i < |addrs| && addrs[i] == p;
      }
    }
  }

  /** The error of a request that was not refused. */
  ghost function Answer(a: Aead, r: Req, src: seq<Seg>, dst: seq<Seg>, was: seq<byte>, env: Env): int
    requires Ready(r) && Placed(r, src, dst, |was|)
  {
    if Mapped(r, src, dst) && env.mapErr != 0 then env.mapErr
    else if !Mapped(r, src, dst) && !env.mallocOk then -ENOMEM
    else Verdict(a, r, Gather(was, Addresses(src), 0, Total(r)), env.cipherOk)
  }

  /** The handler, `AesGcmCrypt_1` or `AesCcmCrypt_1`. */
  method Crypt(mem: array<byte>, a: Aead, r: Req, src: seq<Seg>, dst: seq<Seg>, env: Env) returns (err: int)
    requires Lawful(a) && SizesFit(r) && (Ready(r) ==> Placed(r, src, dst, mem.Length))
    modifies mem
    ensures Refusal(r, env) != 0 ==> err == Refusal(r, env) && mem[..] == old(mem[..])
    ensures Refusal(r, env) == 0 ==> Effect(a, r, src, dst, old(mem[..]), mem[..], err)
    ensures Refusal(r, env) == 0 ==> err == Answer(a, r, src, dst, old(mem[..]), env)
  {
    ghost var was := mem[..];
    err := Refusal(r, env);
    if err == 0 {
      ghost var s := Gather(was, Addresses(src), 0, Total(r));
      SourcePieces(r, was, Addresses(src), s);
      var authTag := [];
      if r.decrypt { authTag := Gather(mem[..], Addresses(src), r.assoclen + r.cryptlen - r.authsize, Total(r)); }
      ghost var left, now;
      if Mapped(r, src, dst) {
        err, left, now := CryptMapped(mem, a, r, src, dst, env, authTag, was, s);
      } else {
        err, left, now := CryptBounced(mem, a, r, src, dst, env, authTag, was, s);
        if err != 0 { WrittenNothing(was, now, Addresses(dst)); }
      }
    }
  }

  /** A write of text and tag alone, beside a write of associated data, text and tag. */
  lemma {:induction false} WritesAgree(was: seq<byte>, mapped: seq<byte>, bounced: seq<byte>, to: seq<nat>, assoc: seq<byte>, out: seq<byte>)
    requires InMemory(to, |was|) && |assoc| + |out| <= |to|
    requires Written(was, mapped, to, |assoc|, out) && Written(was, bounced, to, 0, assoc + out)
    ensures forall i :: |assoc| <= i < |to| ==> mapped[to[i]] == bounced[to[i]]
    ensures mapped == bounced <==> Gather(was, to, 0, |assoc|) == assoc
  {
    var held := Gather(was, to, 0, |assoc|);
    if held == assoc {
      forall i | 0 <= i < |to| ensures mapped[to[i]] == bounced[to[i]] {
        if i < |assoc| { assert held[i] == was[to[i]]; }
      }
      forall p | 0 <= p < |was| ensures mapped[p] == bounced[p] {
        if p in to {
          var i :| 0 <= i < |to| && to[i] == p;
        }
      }
    } else {
      var i :| 0 <= i < |assoc| && held[i] != assoc[i];
      assert mapped[to[i]] == was[to[i]] == held[i];
      assert bounced[to[i]] == assoc[i];
    }
  }

  /** The mapped and the bounce path leave the same text and tag. They leave the same memory
      exactly when the destination already held the associated data: the same addresses,
      listed once so that they are mapped and once so that they are bounced. */
  lemma {:induction false} PathsAgree(a: Aead, r: Req, src: seq<Seg>, dst: seq<Seg>, src': seq<Seg>, dst': seq<Seg>, was: seq<byte>, now: seq<byte>, now': seq<byte>)
    requires Lawful(a) && Ready(r) && Placed(r, src, dst, |was|) && Placed(r, src', dst', |was|) && |now| == |was| == |now'|
    requires Addresses(src) == Addresses(src') && Addresses(dst) == Addresses(dst')
    requires Mapped(r, src, dst) && !Mapped(r, src', dst')
    requires Effect(a, r, src, dst, was, now, 0) && Effect(a, r, src', dst', was, now', 0)
    ensures forall i :: r.assoclen <= i < |Addresses(dst)| ==> now[Addresses(dst)[i]] == now'[Addresses(dst)[i]]
    ensures now == now' <==> Gather(was, Addresses(dst), 0, r.assoclen) == Gather(was, Addresses(src), 0, r.assoclen)
  {
    var s := Gather(was, Addresses(src), 0, Total(r));
    ResultLen(a, r, s);
    SourcePieces(r, was, Addresses(src), s);
    WritesAgree(was, now, now', Addresses(dst), s[..r.assoclen], Result(a, r, s).value);
  }

  predicate NoFault(env: Env) {
    env.walkErr == 0 && env.keyErr == 0 && env.mapErr == 0 && env.mallocOk && env.cipherOk
  }

  /** A request that succeeds delivers its flat result, by either path. */
  lemma {:induction false} Delivered(a: Aead, r: Req, src: seq<Seg>, dst: seq<Seg>, was: seq<byte>, now: seq<byte>, s: seq<byte>)
    requires Lawful(a) && Ready(r) && Placed(r, src, dst, |was|) && |now| == |was|
    requires Effect(a, r, src, dst, was, now, 0) && s == Gather(was, Addresses(src), 0, Total(r))
    ensures Result(a, r, s).Some? && Gather(now, Addresses(dst), r.assoclen, r.assoclen + OutLen(r)) == Result(a, r, s).value
  {
    var to, out := Addresses(dst), Result(a, r, s).value;
    ResultLen(a, r, s);
    if Mapped(r, src, dst) {
      GatherWritten(was, now, to, r.assoclen, out);
    } else {
      GatherBehind(was, now, to, s[..r.assoclen], out, r.assoclen + OutLen(r));
    }
  }

  /** Text and tag do not depend on the lists: whatever the layouts and paths, equal source
      bytes give equal output. */
  lemma {:induction false} LayoutsAgree(a: Aead, r: Req, src: seq<Seg>, dst: seq<Seg>, was: seq<byte>, now: seq<byte>,
                     src': seq<Seg>, dst': seq<Seg>, was': seq<byte>, now': seq<byte>)
    requires Lawful(a) && Ready(r) && Placed(r, src, dst, |was|) && |now| == |was| && Placed(r, src', dst', |was'|) && |now'| == |was'|
    requires Effect(a, r, src, dst, was, now, 0) && Effect(a, r, src', dst', was', now', 0)
    requires Gather(was, Addresses(src), 0, Total(r)) == Gather(was', Addresses(src'), 0, Total(r))
    ensures Gather(now, Addresses(dst), r.assoclen, r.assoclen + OutLen(r)) == Gather(now', Addresses(dst'), r.assoclen, r.assoclen + OutLen(r))
  {
    var s := Gather(was, Addresses(src), 0, Total(r));
    Delivered(a, r, src, dst, was, now, s);
    Delivered(a, r, src', dst', was', now', s);
  }

  /** The associated bytes in front of the text after encrypting: the bounce path copies them
      over, the mapped path leaves what the destination held. */
  ghost function Front(r: Req, src: seq<Seg>, dst: seq<Seg>, was: seq<byte>): (f: seq<byte>)
    requires Ready(r) && Placed(r, src, dst, |was|)
    ensures |f| == r.assoclen
  {
    Gather(was, if Mapped(r, src, dst) then Addresses(dst) else Addresses(src), 0, r.assoclen)
  }

  lemma {:induction false} FrontKept(a: Aead, r: Req, src: seq<Seg>, dst: seq<Seg>, was: seq<byte>, now: seq<byte>, s: seq<byte>)
    requires Lawful(a) && Ready(r) && Placed(r, src, dst, |was|) && |now| == |was|
    requires Effect(a, r, src, dst, was, now, 0) && s == Gather(was, Addresses(src), 0, Total(r))
    ensures Gather(now, Addresses(dst), 0, r.assoclen) == Front(r, src, dst, was)
  {
    var to, out := Addresses(dst), Result(a, r, s).value;
    ResultLen(a, r, s);
    if Mapped(r, src, dst) {
      GatherWritten(was, now, to, r.assoclen, out);
    } else {
      SourcePieces(r, was, Addresses(src), s);
      GatherBehind(was, now, to, s[..r.assoclen], out, r.assoclen + OutLen(r));
    }
  }

  /** The destination after encrypting, read as the next request's source. */
  lemma {:induction false} SealedStream(a: Aead, r: Req, src: seq<Seg>, dst: seq<Seg>, was: seq<byte>, now: seq<byte>, s: seq<byte>, t: seq<byte>)
    requires Lawful(a) && Ready(r) && !r.decrypt && Placed(r, src, dst, |was|) && |now| == |was|
    requires Effect(a, r, src, dst, was, now, 0)
    requires s == Gather(was, Addresses(src), 0, Total(r)) && t == Gather(now, Addresses(dst), 0, Total(r) + r.authsize)
    ensures t[r.assoclen..] == Result(a, r, s).value
    ensures t[..r.assoclen] == Front(r, src, dst, was)
  {
    Delivered(a, r, src, dst, was, now, s);
    FrontKept(a, r, src, dst, was, now, s);
    GatherSlice(now, Addresses(dst), 0, r.assoclen, |t|, t);
    GatherSlice(now, Addresses(dst), r.assoclen, |t|, |t|, t);
    ToEnd(t, r.assoclen, |t|);
  }

  lemma {:induction false} SealThenOpen(a: Aead, r: Req, src: seq<Seg>, mid: seq<Seg>, was: seq<byte>, now: seq<byte>, s: seq<byte>, t: seq<byte>)
    requires Lawful(a) && Ready(r) && !r.decrypt && Ready(Reversal(r)) && Placed(r, src, mid, |was|) && |now| == |was|
    requires Effect(a, r, src, mid, was, now, 0)
    requires s == Gather(was, Addresses(src), 0, Total(r)) && t == Gather(now, Addresses(mid), 0, Total(Reversal(r)))
    ensures Result(a, Reversal(r), t) == if SameTag(a, r, s, Front(r, src, mid, was)) then Some(s[r.assoclen..]) else None
    ensures Front(r, src, mid, was)[..AadLen(r)] == s[..AadLen(r)] ==> SameTag(a, r, s, Front(r, src, mid, was))
  {
    SealedStream(a, r, src, mid, was, now, s, t);
    OpenSealed(a, r, Reversal(r), s, t);
    var f := Front(r, src, mid, was);
    assert f[..r.assoclen] == f;
    SameFront(a, r, s, t, f);
  }

  /** The tag tells the two pieces of associated data apart, if they differ. */
  predicate ToldApart(a: Aead, r: Req, text: seq<byte>, x: seq<byte>, y: seq<byte>)
    requires Ready(r)
  {
    a.tag(Nonce(r).value, x, text, r.authsize) == a.tag(Nonce(r).value, y, text, r.authsize) ==> x == y
  }

  /** The tags agree exactly when the bytes in front do, as long as the tag tells them apart. */
  lemma {:induction false} SameTagBytes(a: Aead, r: Req, src: seq<Seg>, mid: seq<Seg>, was: seq<byte>, s: seq<byte>)
    requires Ready(r) && !r.decrypt && Placed(r, src, mid, |was|) && s == Gather(was, Addresses(src), 0, Total(r))
    ensures var ours, theirs := Gather(was, Addresses(src), 0, AadLen(r)), Gather(was, Addresses(mid), 0, AadLen(r));
            ToldApart(a, r, s[r.assoclen..], theirs, ours) ==>
              (SameTag(a, r, s, Front(r, src, mid, was)) <==> !Mapped(r, src, mid) || theirs == ours)
  {
    SourcePieces(r, was, Addresses(src), s);
    var f := Front(r, src, mid, was);
    GatherSlice(was, if Mapped(r, src, mid) then Addresses(mid) else Addresses(src), 0, AadLen(r), r.assoclen, f);
    assert f[0..AadLen(r)] == f[..AadLen(r)];
  }

  /** Encrypting through any two lists and decrypting the result into any third returns the
      text. It fails only when the mapped path left foreign associated data in front of it:
      exactly then, as long as the tag tells the two apart. */
  method ThereAndBack(mem: array<byte>, a: Aead, r: Req, src: seq<Seg>, mid: seq<Seg>, dst: seq<Seg>, env: Env, again: Env)
      returns (sealed: int, opening: int)
    requires Lawful(a) && Ready(r) && !r.decrypt && Ready(Reversal(r))
    requires Placed(r, src, mid, mem.Length) && Placed(Reversal(r), mid, dst, mem.Length)
    requires NoFault(env) && NoFault(again)
    modifies mem
    ensures sealed == 0
    ensures var was, s := old(mem[..]), Gather(old(mem[..]), Addresses(src), 0, Total(r));
      && opening == (if SameTag(a, r, s, Front(r, src, mid, was)) then 0 else -EBADMSG)
      && (Front(r, src, mid, was)[..AadLen(r)] == s[..AadLen(r)] ==> opening == 0)
      && (opening == 0 ==> Gather(mem[..], Addresses(dst), r.assoclen, r.assoclen + r.cryptlen) == s[r.assoclen..])
    ensures var was, s := old(mem[..]), Gather(old(mem[..]), Addresses(src), 0, Total(r));
      var ours, theirs := Gather(was, Addresses(src), 0, AadLen(r)), Gather(was, Addresses(mid), 0, AadLen(r));
      ToldApart(a, r, s[r.assoclen..], theirs, ours) ==> (opening == 0 <==> !Mapped(r, src, mid) || theirs == ours)
  {
    ghost var was := mem[..];
    ghost var s := Gather(was, Addresses(src), 0, Total(r));
    var back := Reversal(r);
    ResultLen(a, r, s);
    sealed := Crypt(mem, a, r, src, mid, env);
    ghost var now := mem[..];
    ghost var t := Gather(now, Addresses(mid), 0, Total(back));
    SealThenOpen(a, r, src, mid, was, now, s, t);
    SameTagBytes(a, r, src, mid, was, s);
    opening := Crypt(mem, a, back, mid, dst, again);
    if opening == 0 {
      Delivered(a, back, mid, dst, now, mem[..], t);
    }
  }

  /** The tag sizes that the GCM transform accepts. */
  predicate GcmTagSize(n: nat) {
    n == 4 || n == 8 || 12 <= n <= 16
  }

  /** A failing input: one byte of associated data, no text, and a separate destination that
      holds another byte where the associated data goes. */
  method ForeignAssociatedData(mem: array<byte>, a: Aead, iv: seq<byte>, authsize: nat, env: Env) returns (sealed: int, opening: int)
    requires Lawful(a) && GcmTagSize(authsize) && mem.Length >= 3 + authsize && |iv| == 12 && NoFault(env)
    requires a.tag(iv, [mem[2]], [], authsize) != a.tag(iv, [mem[0]], [], authsize)
    modifies mem
    ensures sealed == 0 && opening == -EBADMSG
  {
    var r := Req(Gcm, false, 1, 0, authsize, iv, []);
    var src, mid := [Seg(0, 1)], [Seg(2, 1 + authsize)];
    OneEntry(src[0]);
    OneEntry(mid[0]);
    ghost var was := mem[..];
    ghost var s := Gather(was, Addresses(src), 0, Total(r));
    assert s == [mem[0]] && s[..1] == s && s[1..] == [];
    assert Front(r, src, mid, was) == [mem[2]] && [mem[2]][..1] == [mem[2]];
    assert !SameTag(a, r, s, Front(r, src, mid, was));
    sealed, opening := ThereAndBack(mem, a, r, src, mid, mid, env, env);
  }

  lemma {:induction false} SameFront(a: Aead, r: Req, s: seq<byte>, t: seq<byte>, held: seq<byte>)
    requires Ready(r) && !r.decrypt && |s| == Total(r) && |t| >= r.assoclen && |held| >= r.assoclen
    requires t[..r.assoclen] == held[..r.assoclen]
    ensures SameTag(a, r, s, t) == SameTag(a, r, s, held)
  {
    assert t[..AadLen(r)] == t[..r.assoclen][..AadLen(r)];
    assert held[..AadLen(r)] == held[..r.assoclen][..AadLen(r)];
  }

  // ---- The handler's memory, with every byte spelled out ----

  /** The bytes that a request takes for its nonce. */
  predicate IsNonce(r: Req, n: seq<byte>)
    requires SizesFit(r)
  {
    match r.kind
    case Gcm => n == r.iv
    case Ccm => |n| == 14 - (r.iv[0] as int) && forall i :: 0 <= i < |n| ==> n[i] == r.iv[1 + i]
    case _ => n == r.salt + r.iv
  }

  /** `bytes` is what the list reads from position `lo` on. */
  ghost predicate ReadsAt(mem: seq<byte>, addrs: seq<nat>, lo: nat, bytes: seq<byte>)
    requires InMemory(addrs, |mem|)
  {
    lo + |bytes| <= |addrs| && forall i :: 0 <= i < |bytes| ==> mem[addrs[lo + i]] == bytes[i]
  }

  lemma {:induction false} ReadsAtGather(mem: seq<byte>, addrs: seq<nat>, lo: nat, hi: nat, bytes: seq<byte>)
    requires InMemory(addrs, |mem|) && lo <= hi <= |addrs| && |bytes| == hi - lo
    ensures ReadsAt(mem, addrs, lo, bytes) <==> Gather(mem, addrs, lo, hi) == bytes
  {
    var g := Gather(mem, addrs, lo, hi);
    assert forall i :: 0 <= i < hi - lo ==> g[i] == mem[addrs[lo + i]];
  }

  /** The pieces of a request, as they stand in memory. */
  ghost predicate Pieces(r: Req, src: seq<Seg>, was: seq<byte>, nonce: seq<byte>, aad: seq<byte>, text: seq<byte>, given: seq<byte>)
    requires Ready(r) && InMemory(Addresses(src), |was|)
  {
    && IsNonce(r, nonce)
    && |aad| == (if r.kind.Rfc4106? || r.kind.Rfc4309? then r.assoclen - 8 else r.assoclen)
    && |text| == (if r.decrypt then r.cryptlen - r.authsize else r.cryptlen)
    && |given| == (if r.decrypt then r.authsize else 0)
    && ReadsAt(was, Addresses(src), 0, aad)
    && ReadsAt(was, Addresses(src), r.assoclen, text)
    && ReadsAt(was, Addresses(src), r.assoclen + |text|, given)
  }

  lemma {:induction false} PiecesOf(r: Req, src: seq<Seg>, was: seq<byte>, nonce: seq<byte>, aad: seq<byte>, text: seq<byte>, given: seq<byte>, s: seq<byte>)
    requires Ready(r) && InMemory(Addresses(src), |was|) && Total(r) <= |Addresses(src)| && s == Gather(was, Addresses(src), 0, Total(r))
    requires Pieces(r, src, was, nonce, aad, text, given)
    ensures nonce == Nonce(r).value && aad == s[..AadLen(r)] && text == s[r.assoclen..r.assoclen + TextLen(r)]
    ensures given == s[r.assoclen + TextLen(r)..]
  {
    var from := Addresses(src);
    SourcePieces(r, was, from, s);
    ReadsAtGather(was, from, 0, AadLen(r), aad);
    ReadsAtGather(was, from, r.assoclen, r.assoclen + TextLen(r), text);
    ReadsAtGather(was, from, r.assoclen + TextLen(r), Total(r), given);
  }

  /** The flat meaning of a request, from its pieces. */
  lemma {:induction false} ResultOf(a: Aead, r: Req, s: seq<byte>, nonce: seq<byte>, aad: seq<byte>, text: seq<byte>, given: seq<byte>)
    requires Ready(r) && |s| == Total(r)
    requires nonce == Nonce(r).value && aad == s[..AadLen(r)] && text == s[r.assoclen..r.assoclen + TextLen(r)]
    requires given == s[r.assoclen + TextLen(r)..]
    ensures Result(a, r, s) ==
      if !r.decrypt then Some(a.cipher(nonce, text) + a.tag(nonce, aad, text, r.authsize))
      else if a.tag(nonce, aad, a.plain(nonce, text), r.authsize) == given then Some(a.plain(nonce, text)) else None
  {
  }

  /** A success leaves its result at the text position and nothing outside the destination's list. */
  lemma {:induction false} EffectMeans(a: Aead, r: Req, src: seq<Seg>, dst: seq<Seg>, was: seq<byte>, now: seq<byte>, s: seq<byte>)
    requires Lawful(a) && Ready(r) && Placed(r, src, dst, |was|) && |now| == |was|
    requires Effect(a, r, src, dst, was, now, 0) && s == Gather(was, Addresses(src), 0, Total(r))
    ensures Result(a, r, s).Some? && ReadsAt(now, Addresses(dst), r.assoclen, Result(a, r, s).value)
    ensures forall p :: 0 <= p < |was| && p !in Addresses(dst) ==> now[p] == was[p]
  {
    Delivered(a, r, src, dst, was, now, s);
    ResultLen(a, r, s);
    ReadsAtGather(now, Addresses(dst), r.assoclen, r.assoclen + OutLen(r), Result(a, r, s).value);
  }

  /** A successful encryption: the ciphertext at the text position, the tag behind it, and nothing
      outside the destination's list changed. */
  lemma {:induction false} SealedMemory(a: Aead, r: Req, src: seq<Seg>, dst: seq<Seg>, was: seq<byte>, now: seq<byte>, nonce: seq<byte>, aad: seq<byte>, text: seq<byte>)
    requires Lawful(a) && Ready(r) && !r.decrypt && Placed(r, src, dst, |was|) && |now| == |was|
    requires Effect(a, r, src, dst, was, now, 0) && Pieces(r, src, was, nonce, aad, text, [])
    ensures ReadsAt(now, Addresses(dst), r.assoclen, a.cipher(nonce, text) + a.tag(nonce, aad, text, r.authsize))
    ensures forall p :: 0 <= p < |was| && p !in Addresses(dst) ==> now[p] == was[p]
  {
    var s := Gather(was, Addresses(src), 0, Total(r));
    PiecesOf(r, src, was, nonce, aad, text, [], s);
    ResultOf(a, r, s, nonce, aad, text, []);
    EffectMeans(a, r, src, dst, was, now, s);
  }

  /** A decryption that nothing else fails answers with a bad message exactly when the tag of what
      it opened is not the one given. */
  lemma {:induction false} OpenedAnswer(a: Aead, r: Req, src: seq<Seg>, dst: seq<Seg>, was: seq<byte>, env: Env, nonce: seq<byte>, aad: seq<byte>, text: seq<byte>, given: seq<byte>)
    requires Ready(r) && r.decrypt && Placed(r, src, dst, |was|) && NoFault(env)
    requires Pieces(r, src, was, nonce, aad, text, given)
    ensures Answer(a, r, src, dst, was, env) == if a.tag(nonce, aad, a.plain(nonce, text), r.authsize) == given then 0 else -EBADMSG
  {
    var s := Gather(was, Addresses(src), 0, Total(r));
    PiecesOf(r, src, was, nonce, aad, text, given, s);
    ResultOf(a, r, s, nonce, aad, text, given);
  }

  /** A successful decryption leaves the text, and its tag was the one given. */
  lemma {:induction false} OpenedMemory(a: Aead, r: Req, src: seq<Seg>, dst: seq<Seg>, was: seq<byte>, now: seq<byte>, nonce: seq<byte>, aad: seq<byte>, text: seq<byte>, given: seq<byte>)
    requires Lawful(a) && Ready(r) && r.decrypt && Placed(r, src, dst, |was|) && |now| == |was|
    requires Effect(a, r, src, dst, was, now, 0) && Pieces(r, src, was, nonce, aad, text, given)
    ensures a.tag(nonce, aad, a.plain(nonce, text), r.authsize) == given
    ensures ReadsAt(now, Addresses(dst), r.assoclen, a.plain(nonce, text))
    ensures forall p :: 0 <= p < |was| && p !in Addresses(dst) ==> now[p] == was[p]
  {
    var s := Gather(was, Addresses(src), 0, Total(r));
    PiecesOf(r, src, was, nonce, aad, text, given, s);
    ResultOf(a, r, s, nonce, aad, text, given);
    EffectMeans(a, r, src, dst, was, now, s);
  }
}
