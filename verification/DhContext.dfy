/** The Diffie-Hellman transform context: secrets, the cached public key, and every run of its callbacks. */
module DhContext {
  import opened Common
  import opened Bytes
  import opened DhSecret
  import Memory

  /** A private value in its group, and whether `set_secret` drew it itself. */
  datatype Secret = Secret(group: Group, x: nat, generated: bool)

  /** Which of the fallible calls inside `set_secret` succeed, and the private bytes drawn. */
  datatype Luck = Luck(initKey: bool, setNamed: bool, mallocPriv: bool, mallocPub: bool, setKey: bool,
                       importKey: bool, exportKey: bool, generate: bool, drawn: seq<byte>,
                       initAgain: bool, namedAgain: bool)

  /** Whether a call into the library succeeds, and what it leaves in the output buffer if not. */
  datatype Attempt = Attempt(ok: bool, junk: seq<byte>, len: nat)

  const BLANK := Group(0, 0)

  /** The secret that a well-formed request to "dh" carries. */
  function DhSecretOf(buf: Option<seq<byte>>): (s: Option<Secret>) {
    if buf.None? then None
    else
      var d := Decode(buf.value);
      if d.None? then None
      else
        var q := d.value;
        if q.key.None? || q.p.None? || q.g.None? || q.keySize > q.pSize || q.gSize > q.pSize then None
        else Some(Secret(Group(FromBE(q.p.value), FromBE(q.g.value)), FromBE(q.key.value), false))
  }

  /** The private key in a request, if it has one. */
  function KeyOf(buf: Option<seq<byte>>): Option<seq<byte>> {
    if buf.None? || Decode(buf.value).None? then None else Decode(buf.value).value.key
  }

  /** A named group takes no buffer, or a well-formed one without parameters. */
  predicate FfdheAccepts(buf: Option<seq<byte>>) {
    buf.None? || (Decode(buf.value).Some? && Decode(buf.value).value.pSize == 0 && Decode(buf.value).value.gSize == 0)
  }

  lemma {:induction false} FfdheShape(buf: Option<seq<byte>>, named: Group, drawn: seq<byte>)
    ensures var key := KeyOf(buf);
      FfdheSecretOf(buf, named, drawn) ==
        if !FfdheAccepts(buf) then None else Some(Secret(named, FromBE(if key.None? then drawn else key.value), key.None?))
  {
  }

  /** The secret that a well-formed request to a named group carries, or the drawn one. */
  function FfdheSecretOf(buf: Option<seq<byte>>, named: Group, drawn: seq<byte>): (s: Option<Secret>) {
    var key := KeyOf(buf);
    if !FfdheAccepts(buf) then None
    else if key.None? then Some(Secret(named, FromBE(drawn), true))
    else Some(Secret(named, FromBE(key.value), false))
  }

  /** A packed "dh" secret is taken exactly when all three fields are there and neither the private
      value nor the generator is longer than the prime; each field goes where it belongs. */
  lemma {:induction false} PackedDhSecret(key: seq<byte>, p: seq<byte>, g: seq<byte>)
    requires 16 + |key| + |p| + |g| < TWO16
    ensures DhSecretOf(Some(Pack(key, p, g))) ==
      if 0 < |key| <= |p| && 0 < |g| <= |p| then Some(Secret(Group(FromBE(p), FromBE(g)), FromBE(key), false)) else None
  {
    DecodePack(key, p, g);
  }

  /** A named group takes a packed secret without parameters: the private value in it, or a drawn one. */
  lemma {:induction false} PackedFfdheSecret(key: seq<byte>, p: seq<byte>, g: seq<byte>, named: Group, drawn: seq<byte>)
    requires 16 + |key| + |p| + |g| < TWO16
    ensures FfdheSecretOf(None, named, drawn) == Some(Secret(named, FromBE(drawn), true))
    ensures FfdheSecretOf(Some(Pack(key, p, g)), named, drawn) ==
      if p != [] || g != [] then None
      else if key == [] then Some(Secret(named, FromBE(drawn), true))
      else Some(Secret(named, FromBE(key), false))
  {
    DecodePack(key, p, g);
  }

  /** Nothing but a packed secret is taken. */
  lemma {:induction false} OnlyPackedSecrets(buf: seq<byte>, named: Group, drawn: seq<byte>) returns (key: seq<byte>, p: seq<byte>, g: seq<byte>)
    requires DhSecretOf(Some(buf)).Some? || FfdheSecretOf(Some(buf), named, drawn).Some?
    ensures buf == Pack(key, p, g) && |buf| < TWO16
  {
    key, p, g := DecodeOnlyPacked(buf);
  }

  /** The public key as `gen_pub` hands it out: padded to the modulus length when it was
      generated with the private value, and as short as possible otherwise. */
  function Encoded(s: Secret, width: nat): (r: seq<byte>)
    requires s.group.p > 0
  {
    var m := ToBE(PublicValue(s.group, s.x));
    if s.generated && |m| < width then Zeros(width - |m|) + m else m
  }

  /** The bytes handed out are always the big-endian public value. */
  lemma {:induction false} EncodedValue(s: Secret, width: nat)
    requires s.group.p > 0
    ensures FromBE(Encoded(s, width)) == PublicValue(s.group, s.x)
  {
    var v := PublicValue(s.group, s.x);
    FromToBE(v);
    if s.generated && |ToBE(v)| < width { PaddedValue(width - |ToBE(v)|, ToBE(v)); }
  }

  /** Feeding each party's public key to the other's `compute_shared_secret` gives both the same bytes. */
  lemma {:induction false} ExchangeAgrees(a: Secret, b: Secret, width: nat)
    requires a.group == b.group && a.group.p > 0
    ensures Raise(a.group, FromBE(Encoded(b, width)), a.x) == Raise(b.group, FromBE(Encoded(a, width)), b.x)
  {
    EncodedValue(a, width);
    EncodedValue(b, width);
    SharedSecretsAgree(a.group, a.x, b.x);
  }

  /** Read in full, a buffer that starts with the key is the public value exactly when the key fills it. */
  lemma {:induction false} FilledReads(s: Secret, width: nat, dst: seq<byte>)
    requires s.group.p > 0 && PublicValue(s.group, s.x) > 0 && |Encoded(s, width)| <= |dst|
    ensures FromBE(Splice(dst, 0, Encoded(s, width))) == PublicValue(s.group, s.x) <==> |dst| == |Encoded(s, width)|
  {
    var e := Encoded(s, width);
    EncodedValue(s, width);
    TrailingValue(e, dst[|e|..]);
    assert Splice(dst, 0, e) == e + dst[|e|..];
  }

  /** Which lengths the key of a nonzero public value fills. */
  lemma {:induction false} FillsIff(s: Secret, width: nat, n: nat)
    requires s.group.p > 0 && |ToBE(s.group.p)| <= width && |Encoded(s, width)| <= n && PublicValue(s.group, s.x) > 0
    ensures n == |Encoded(s, width)| <==> if s.generated then n == width else n > 0 && Power(256, n - 1) <= PublicValue(s.group, s.x)
  {
    EncodedFits(s, width);
    if !s.generated && n > 0 { ToBELength(PublicValue(s.group, s.x), n - 1); }
  }

  /** For a public value of zero, when what is left behind it is zero too. */
  lemma {:induction false} ZeroReads(s: Secret, width: nat, dst: seq<byte>)
    requires s.group.p > 0 && PublicValue(s.group, s.x) == 0 && |Encoded(s, width)| <= |dst|
    ensures FromBE(Splice(dst, 0, Encoded(s, width))) == 0 <==> FromBE(dst[if s.generated then width else 0..]) == 0
  {
    var e := Encoded(s, width);
    assert ToBE(0) == [];
    assert e == Zeros(if s.generated then width else 0);
    assert Splice(dst, 0, e) == e + dst[|e|..];
    PaddedValue(|e|, dst[|e|..]);
  }

  /** A destination that holds the key, filled by `gen_pub` and read in full, is the public value exactly when the key was generated and the destination is
      of modulus length, or was imported and its value needs every byte of the destination.
      (A value of zero needs zeros behind it.) */
  lemma {:induction false} WholeBufferReads(s: Secret, width: nat, dst: seq<byte>)
    requires s.group.p > 0 && |ToBE(s.group.p)| <= width && |Encoded(s, width)| <= |dst|
    ensures var v := PublicValue(s.group, s.x);
            FromBE(Splice(dst, 0, Encoded(s, width))) == v <==>
              if v == 0 then FromBE(dst[if s.generated then width else 0..]) == 0
              else if s.generated then |dst| == width
              else |dst| > 0 && Power(256, |dst| - 1) <= v
  {
    if PublicValue(s.group, s.x) == 0 {
      ZeroReads(s, width, dst);
    } else {
      FilledReads(s, width, dst);
      FillsIff(s, width, |dst|);
    }
  }

  /** The failing family: the imported private value 1 over the generator 2 has the one-byte
      public key 2, and no longer destination reads as 2. */
  lemma {:induction false} ShortKeyMisreads(p: nat, width: nat, dst: seq<byte>)
    requires p > 2 && |ToBE(p)| <= width && 2 <= |dst|
    ensures var s := Secret(Group(p, 2), 1, false);
            && Encoded(s, width) == [2] && PublicValue(s.group, s.x) == 2
            && FromBE(Splice(dst, 0, Encoded(s, width))) != 2
  {
    var s := Secret(Group(p, 2), 1, false);
    assert Power(2, 1) == 2 * Power(2, 0) == 2;
    DivModUnique(2, p, 0, 2);
    assert ToBE(2) == ToBE(0) + [2] == [2];
    FilledReads(s, width, dst);
  }

  lemma {:induction false} EncodedFits(s: Secret, width: nat)
    requires s.group.p > 0 && |ToBE(s.group.p)| <= width
    ensures |ToBE(PublicValue(s.group, s.x))| <= |Encoded(s, width)| <= width
    ensures s.generated ==> |Encoded(s, width)| == width
  {
    ToBEMonotone(PublicValue(s.group, s.x), s.group.p);
  }

  /** Writes `bytes` at the start of the buffer. */
  method Store(a: array<byte>, bytes: seq<byte>)
    requires |bytes| <= a.Length
    modifies a
    ensures a[..] == Splice(old(a[..]), 0, bytes)
    ensures a[..][..|bytes|] == bytes
  {
    forall i | 0 <= i < |bytes| { a[i] := bytes[i]; }
  }

  class DhCtx {
    const isNamed: bool
    const named: Group
    const width: nat
    const floor: nat
    var group: Group
    var keyPriv: nat
    var privKey: array?<byte>
    var privLen: nat
    var pubKey: array?<byte>
    var pubLen: nat
    var hasPubKey: bool
    ghost var secret: Option<Secret>

    /** Both buffers are there or neither. */
    ghost predicate Paired()
      reads this
    {
      if privKey == null then pubKey == null
      else pubKey != null && privKey != pubKey && privKey.Length == width == pubKey.Length && privLen <= width && pubLen <= width
    }

    ghost predicate Valid()
      reads this, privKey, pubKey
    {
      && floor > 0
      && Paired()
      && (isNamed ==> group == BLANK || group == named)
      && (secret.Some? <==> privKey != null)
      && (privKey != null ==>
            && FromBE(privKey[..][..privLen]) == secret.value.x
            && (group == BLANK || group == secret.value.group)
            && (secret.value.generated ==> hasPubKey)
            && (hasPubKey ==> group.p > 0 && pubKey[..][..pubLen] == Encoded(secret.value, width)))
    }

    /** `km_ffdhe_init`, for a named group or for plain "dh". */
    constructor (isNamed: bool, named: Group, width: nat, floor: nat)
      requires floor > 0
      ensures Valid() && secret == None
      ensures this.isNamed == isNamed && this.named == named && this.width == width && this.floor == floor
    {
      this.isNamed, this.named, this.width, this.floor := isNamed, named, width, floor;
      group := if isNamed then named else BLANK;
      keyPriv, privKey, privLen, pubKey, pubLen, hasPubKey := 0, null, 0, null, 0, false;
      secret := None;
    }

    /** The private bytes are wiped before the buffer is given up. */
    method ClearKeys()
      requires privKey != null ==> privLen <= privKey.Length
      modifies this`privKey, this`privLen, this`pubKey, this`pubLen, privKey
      ensures privKey == null && pubKey == null
      ensures old(privKey) != null ==> forall i :: 0 <= i < old(privLen) ==> old(privKey)[i] == 0
    {
      if privKey != null {
        forall i | 0 <= i < privLen { privKey[i] := 0; }
        privKey, privLen := null, 0;
      }
      if pubKey != null {
        pubKey, pubLen := null, 0;
      }
    }

    /** The parameters of a library key that was freed and initialised again. */
    function Rebuilt(initOk: bool, namedOk: bool): Group {
      if isNamed && initOk && namedOk then named else BLANK
    }

    /** Drops the old key. The library key is rebuilt only if there was a private key. */
    method ResetCtx(initOk: bool, namedOk: bool) returns (err: int)
      requires privKey != null ==> privLen <= privKey.Length
      requires isNamed ==> privKey != null || group == BLANK || group == named
      modifies this`group, this`keyPriv, this`privKey, this`privLen, this`pubKey, this`pubLen, privKey
      ensures privKey == null && pubKey == null
      ensures isNamed ==> group == BLANK || group == named
      ensures group == if old(privKey) == null then old(group) else Rebuilt(initOk, namedOk)
      ensures err == if old(privKey) == null || (initOk && (isNamed ==> namedOk)) then 0 else -ENOMEM
      ensures old(privKey) != null ==> forall i :: 0 <= i < old(privLen) ==> old(privKey)[i] == 0
    {
      err := 0;
      if privKey != null {
        group, keyPriv := BLANK, 0;
        if !initOk {
          err := -ENOMEM;
        } else if isNamed {
          if namedOk { group := named; } else { err := -ENOMEM; }
        }
      }
      ClearKeys();
    }

    method AllocKeys(mallocPriv: bool, mallocPub: bool) returns (err: int)
      requires privKey == null && pubKey == null
      modifies this`privKey, this`privLen, this`pubKey, this`pubLen
      ensures Paired()
      ensures err == if mallocPriv && mallocPub then 0 else -ENOMEM
      ensures err == 0 <==> privKey != null
      ensures err == 0 ==> fresh(privKey) && fresh(pubKey) && privLen == pubLen == width
    {
      err := 0;
      privLen, pubLen := width, width;
      if !mallocPriv {
        err := -ENOMEM;
      } else {
        privKey := new byte[width](_ => 0);
        if !mallocPub {
          err := -ENOMEM;
        } else {
          pubKey := new byte[width](_ => 0);
        }
      }
      if err != 0 { ClearKeys(); }
    }

    /** `wc_DhImportKeyPair` then `wc_DhExportKeyPair`. */
    method ImportPrivate(key: seq<byte>, importOk: bool, exportOk: bool) returns (err: int)
      requires Paired() && privKey != null && privLen == width
      modifies this`keyPriv, this`privLen, privKey
      ensures err == if importOk && exportOk && |ToBE(FromBE(key))| <= width then 0 else -EINVAL
      ensures err == 0 ==> privLen <= width && FromBE(privKey[..][..privLen]) == FromBE(key)
      ensures privLen <= width
    {
      if !importOk {
        keyPriv := 0;
        return -EINVAL;
      }
      keyPriv := FromBE(key);
      var bytes := ToBE(keyPriv);
      if |bytes| > privLen { return -EINVAL; }
      privLen := |bytes|;
      if !exportOk { return -EINVAL; }
      Store(privKey, bytes);
      FromToBE(keyPriv);
      err := 0;
    }

    /** The library can compute the public key: `GeneratePublicDh` checks the private key, the
        room for the result and the smallest size of the prime. */
    predicate CanGenerate(ok: bool)
      reads this
    {
      ok && privLen > 0 && floor <= group.p && |ToBE(group.p)| <= pubLen
    }

    /** `wc_DhGeneratePublic`: on failure the buffer and the length may have been touched. */
    method GeneratePublic(attempt: Attempt) returns (ok: bool)
      requires floor > 0 && Paired() && privKey != null
      modifies this`pubLen, pubKey
      ensures Paired()
      ensures ok == old(CanGenerate(attempt.ok))
      ensures ok ==> pubKey[..][..pubLen] == ToBE(PublicValue(group, FromBE(privKey[..][..privLen])))
    {
      ok := CanGenerate(attempt.ok);
      if ok {
        var v := PublicValue(group, FromBE(privKey[..][..privLen]));
        var bytes := ToBE(v);
        ToBEMonotone(v, group.p);
        Store(pubKey, bytes);
        pubLen := |bytes|;
      } else {
        if |attempt.junk| == pubKey.Length { Store(pubKey, attempt.junk); }
        if attempt.len < pubLen { pubLen := attempt.len; }
      }
    }

    /** Shifts the public key up within its buffer and fills in leading zeros. */
    method PadPublic()
      requires Paired() && pubKey != null
      modifies this`pubLen, pubKey
      ensures pubLen == width
      ensures pubKey[..][..pubLen] == Zeros(width - old(pubLen)) + old(pubKey[..][..pubLen])
    {
      ghost var was := pubKey[..];
      if pubLen < width {
        var pad := width - pubLen;
        Memory.Memmove(pubKey, pad, 0, pubLen, 8);
        ghost var moved := pubKey[..];
        Memory.Memset(pubKey, 0, 0, pad, 8);
        Padded(was, moved, pubKey[..], pad, pubLen);
        pubLen := pubLen + pad;
      }
    }

    /** The old key, if any, is replaced by a new one and both buffers are there. */
    predicate Grants(luck: Luck, hadKey: bool) {
      (hadKey ==> luck.initKey && (isNamed ==> luck.setNamed)) && luck.mallocPriv && luck.mallocPub
    }

    /** The common start of both `set_secret` forms. */
    method Prepare(luck: Luck) returns (err: int)
      requires Valid()
      modifies this`group, this`keyPriv, this`privKey, this`privLen, this`pubKey, this`pubLen, privKey
      ensures Paired() && (privKey != null ==> fresh(privKey) && fresh(pubKey) && privLen == pubLen == width)
      ensures isNamed ==> group == BLANK || group == named
      ensures group == if old(privKey) == null then old(group) else Rebuilt(luck.initKey, luck.setNamed)
      ensures err == 0 <==> privKey != null
      ensures err == if Grants(luck, old(privKey) != null) then 0 else -ENOMEM
    {
      err := ResetCtx(luck.initKey, luck.setNamed);
      if err == 0 { err := AllocKeys(luck.mallocPriv, luck.mallocPub); }
    }

    /** The end of both `set_secret` forms: after an error nothing of the key remains. */
    method Finish(err: int, luck: Luck, ghost goal: Option<Secret>)
      requires floor > 0 && Paired()
      requires isNamed ==> group == BLANK || group == named
      requires err == 0 ==> goal.Some? && privKey != null && FromBE(privKey[..][..privLen]) == goal.value.x
      requires err == 0 ==> (group == BLANK || group == goal.value.group) && (goal.value.generated ==> hasPubKey)
      requires err == 0 && hasPubKey ==> group.p > 0 && pubKey[..][..pubLen] == Encoded(goal.value, width)
      modifies this`group, this`keyPriv, this`privKey, this`privLen, this`pubKey, this`pubLen, this`secret, privKey
      ensures Valid()
      ensures secret == if err == 0 then goal else None
      ensures err == 0 ==> privKey == old(privKey) && pubKey == old(pubKey) && pubLen == old(pubLen)
      ensures group == if err == 0 || old(privKey) == null then old(group) else Rebuilt(luck.initAgain, luck.namedAgain)
    {
      secret := if err == 0 then goal else None;
      if err != 0 {
        var ignored := ResetCtx(luck.initAgain, luck.namedAgain);
      }
    }

    /** The parameters and the private key of "dh" go into fresh buffers. */
    method InstallDh(p: seq<byte>, g: seq<byte>, key: seq<byte>, luck: Luck) returns (err: int)
      requires Paired() && privKey != null && privLen == width
      modifies this`group, this`keyPriv, this`privLen, this`hasPubKey, privKey
      ensures Paired()
      ensures err == if luck.setKey && luck.importKey && luck.exportKey && |ToBE(FromBE(key))| <= width then 0 else -EINVAL
      ensures err == 0 ==> group == Group(FromBE(p), FromBE(g)) && FromBE(privKey[..][..privLen]) == FromBE(key) && !hasPubKey
    {
      if !luck.setKey {
        group := BLANK;
        return -EINVAL;
      }
      group := Group(FromBE(p), FromBE(g));
      err := ImportPrivate(key, luck.importKey, luck.exportKey);
      if err == 0 { hasPubKey := false; }
    }

    /** `km_dh_set_secret`. */
    method DhSetSecret(buf: Option<seq<byte>>, luck: Luck) returns (err: int)
      requires Valid() && !isNamed
      modifies this, privKey
      ensures Valid() && (privKey != null ==> fresh(privKey) && fresh(pubKey))
      ensures secret == if err == 0 then DhSecretOf(buf) else None
      ensures err == 0 ==> secret.Some? && !hasPubKey && pubLen == width
      ensures DhSecretOf(buf).None? ==> err == -EINVAL
      ensures DhSecretOf(buf).Some? ==> (err == -ENOMEM <==> !Grants(luck, old(privKey) != null))
      ensures DhSecretOf(buf).Some? && err != -ENOMEM ==>
        err == if luck.setKey && luck.importKey && luck.exportKey && |ToBE(DhSecretOf(buf).value.x)| <= width then 0 else -EINVAL
    {
      ghost var goal := DhSecretOf(buf);
      err := -EINVAL;
      var params := if buf.None? then None else Decode(buf.value);
      if params.Some? {
        var q := params.value;
        if q.key.Some? && q.p.Some? && q.g.Some? && q.keySize <= q.pSize && q.gSize <= q.pSize {
          err := Prepare(luck);
          if err == 0 {
            err := InstallDh(q.p.value, q.g.value, q.key.value, luck);
          }
        }
      }
      Finish(err, luck, goal);
    }

    /** A fresh key pair: the drawn private bytes, and the public key padded to full length. */
    method InstallGenerated(luck: Luck, attempt: Attempt) returns (err: int)
      requires floor > 0 && Paired() && privKey != null && privLen == pubLen == width
      modifies this`privLen, this`pubLen, this`hasPubKey, privKey, pubKey
      ensures Paired()
      ensures err == if luck.generate && 0 < |luck.drawn| <= width && floor <= group.p && |ToBE(group.p)| <= width then 0 else -EINVAL
      ensures err == 0 ==> FromBE(privKey[..][..privLen]) == FromBE(luck.drawn) && hasPubKey && group.p > 0
      ensures err == 0 ==> pubKey[..][..pubLen] == Encoded(Secret(group, FromBE(luck.drawn), true), width)
    {
      if |luck.drawn| > privLen { return -EINVAL; }
      Store(privKey, luck.drawn);
      privLen := |luck.drawn|;
      var ok := GeneratePublic(attempt.(ok := luck.generate));
      if !ok { return -EINVAL; }
      PadPublic();
      hasPubKey := true;
      err := 0;
    }

    /** The library accepts the given private key, or generates one in `group`. */
    predicate Installs(key: Option<seq<byte>>, luck: Luck, group: Group) {
      if key.None? then luck.generate && 0 < |luck.drawn| <= width && floor <= group.p && |ToBE(group.p)| <= width
      else luck.importKey && luck.exportKey && |ToBE(FromBE(key.value))| <= width
    }

    /** The named group's private key goes into fresh buffers: the given one or a generated one. */
    method InstallFfdhe(key: Option<seq<byte>>, luck: Luck, attempt: Attempt) returns (err: int)
      requires floor > 0 && Paired() && privKey != null && privLen == pubLen == width
      modifies this`keyPriv, this`privLen, this`pubLen, this`hasPubKey, privKey, pubKey
      ensures Paired()
      ensures err == if Installs(key, luck, group) then 0 else -EINVAL
      ensures err == 0 ==> FromBE(privKey[..][..privLen]) == FromBE(if key.None? then luck.drawn else key.value)
      ensures err == 0 ==> hasPubKey == key.None? && (hasPubKey || pubLen == width)
      ensures err == 0 && hasPubKey ==> group.p > 0 && pubKey[..][..pubLen] == Encoded(Secret(group, FromBE(luck.drawn), true), width)
    {
      if key.None? {
        err := InstallGenerated(luck, attempt);
      } else {
        err := ImportPrivate(key.value, luck.importKey, luck.exportKey);
        if err == 0 { hasPubKey := false; }
      }
    }

    /** Drops the old key of a named group and installs the next. */
    method ReplaceKey(key: Option<seq<byte>>, luck: Luck, attempt: Attempt) returns (err: int)
      requires Valid() && isNamed
      modifies this, privKey
      ensures Paired() && (privKey != null ==> fresh(privKey) && fresh(pubKey))
      ensures group == if old(privKey) == null then old(group) else Rebuilt(luck.initKey, luck.setNamed)
      ensures err == if !Grants(luck, old(privKey) != null) then -ENOMEM else if Installs(key, luck, group) then 0 else -EINVAL
      ensures err == -ENOMEM <==> privKey == null
      ensures err == 0 ==> FromBE(privKey[..][..privLen]) == FromBE(if key.None? then luck.drawn else key.value)
      ensures err == 0 ==> hasPubKey == key.None? && (hasPubKey || pubLen == width)
      ensures err == 0 && hasPubKey ==> group.p > 0 && pubKey[..][..pubLen] == Encoded(Secret(group, FromBE(luck.drawn), true), width)
    {
      err := Prepare(luck);
      if err == 0 {
        err := InstallFfdhe(key, luck, attempt);
      }
    }

    /** `km_ffdhe_set_secret`. */
    method FfdheSetSecret(buf: Option<seq<byte>>, luck: Luck, attempt: Attempt) returns (err: int)
      requires Valid() && isNamed
      modifies this, privKey
      ensures Valid() && (privKey != null ==> fresh(privKey) && fresh(pubKey))
      ensures secret == if err == 0 then FfdheSecretOf(buf, named, luck.drawn) else None
      ensures err == 0 ==> secret.Some? && hasPubKey == secret.value.generated && (hasPubKey || pubLen == width)
      ensures err == 0 ==> group == if old(privKey) == null then old(group) else named
      ensures err == -ENOMEM ==> group == if old(privKey) == null then old(group) else Rebuilt(luck.initKey, luck.setNamed)
      ensures err == if !FfdheAccepts(buf) then -EINVAL else if !Grants(luck, old(privKey) != null) then -ENOMEM
        else if Installs(KeyOf(buf), luck, if old(privKey) == null then old(group) else named) then 0 else -EINVAL
    {
      FfdheShape(buf, named, luck.drawn);
      var ok, key := FfdheAccepts(buf), KeyOf(buf);
      ghost var goal := Some(Secret(named, FromBE(if key.None? then luck.drawn else key.value), key.None?));
      err := -EINVAL;
      if ok {
        err := ReplaceKey(key, luck, attempt);
      }
      Finish(err, luck, goal);
    }

    /** Fills the cache if it is empty. */
    method CachePublic(attempt: Attempt) returns (ok: bool)
      requires Valid() && secret.Some?
      modifies this`pubLen, this`hasPubKey, pubKey
      ensures Valid() && secret == old(secret)
      ensures ok == old(hasPubKey || CanGenerate(attempt.ok))
      ensures ok == hasPubKey
    {
      ok := hasPubKey;
      if !hasPubKey {
        Store(pubKey, Zeros(pubLen));
        ok := GeneratePublic(attempt);
        if ok { hasPubKey := true; }
      }
    }

    /** `km_dh_gen_pub`. A successful answer is the public value of the secret in force; a
        destination that is too small learns the length it needs, and the retry cannot fail. */
    method GenPub(hasSrc: bool, dst: array?<byte>, attempt: Attempt) returns (err: int, needed: nat)
      requires Valid()
      requires dst != null ==> dst != privKey && dst != pubKey
      modifies this`pubLen, this`hasPubKey, pubKey, dst
      ensures Valid() && secret == old(secret)
      ensures secret.None? || hasSrc || dst == null ==> err == -EINVAL
      ensures secret.Some? && !hasSrc && dst != null ==> (err != -EINVAL <==> old(hasPubKey || CanGenerate(attempt.ok)))
      ensures err != -EINVAL ==> hasPubKey && secret.value.group.p > 0
      ensures err != -EINVAL ==> err == (if |Encoded(secret.value, width)| <= dst.Length then 0 else -EOVERFLOW)
      ensures err == 0 ==> dst[..] == Splice(old(dst[..]), 0, Encoded(secret.value, width))
      ensures err != 0 && dst != null ==> dst[..] == old(dst[..])
      ensures err == -EOVERFLOW ==> needed == |Encoded(secret.value, width)|
    {
      needed := if dst == null then 0 else dst.Length;
      if hasSrc || dst == null || privKey == null || pubKey == null { return -EINVAL, needed; }
      var ok := CachePublic(attempt);
      if !ok { return -EINVAL, needed; }
      if pubLen > dst.Length { return -EOVERFLOW, pubLen; }
      Store(dst, pubKey[..][..pubLen]);
      err := 0;
    }

    /** `km_dh_compute_shared_secret`. */
    method ComputeShared(src: Option<seq<byte>>, dst: array?<byte>, mallocs: bool, agreeOk: bool) returns (err: int, needed: nat)
      requires Valid()
      requires dst != null ==> dst != privKey && dst != pubKey
      modifies dst
      ensures Valid()
      ensures secret.None? || src.None? || dst == null ==> err == -EINVAL
      ensures err == 0 || err == -EOVERFLOW ==> secret.value.group.p > 0 && |src.value| <= |ToBE(secret.value.group.p)|
      ensures err == 0 ==> |ToBE(Raise(secret.value.group, FromBE(src.value), secret.value.x))| <= dst.Length
      ensures err == 0 ==> dst[..] == Splice(old(dst[..]), 0, ToBE(Raise(secret.value.group, FromBE(src.value), secret.value.x)))
      ensures err == 0 ==> Raise(secret.value.group, FromBE(src.value), secret.value.x) != 1
      ensures err == -EOVERFLOW ==> dst.Length < needed == |ToBE(Raise(secret.value.group, FromBE(src.value), secret.value.x))|
      ensures err != 0 && dst != null ==> dst[..] == old(dst[..])
    {
      needed := if dst == null then 0 else dst.Length;
      if src.None? || dst == null || privKey == null || pubKey == null { return -EINVAL, needed; }
      if |src.value| == 0 || |src.value| > width { return -EINVAL, needed; }
      if !mallocs { return -ENOMEM, needed; }
      if |ToBE(group.p)| < |src.value| { return -EINVAL, needed; }
      if !agreeOk || group.p < floor || group.p % 2 == 0 { return -EINVAL, needed; }
      var z := Raise(group, FromBE(src.value), FromBE(privKey[..][..privLen]));
      if z == 1 { return -EINVAL, needed; }
      var bytes := ToBE(z);
      if dst.Length < |bytes| { return -EOVERFLOW, |bytes|; }
      Store(dst, bytes);
      err := 0;
    }
  }

  /** One callback, with the outcome of everything fallible inside it. */
  datatype Call =
    | SetSecret(buf: Option<seq<byte>>, luck: Luck, tried: Attempt)
    | GenPub(hasSrc: bool, dst: Option<seq<byte>>, attempt: Attempt)
    | Shared(src: Option<seq<byte>>, into: Option<seq<byte>>, mallocs: bool, agreeOk: bool)

  datatype Answer = Answer(err: int, dst: seq<byte>, needed: nat)

  /** What kind of context the calls go to. */
  datatype Setup = Setup(isNamed: bool, named: Group, width: nat)

  /** The secret in force after a call that returned `err`. */
  function InForce(s: Setup, before: Option<Secret>, call: Call, err: int): Option<Secret> {
    if !call.SetSecret? then before
    else if err != 0 then None
    else if s.isNamed then FfdheSecretOf(call.buf, s.named, call.luck.drawn)
    else DhSecretOf(call.buf)
  }

  /** The secret in force after the first `n` calls: that of the last `set_secret`, if it succeeded. */
  function Latest(s: Setup, calls: seq<Call>, answers: seq<Answer>, n: nat): Option<Secret>
    requires n <= |calls| && n <= |answers|
  {
    if n == 0 then None else InForce(s, Latest(s, calls, answers, n - 1), calls[n - 1], answers[n - 1].err)
  }

  /** What a caller may rely on in one answer, given the secret in force. */
  predicate Sound(s: Setup, latest: Option<Secret>, call: Call, answer: Answer) {
    match call
    case SetSecret(_, _, _) =>
      answer.err == 0 ==> InForce(s, latest, call, 0).Some?
    case GenPub(hasSrc, dst, _) =>
      && (latest.None? || hasSrc || dst.None? ==> answer.err == -EINVAL)
      && (answer.err == -EINVAL ==> dst.Some? ==> answer.dst == dst.value)
      && (answer.err != -EINVAL ==>
            && latest.value.group.p > 0
            && var e := Encoded(latest.value, s.width);
               if |e| <= |dst.value| then answer.err == 0 && answer.dst == Splice(dst.value, 0, e)
               else answer.err == -EOVERFLOW && answer.dst == dst.value && answer.needed == |e|)
    case Shared(src, into, _, _) =>
      && (latest.None? || src.None? || into.None? ==> answer.err == -EINVAL)
      && (answer.err == 0 ==>
            && latest.value.group.p > 0
            && var e := ToBE(Raise(latest.value.group, FromBE(src.value), latest.value.x));
               |e| <= |into.value| && answer.dst == Splice(into.value, 0, e))
      && (answer.err != 0 && into.Some? ==> answer.dst == into.value)
  }

  /** The caller's destination as its own memory. */
  method Destination(bytes: Option<seq<byte>>) returns (dst: array?<byte>)
    ensures dst == null <==> bytes.None?
    ensures dst != null ==> fresh(dst) && dst[..] == bytes.value
  {
    if bytes.None? { return null; }
    dst := new byte[|bytes.value|](i requires 0 <= i < |bytes.value| => bytes.value[i]);
  }

  method Dispatch(ctx: DhCtx, s: Setup, call: Call) returns (answer: Answer)
    requires ctx.Valid() && s == Setup(ctx.isNamed, ctx.named, ctx.width)
    modifies ctx, ctx.privKey, ctx.pubKey
    ensures ctx.Valid()
    ensures ctx.privKey == old(ctx.privKey) || ctx.privKey == null || fresh(ctx.privKey)
    ensures ctx.pubKey == old(ctx.pubKey) || ctx.pubKey == null || fresh(ctx.pubKey)
    ensures ctx.secret == InForce(s, old(ctx.secret), call, answer.err)
    ensures Sound(s, old(ctx.secret), call, answer)
  {
    match call {
      case SetSecret(buf, luck, tried) =>
        var err;
        if s.isNamed {
          err := ctx.FfdheSetSecret(buf, luck, tried);
        } else {
          err := ctx.DhSetSecret(buf, luck);
        }
        answer := Answer(err, [], 0);
      case GenPub(hasSrc, bytes, attempt) =>
        var dst := Destination(bytes);
        var err, needed := ctx.GenPub(hasSrc, dst, attempt);
        answer := Answer(err, if dst == null then [] else dst[..], needed);
      case Shared(src, bytes, mallocs, agreeOk) =>
        var dst := Destination(bytes);
        var err, needed := ctx.ComputeShared(src, dst, mallocs, agreeOk);
        answer := Answer(err, if dst == null then [] else dst[..], needed);
    }
  }

  lemma {:induction false} LatestPrefix(s: Setup, calls: seq<Call>, answers: seq<Answer>, more: Answer, n: nat)
    requires n <= |answers| && n <= |calls|
    ensures Latest(s, calls, answers + [more], n) == Latest(s, calls, answers, n)
  {
    if n > 0 { LatestPrefix(s, calls, answers, more, n - 1); }
  }

  predicate SoundAt(s: Setup, calls: seq<Call>, answers: seq<Answer>, i: nat)
    requires i < |calls| && i < |answers|
  {
    Sound(s, Latest(s, calls, answers, i), calls[i], answers[i])
  }

  /** Every answer is sound for the secret in force at its call. */
  ghost predicate Good(s: Setup, calls: seq<Call>, answers: seq<Answer>)
  {
    |answers| <= |calls| && forall i :: 0 <= i < |answers| ==> SoundAt(s, calls, answers, i)
  }

  lemma {:induction false} SoundAtPrefix(s: Setup, calls: seq<Call>, answers: seq<Answer>, answer: Answer, i: nat)
    requires i < |calls| && i < |answers|
    ensures SoundAt(s, calls, answers + [answer], i) == SoundAt(s, calls, answers, i)
  {
    LatestPrefix(s, calls, answers, answer, i);
    assert (answers + [answer])[i] == answers[i];
  }

  lemma {:induction false} GoodStep(s: Setup, calls: seq<Call>, answers: seq<Answer>, answer: Answer, before: Option<Secret>, more: seq<Answer>)
    requires Good(s, calls, answers) && |answers| < |calls| && more == answers + [answer]
    requires before == Latest(s, calls, answers, |answers|)
    requires Sound(s, before, calls[|answers|], answer)
    ensures Good(s, calls, more)
    ensures Latest(s, calls, more, |more|) == InForce(s, before, calls[|answers|], answer.err)
  {
    forall i | 0 <= i < |answers| ensures SoundAt(s, calls, more, i) == SoundAt(s, calls, answers, i) {
      SoundAtPrefix(s, calls, answers, answer, i);
    }
    LatestPrefix(s, calls, answers, answer, |answers|);
    assert SoundAt(s, calls, more, |answers|) == Sound(s, before, calls[|answers|], answer);
  }

  /** In every run, whatever fails, each answer is right for the secret of the last `set_secret`. */
  method RunCalls(isNamed: bool, named: Group, width: nat, floor: nat, calls: seq<Call>) returns (answers: seq<Answer>)
    requires floor > 0
    ensures |answers| == |calls| && Good(Setup(isNamed, named, width), calls, answers)
  {
    var ctx := new DhCtx(isNamed, named, width, floor);
    var s := Setup(isNamed, named, width);
    answers := [];
    while |answers| < |calls|
      invariant ctx.Valid() && s == Setup(ctx.isNamed, ctx.named, ctx.width)
      invariant fresh(ctx) && (ctx.privKey != null ==> fresh(ctx.privKey)) && (ctx.pubKey != null ==> fresh(ctx.pubKey))
      invariant Good(s, calls, answers) && ctx.secret == Latest(s, calls, answers, |answers|)
      decreases |calls| - |answers|
    {
      ghost var before := ctx.secret;
      var answer := Dispatch(ctx, s, calls[|answers|]);
      var more := answers + [answer];
      GoodStep(s, calls, answers, answer, before, more);
      answers := more;
    }
  }

  /** The last `set_secret` before call `n`, and what is in force after it. */
  lemma {:induction false} LatestIs(s: Setup, calls: seq<Call>, answers: seq<Answer>, j: nat, n: nat)
    requires j < n <= |calls| && n <= |answers| && calls[j].SetSecret?
    requires forall i :: j < i < n ==> !calls[i].SetSecret?
    ensures answers[j].err != 0 ==> Latest(s, calls, answers, n) == None
    ensures answers[j].err == 0 && !s.isNamed ==> Latest(s, calls, answers, n) == DhSecretOf(calls[j].buf)
    ensures answers[j].err == 0 && s.isNamed ==> Latest(s, calls, answers, n) == FfdheSecretOf(calls[j].buf, s.named, calls[j].luck.drawn)
  {
    if j + 1 < n { LatestIs(s, calls, answers, j, n - 1); }
  }

  /** In every run, a successful `gen_pub` after a "dh" secret leaves bytes in front of the
      destination that read as the generator raised to the private value, modulo the prime. */
  lemma {:induction false} PublicKeyOfRun(s: Setup, calls: seq<Call>, answers: seq<Answer>, j: nat, n: nat, key: seq<byte>, p: seq<byte>, g: seq<byte>, len: nat)
    requires Good(s, calls, answers) && j < n < |answers| && !s.isNamed
    requires 16 + |key| + |p| + |g| < TWO16 && calls[j].SetSecret? && calls[j].buf == Some(Pack(key, p, g)) && answers[j].err == 0
    requires forall i :: j < i < n ==> !calls[i].SetSecret?
    requires calls[n].GenPub? && answers[n].err == 0
    requires FromBE(p) > 0 && len == |ToBE(Power(FromBE(g), FromBE(key)) % FromBE(p))|
    ensures calls[n].dst.Some? && len <= |answers[n].dst| == |calls[n].dst.value|
    ensures FromBE(answers[n].dst[..len]) == Power(FromBE(g), FromBE(key)) % FromBE(p)
    ensures answers[n].dst[len..] == calls[n].dst.value[len..]
  {
    LatestIs(s, calls, answers, j, n);
    PackedDhSecret(key, p, g);
    assert SoundAt(s, calls, answers, j);
    assert SoundAt(s, calls, answers, n);
    PublicKeyBytes(s, Secret(Group(FromBE(p), FromBE(g)), FromBE(key), false), calls[n], answers[n], len);
  }

  /** The bytes of one successful answer for an imported secret. */
  lemma {:induction false} PublicKeyBytes(s: Setup, secret: Secret, call: Call, answer: Answer, len: nat)
    requires Sound(s, Some(secret), call, answer) && call.GenPub? && answer.err == 0 && !secret.generated
    requires secret.group.p > 0 && len == |ToBE(PublicValue(secret.group, secret.x))|
    ensures call.dst.Some? && len <= |answer.dst| == |call.dst.value|
    ensures FromBE(answer.dst[..len]) == PublicValue(secret.group, secret.x)
    ensures answer.dst[len..] == call.dst.value[len..]
  {
    EncodedValue(secret, s.width);
    assert answer.dst[..len] == Encoded(secret, s.width);
  }

  /** In every run, what an answer of `gen_pub` says of the secret in force: the public value stands
      in front of the destination, or the destination is too short and is told the length. */
  lemma {:induction false} PublicKeyAnswer(s: Setup, calls: seq<Call>, answers: seq<Answer>, n: nat, secret: Secret, k: nat)
    requires Good(s, calls, answers) && n < |answers| && calls[n].GenPub? && answers[n].err != -EINVAL
    requires Latest(s, calls, answers, n) == Some(secret)
    requires secret.group.p > 0 ==> k == |Encoded(secret, s.width)|
    ensures secret.group.p > 0 && calls[n].dst.Some? && |answers[n].dst| == |calls[n].dst.value|
    ensures answers[n].err == 0 ==>
              k <= |answers[n].dst| && FromBE(answers[n].dst[..k]) == Power(secret.group.g, secret.x) % secret.group.p
    ensures answers[n].err != 0 ==>
              answers[n].err == -EOVERFLOW && answers[n].dst == calls[n].dst.value && answers[n].needed == k > |answers[n].dst|
  {
    assert SoundAt(s, calls, answers, n);
    EncodedValue(secret, s.width);
    if answers[n].err == 0 { assert answers[n].dst[..k] == Encoded(secret, s.width); }
  }

  /** And what a successful shared secret says: the peer's value raised to the private value. */
  lemma {:induction false} SharedAnswer(s: Setup, calls: seq<Call>, answers: seq<Answer>, n: nat, secret: Secret, z: nat, k: nat)
    requires Good(s, calls, answers) && n < |answers| && calls[n].Shared? && answers[n].err == 0
    requires Latest(s, calls, answers, n) == Some(secret) && calls[n].src.Some?
    requires secret.group.p > 0 ==> z == Power(FromBE(calls[n].src.value), secret.x) % secret.group.p && k == |ToBE(z)|
    ensures secret.group.p > 0 && k <= |answers[n].dst| && FromBE(answers[n].dst[..k]) == z
  {
    assert SoundAt(s, calls, answers, n);
    FromToBE(z);
    assert answers[n].dst[..k] == ToBE(z);
  }

  /** In every run, after a failed `set_secret`, or before any, no key answers. */
  lemma {:induction false} NoKeyAnswers(s: Setup, calls: seq<Call>, answers: seq<Answer>, n: nat)
    requires Good(s, calls, answers) && n < |answers| && (calls[n].GenPub? || calls[n].Shared?)
    requires Latest(s, calls, answers, n) == None
    ensures answers[n].err == -EINVAL
  {
    assert SoundAt(s, calls, answers, n);
  }

  /** "A secret that was accepted yields a public key" is false of a named context. With a
      library that does not fail, it holds exactly when the context still had a key or
      the parameters of its group before the call. */
  method ImportThenGenPub(ctx: DhCtx, key: seq<byte>, luck: Luck, attempt: Attempt) returns (accepted: int, got: int)
    requires ctx.Valid() && ctx.isNamed && ctx.floor <= ctx.named.p && |ToBE(ctx.named.p)| <= ctx.width
    requires 0 < FromBE(key) && 16 + |key| < TWO16 && |ToBE(FromBE(key))| <= ctx.width
    requires luck.initKey && luck.setNamed && luck.mallocPriv && luck.mallocPub && luck.importKey && luck.exportKey && attempt.ok
    modifies ctx, ctx.privKey
    ensures accepted == 0 && ctx.Valid() && ctx.secret == Some(Secret(ctx.named, FromBE(key), false))
    ensures got == 0 || got == -EINVAL
    ensures got == 0 <==> old(ctx.secret).Some? || old(ctx.group) == ctx.named
  {
    DecodePack(key, [], []);
    var buf := Some(Pack(key, [], []));
    accepted := ctx.FfdheSetSecret(buf, luck, attempt);
    FromToBE(0);
    EncodedFits(ctx.secret.value, ctx.width);
    var dst := new byte[ctx.width](_ => 0);
    var needed;
    got, needed := ctx.GenPub(false, dst, attempt);
  }

  /** The failing case: an earlier `set_secret` that could not initialise the library key again
      leaves it blank, and the next one, seeing no private key, does not try. */
  method AcceptedButUnusable(ctx: DhCtx, key: seq<byte>, luck: Luck, attempt: Attempt) returns (first: int, accepted: int, got: int)
    requires ctx.Valid() && ctx.isNamed && ctx.secret.Some? && ctx.floor <= ctx.named.p && |ToBE(ctx.named.p)| <= ctx.width
    requires 0 < FromBE(key) && 16 + |key| < TWO16 && |ToBE(FromBE(key))| <= ctx.width
    requires luck.initKey && luck.setNamed && luck.mallocPriv && luck.mallocPub && luck.importKey && luck.exportKey && attempt.ok
    modifies ctx, ctx.privKey
    ensures first == -ENOMEM && accepted == 0 && got == -EINVAL
  {
    first := ctx.FfdheSetSecret(None, luck.(initKey := false), attempt);
    accepted, got := ImportThenGenPub(ctx, key, luck, attempt);
  }

  lemma {:induction false} Padded(was: seq<byte>, moved: seq<byte>, now: seq<byte>, pad: nat, len: nat)
    requires |was| == pad + len
    requires moved == Splice(was, pad, was[0..0 + len])
    requires now == Splice(moved, 0, seq(pad, _ => 0))
    ensures now == now[..pad + len] == Zeros(pad) + was[..len]
  {
  }
}
