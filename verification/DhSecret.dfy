/** Big-endian numbers, the Diffie-Hellman values, and the packed secret handed to `set_secret`. */
module DhSecret {
  import opened Common
  import opened Bytes

  /** The number whose big-endian bytes are `s`. */
  function FromBE(s: seq<byte>): (v: nat) {
    if s == [] then 0 else 256 * FromBE(s[..|s| - 1]) + s[|s| - 1]
  }

  /** The shortest big-endian bytes of `v`; none for zero. */
  function ToBE(v: nat): (s: seq<byte>) {
    if v == 0 then [] else ToBE(v / 256) + [v % 256]
  }

  function Zeros(n: nat): (s: seq<byte>)
    ensures |s| == n
  {
    seq(n, _ => 0)
  }

  lemma {:induction false} FromToBE(v: nat)
    ensures FromBE(ToBE(v)) == v
  {
    if v > 0 {
      FromToBE(v / 256);
      assert (ToBE(v / 256) + [v % 256])[..|ToBE(v)| - 1] == ToBE(v / 256);
    }
  }

  /** A smaller number has no longer bytes. */
  lemma {:induction false} ToBEMonotone(v: nat, w: nat)
    requires v <= w
    ensures |ToBE(v)| <= |ToBE(w)|
  {
    if v > 0 { ToBEMonotone(v / 256, w / 256); }
  }

  /** Leading zeros keep the value. */
  lemma {:induction false} PaddedValue(n: nat, s: seq<byte>)
    ensures FromBE(Zeros(n) + s) == FromBE(s)
  {
    if s == [] {
      assert Zeros(n) + s == Zeros(n);
      ZeroValue(n);
    } else {
      PaddedValue(n, s[..|s| - 1]);
      assert (Zeros(n) + s)[..n + |s| - 1] == Zeros(n) + s[..|s| - 1];
    }
  }

  lemma {:induction false} ZeroValue(n: nat)
    ensures FromBE(Zeros(n)) == 0
  {
    if n > 0 {
      ZeroValue(n - 1);
      assert Zeros(n)[..n - 1] == Zeros(n - 1);
    }
  }

  /** Bytes left standing behind a nonzero number change what the whole buffer reads as. */
  lemma {:induction false} TrailingValue(s: seq<byte>, rest: seq<byte>)
    requires FromBE(s) > 0
    ensures FromBE(s + rest) == FromBE(s) <==> rest == []
    ensures FromBE(s + rest) >= FromBE(s)
  {
    if rest == [] {
      assert s + rest == s;
    } else {
      var most := rest[..|rest| - 1];
      TrailingValue(s, most);
      assert (s + rest)[..|s| + |rest| - 1] == s + most;
    }
  }

  function Power(g: nat, x: nat): (v: nat) {
    if x == 0 then 1 else g * Power(g, x - 1)
  }

  /** A number has more than `n` bytes exactly when it is at least 256 to the power `n`. */
  lemma {:induction false} ToBELength(v: nat, n: nat)
    ensures |ToBE(v)| > n <==> Power(256, n) <= v
    decreases n
  {
    if n > 0 {
      ToBELength(v / 256, n - 1);
      PowerPositive(256, n - 1);
      ScaledBound(Power(256, n - 1), v);
    } else {
      assert Power(256, 0) == 1;
    }
  }

  lemma {:induction false} ScaledBound(m: nat, v: nat)
    requires m > 0
    ensures 256 * m <= v <==> v > 0 && m <= v / 256
  {
  }

  lemma {:induction false} PowerPositive(g: nat, x: nat)
    requires g > 0
    ensures Power(g, x) > 0
  {
    if x > 0 { PowerPositive(g, x - 1); }
  }

  /** The prime and the generator. The blank group stands for a key without parameters. */
  datatype Group = Group(p: nat, g: nat)

  /** `base` raised to the private value, in the group. */
  function Raise(group: Group, base: nat, x: nat): (v: nat)
    requires group.p > 0
  {
    Power(base, x) % group.p
  }

  function PublicValue(group: Group, x: nat): (v: nat)
    requires group.p > 0
  {
    Raise(group, group.g, x)
  }

  lemma {:induction false} PowerMod(base: nat, x: nat, p: nat)
    requires p > 0
    ensures Power(base % p, x) % p == Power(base, x) % p
  {
    if x > 0 {
      PowerMod(base, x - 1, p);
      DivModUnique(base % p, p, 0, base % p);
      MulMod(base % p, Power(base % p, x - 1), base, Power(base, x - 1), p);
    }
  }

  /** Products of congruent numbers are congruent. */
  lemma {:induction false} MulMod(a: nat, b: nat, c: nat, d: nat, p: nat)
    requires p > 0 && a % p == c % p && b % p == d % p
    ensures (a * b) % p == (c * d) % p
  {
    MulModRight(a, b, p);
    MulModRight(c, d, p);
    MulModRight(b % p, a, p);
    MulModRight(d % p, c, p);
    assert a * (b % p) == (b % p) * a && c * (d % p) == (d % p) * c;
  }

  lemma {:induction false} MulModRight(a: nat, b: nat, p: nat)
    requires p > 0
    ensures (a * b) % p == (a * (b % p)) % p
  {
    var q := b / p;
    assert b == q * p + b % p;
    assert a * b == (a * q) * p + a * (b % p) by {
      assert a * (q * p) == (a * q) * p;
    }
    AddMultiple(a * (b % p), a * q, p);
  }

  lemma {:induction false} AddMultiple(r: nat, k: nat, p: nat)
    requires p > 0
    ensures (k * p + r) % p == r % p
  {
    if k > 0 {
      AddMultiple(r, k - 1, p);
      assert k * p + r == ((k - 1) * p + r) + p;
      AddOne((k - 1) * p + r, p);
    }
  }

  lemma {:induction false} AddOne(m: nat, p: nat)
    requires p > 0
    ensures (m + p) % p == m % p
  {
    var q := m / p;
    assert m + p == (q + 1) * p + m % p;
    DivModUnique(m + p, p, q + 1, m % p);
  }

  lemma {:induction false} PowerAdd(g: nat, x: nat, y: nat)
    ensures Power(g, x + y) == Power(g, x) * Power(g, y)
  {
    if x > 0 {
      PowerAdd(g, x - 1, y);
      assert g * (Power(g, x - 1) * Power(g, y)) == (g * Power(g, x - 1)) * Power(g, y);
    }
  }

  lemma {:induction false} PowerPower(g: nat, x: nat, y: nat)
    ensures Power(Power(g, x), y) == Power(g, x * y)
  {
    if y > 0 {
      PowerPower(g, x, y - 1);
      PowerAdd(g, x, x * (y - 1));
      assert x + x * (y - 1) == x * y;
    }
  }

  /** Both parties reach the same shared secret. */
  lemma {:induction false} SharedSecretsAgree(group: Group, a: nat, b: nat)
    requires group.p > 0
    ensures Raise(group, PublicValue(group, a), b) == Raise(group, PublicValue(group, b), a)
  {
    PowerMod(Power(group.g, a), b, group.p);
    PowerMod(Power(group.g, b), a, group.p);
    PowerPower(group.g, a, b);
    PowerPower(group.g, b, a);
    assert a * b == b * a;
  }

  /** What `km_dh_decode_secret` leaves in `params`: three sizes, and pointers that stay null
      when the fields they would point at are not usable. */
  datatype Params = Params(keySize: nat, pSize: nat, gSize: nat,
                           key: Option<seq<byte>>, p: Option<seq<byte>>, g: Option<seq<byte>>)

  const MIN_SIZE: nat := 16
  const SECRET_TYPE_DH: nat := 1

  /** The packed layout: type, total length, the three sizes, then the three fields. */
  function Pack(key: seq<byte>, p: seq<byte>, g: seq<byte>): (buf: seq<byte>)
    ensures |buf| == 16 + |key| + |p| + |g|
  {
    Header(SECRET_TYPE_DH, 16 + |key| + |p| + |g|, |key|, |p|, |g|) + key + p + g
  }

  function Header(kind: nat, total: nat, a: nat, b: nat, c: nat): (h: seq<byte>)
    ensures |h| == 16
  {
    ToLE(kind, 2) + ToLE(total, 2) + ToLE(a, 4) + ToLE(b, 4) + ToLE(c, 4)
  }

  function Decode(buf: seq<byte>): (r: Option<Params>) {
    if |buf| < MIN_SIZE then None
    else if FromLE(buf[0..2]) != SECRET_TYPE_DH then None
    else
      var total := FromLE(buf[2..4]);
      var keySize, pSize, gSize := FromLE(buf[4..8]), FromLE(buf[8..12]), FromLE(buf[12..16]);
      var expected := MIN_SIZE + keySize + pSize + gSize;
      if total != expected || |buf| != expected then None
      else if keySize == 0 then Some(Params(keySize, pSize, gSize, None, None, None))
      else
        var key := Some(buf[16..16 + keySize]);
        if pSize == 0 || gSize == 0 then Some(Params(keySize, pSize, gSize, key, None, None))
        else
          var at := 16 + keySize;
          Some(Params(keySize, pSize, gSize, key, Some(buf[at..at + pSize]), Some(buf[at + pSize..at + pSize + gSize])))
  }

  /** The pointers that the decoder fills in for these fields. */
  function Unpacked(key: seq<byte>, p: seq<byte>, g: seq<byte>): (r: Params) {
    var all := key != [] && p != [] && g != [];
    Params(|key|, |p|, |g|, if key == [] then None else Some(key), if all then Some(p) else None, if all then Some(g) else None)
  }

  lemma {:induction false} ToFromLE(s: seq<byte>)
    ensures ToLE(FromLE(s), |s|) == s
  {
    if s != [] {
      ToFromLE(s[1..]);
      DivModUnique(FromLE(s), 256, FromLE(s[1..]), s[0]);
    }
  }

  /** A number that fits its field reads back. */
  lemma {:induction false} FieldReads(v: nat, k: nat)
    requires (k == 2 && v < TWO16) || (k == 4 && v < TWO32)
    ensures FromLE(ToLE(v, k)) == v
  {
    Pow2Values();
    FromToLE(v, k);
    DivModUnique(v, Pow2(8 * k), 0, v);
  }

  lemma {:induction false} Parts(u: seq<byte>, v: seq<byte>, w: seq<byte>, x: seq<byte>, y: seq<byte>, h: seq<byte>)
    requires |u| == 2 && |v| == 2 && |w| == 4 && |x| == 4 && |y| == 4
    requires h == u + v + w + x + y
    ensures h[0..2] == u && h[2..4] == v && h[4..8] == w && h[8..12] == x && h[12..16] == y
  {
  }

  /** The three sizes and the two header words of a buffer. */
  predicate HeaderReads(buf: seq<byte>, kind: nat, total: nat, a: nat, b: nat, c: nat)
    requires |buf| >= 16
  {
    FromLE(buf[0..2]) == kind && FromLE(buf[2..4]) == total &&
    FromLE(buf[4..8]) == a && FromLE(buf[8..12]) == b && FromLE(buf[12..16]) == c
  }

  /** A header is the only sixteen bytes that read as its numbers. */
  lemma {:induction false} HeaderIff(buf: seq<byte>, kind: nat, total: nat, a: nat, b: nat, c: nat)
    requires |buf| >= 16 && kind < TWO16 && total < TWO16 && a < TWO32 && b < TWO32 && c < TWO32
    ensures HeaderReads(buf, kind, total, a, b, c) <==> buf[..16] == Header(kind, total, a, b, c)
  {
    var h := Header(kind, total, a, b, c);
    Parts(ToLE(kind, 2), ToLE(total, 2), ToLE(a, 4), ToLE(b, 4), ToLE(c, 4), h);
    FieldReads(kind, 2);
    FieldReads(total, 2);
    FieldReads(a, 4);
    FieldReads(b, 4);
    FieldReads(c, 4);
    Sixteen(buf);
    SubSlice(buf, 0, 16, 0, 2);
    SubSlice(buf, 0, 16, 2, 4);
    SubSlice(buf, 0, 16, 4, 8);
    SubSlice(buf, 0, 16, 8, 12);
    SubSlice(buf, 0, 16, 12, 16);
    if HeaderReads(buf, kind, total, a, b, c) {
      ToFromLE(buf[0..2]);
      ToFromLE(buf[2..4]);
      ToFromLE(buf[4..8]);
      ToFromLE(buf[8..12]);
      ToFromLE(buf[12..16]);
    }
  }

  lemma {:induction false} Sixteen(buf: seq<byte>)
    requires |buf| >= 16
    ensures buf[..16] == buf[0..16] == buf[0..2] + buf[2..4] + buf[4..8] + buf[8..12] + buf[12..16]
  {
  }

  lemma {:induction false} PackSlices(key: seq<byte>, p: seq<byte>, g: seq<byte>, buf: seq<byte>)
    requires buf == Pack(key, p, g)
    ensures buf[..16] == Header(SECRET_TYPE_DH, |buf|, |key|, |p|, |g|)
    ensures buf[16..16 + |key|] == key
    ensures buf[16 + |key|..16 + |key| + |p|] == p
    ensures buf[16 + |key| + |p|..16 + |key| + |p| + |g|] == g
  {
  }

  /** Every packed secret that fits the 16-bit length field decodes to its fields. */
  lemma {:induction false} DecodePack(key: seq<byte>, p: seq<byte>, g: seq<byte>)
    requires 16 + |key| + |p| + |g| < TWO16
    ensures Decode(Pack(key, p, g)) == Some(Unpacked(key, p, g))
  {
    var buf := Pack(key, p, g);
    PackSlices(key, p, g, buf);
    HeaderIff(buf, SECRET_TYPE_DH, |buf|, |key|, |p|, |g|);
  }

  lemma {:induction false} FieldBound(s: seq<byte>)
    requires |s| == 2 || |s| == 4
    ensures FromLE(s) < if |s| == 2 then TWO16 else TWO32
  {
    FromLEBound(s);
    Pow2Values();
  }

  lemma {:induction false} Cut(buf: seq<byte>, i: nat, j: nat, k: nat)
    requires i <= j <= k <= |buf|
    ensures buf == buf[..i] + buf[i..j] + buf[j..k] + buf[k..|buf|]
  {
  }

  /** The header of a buffer that decodes. */
  lemma {:induction false} DecodedHeader(buf: seq<byte>) returns (a: nat, b: nat, c: nat)
    requires Decode(buf).Some?
    ensures |buf| == 16 + a + b + c && |buf| < TWO16 && a < TWO32 && b < TWO32 && c < TWO32
    ensures HeaderReads(buf, SECRET_TYPE_DH, |buf|, a, b, c)
  {
    a, b, c := FromLE(buf[4..8]), FromLE(buf[8..12]), FromLE(buf[12..16]);
    FieldBound(buf[2..4]);
    FieldBound(buf[4..8]);
    FieldBound(buf[8..12]);
    FieldBound(buf[12..16]);
  }

  /** Nothing else decodes. */
  lemma {:induction false} DecodeOnlyPacked(buf: seq<byte>) returns (key: seq<byte>, p: seq<byte>, g: seq<byte>)
    requires Decode(buf).Some?
    ensures |buf| < TWO16
    ensures buf == Pack(key, p, g) && Decode(buf) == Some(Unpacked(key, p, g))
  {
    var a, b, c := DecodedHeader(buf);
    key, p, g := buf[16..16 + a], buf[16 + a..16 + a + b], buf[16 + a + b..|buf|];
    HeaderIff(buf, SECRET_TYPE_DH, |buf|, a, b, c);
    Cut(buf, 16, 16 + a, 16 + a + b);
    DecodePack(key, p, g);
  }

  /** The layout of a packed secret, number by number and field by field. */
  lemma {:induction false} PackLayout(key: seq<byte>, p: seq<byte>, g: seq<byte>, buf: seq<byte>)
    requires buf == Pack(key, p, g) && |buf| < TWO16
    ensures |buf| == 16 + |key| + |p| + |g|
    ensures FromLE(buf[0..2]) == 1 && FromLE(buf[2..4]) == |buf|
    ensures FromLE(buf[4..8]) == |key| && FromLE(buf[8..12]) == |p| && FromLE(buf[12..16]) == |g|
    ensures buf[16..] == key + p + g
  {
    PackSlices(key, p, g, buf);
    HeaderIff(buf, 1, |buf|, |key|, |p|, |g|);
  }
}
