/** Bytes, little-endian words and bitwise exclusive-or, shared by the models. */
module Bytes {

  type byte = x: int | 0 <= x < 256

  const TWO16 := 0x1_0000
  const TWO32 := 0x1_0000_0000
  const TWO64 := 0x1_0000_0000_0000_0000

  /** `s` with the bytes from `at` on replaced by `patch`. */
  function Splice<T>(s: seq<T>, at: nat, patch: seq<T>): (r: seq<T>)
    requires at + |patch| <= |s|
    ensures |r| == |s|
    ensures forall p :: 0 <= p < |s| ==> r[p] == if at <= p < at + |patch| then patch[p - at] else s[p]
  {
    seq(|s|, p requires 0 <= p < |s| => if at <= p < at + |patch| then patch[p - at] else s[p])
  }

  lemma {:induction false} SubSlice<T>(s: seq<T>, lo: nat, hi: nat, a: nat, b: nat)
    requires lo <= a <= b <= hi <= |s|
    ensures s[a..b] == s[lo..hi][a - lo..b - lo]
  {
    var t := s[lo..hi];
    var u := t[a - lo..b - lo];
    assert forall i :: 0 <= i < b - a ==> u[i] == t[a - lo + i];
  }

  /** Writing two adjacent runs is writing their concatenation. */
  lemma {:induction false} SpliceAppend<T>(s: seq<T>, at: nat, a: seq<T>, b: seq<T>)
    requires at + |a| + |b| <= |s|
    ensures Splice(Splice(s, at, a), at + |a|, b) == Splice(s, at, a + b)
  {
    var x, y := Splice(Splice(s, at, a), at + |a|, b), Splice(s, at, a + b);
    assert forall p :: 0 <= p < |s| ==> x[p] == y[p];
  }

  /** What was written reads back. */
  lemma {:induction false} SpliceReads<T>(s: seq<T>, at: nat, patch: seq<T>)
    requires at + |patch| <= |s|
    ensures Splice(s, at, patch)[at..at + |patch|] == patch
  {
  }

  /** A second write to the same place replaces the first. */
  lemma {:induction false} SpliceAgain<T>(s: seq<T>, at: nat, a: seq<T>, b: seq<T>)
    requires at + |a| <= |s| && |a| == |b|
    ensures Splice(Splice(s, at, a), at, b) == Splice(s, at, b)
  {
    var x, y := Splice(Splice(s, at, a), at, b), Splice(s, at, b);
    assert forall p :: 0 <= p < |s| ==> x[p] == y[p];
  }

  function Pow2(n: nat): (p: nat)
    ensures p >= 1
  {
    if n == 0 then 1 else 2 * Pow2(n - 1)
  }

  /** The number whose little-endian bytes are `s`. */
  function FromLE(s: seq<byte>): (v: nat) {
    if s == [] then 0 else s[0] + 256 * FromLE(s[1..])
  }

  /** The low `k` bytes of `v`, little-endian. */
  function ToLE(v: nat, k: nat): (s: seq<byte>)
    ensures |s| == k
  {
    if k == 0 then [] else [v % 256] + ToLE(v / 256, k - 1)
  }

  function Xor(a: nat, b: nat): (c: nat) {
    if a == 0 && b == 0 then 0
    else (if a % 2 == b % 2 then 0 else 1) + 2 * Xor(a / 2, b / 2)
  }

  lemma {:induction false} Pow2Eight()
    ensures Pow2(8) == 256
  {
    assert Pow2(4) == 16;
    Pow2Add(4, 4);
  }

  lemma {:induction false} Pow2Values()
    ensures Pow2(8) == 256
    ensures Pow2(16) == TWO16
    ensures Pow2(24) == 0x100_0000
    ensures Pow2(32) == TWO32
    ensures Pow2(64) == TWO64
  {
    Pow2Eight();
    Pow2Add(8, 8);
    Pow2Add(16, 8);
    Pow2Add(16, 16);
    Pow2Add(32, 32);
  }

  lemma {:induction false} Pow2Add(m: nat, n: nat)
    ensures Pow2(m + n) == Pow2(m) * Pow2(n)
  {
    if m > 0 {
      Pow2Add(m - 1, n);
      assert Pow2(m + n) == 2 * Pow2(m - 1 + n);
      assert Pow2(m - 1) * Pow2(n) * 2 == Pow2(m) * Pow2(n);
    }
  }

  /** Reducing modulo `2 * p` keeps the low bit and reduces the rest modulo `p`. */
  lemma {:induction false} ModHalf(a: nat, p: nat)
    requires p > 0
    ensures a % (2 * p) == a % 2 + 2 * (a / 2 % p)
  {
    var h := a / 2;
    var q, r := h / p, h % p;
    assert h == q * p + r;
    assert a == q * (2 * p) + (a % 2 + 2 * r);
    DivModUnique(a, 2 * p, q, a % 2 + 2 * r);
  }

  /** Dropping to the low `n + 1` bits: the low bit, then the low `n` bits of the half. */
  lemma {:induction false} ModPow2Step(a: nat, n: nat)
    ensures a % Pow2(n + 1) == a % 2 + 2 * (a / 2 % Pow2(n))
    ensures a % Pow2(n + 1) % 2 == a % 2 && a % Pow2(n + 1) / 2 == a / 2 % Pow2(n)
  {
    ModHalf(a, Pow2(n));
    EvenOdd(a % 2, a / 2 % Pow2(n));
  }

  lemma {:induction false} EvenOdd(bit: nat, half: nat)
    requires bit < 2
    ensures (bit + 2 * half) % 2 == bit && (bit + 2 * half) / 2 == half
  {
  }

  lemma {:induction false} MulStep(x: nat, y: nat, d: nat)
    requires x < y
    ensures x * d + d <= y * d
  {
    assert y * d == (x + 1) * d + (y - x - 1) * d;
    assert (x + 1) * d == x * d + d;
  }

  lemma {:induction false} DivModUnique(a: nat, d: nat, q: nat, r: nat)
    requires r < d
    requires a == q * d + r
    ensures a % d == r && a / d == q
  {
    var p := a / d;
    if p < q {
      MulStep(p, q, d);
    } else if q < p {
      MulStep(q, p, d);
    }
  }

  lemma {:induction false} XorSplit(a: nat, b: nat)
    ensures Xor(a, b) % 2 == if a % 2 == b % 2 then 0 else 1
    ensures Xor(a, b) / 2 == Xor(a / 2, b / 2)
  {
  }

  lemma {:induction false} SameHalves(v: nat, w: nat)
    requires v % 2 == w % 2 && v / 2 == w / 2
    ensures v == w
  {
  }

  /** Exclusive-or acts on each low-bit window separately. */
  lemma {:induction false} XorMod(a: nat, b: nat, n: nat)
    ensures Xor(a, b) % Pow2(n) == Xor(a % Pow2(n), b % Pow2(n))
    decreases n
  {
    if n > 0 {
      XorMod(a / 2, b / 2, n - 1);
      XorModStep(a, b, n - 1, a % Pow2(n), b % Pow2(n), Xor(a, b) % Pow2(n));
    }
  }

  lemma {:induction false} XorModStep(a: nat, b: nat, n: nat, am: nat, bm: nat, xm: nat)
    requires am == a % Pow2(n + 1) && bm == b % Pow2(n + 1) && xm == Xor(a, b) % Pow2(n + 1)
    requires Xor(a / 2, b / 2) % Pow2(n) == Xor(a / 2 % Pow2(n), b / 2 % Pow2(n))
    ensures xm == Xor(am, bm)
  {
    ModPow2Step(a, n);
    ModPow2Step(b, n);
    ModPow2Step(Xor(a, b), n);
    XorSplit(a, b);
    XorSplit(am, bm);
    SameHalves(xm, Xor(am, bm));
  }

  /** Xoring in bits that lie wholly above `a` adds them. */
  lemma {:induction false} XorHigh(a: nat, h: nat, n: nat)
    requires a < Pow2(n)
    ensures Xor(a, h * Pow2(n)) == a + h * Pow2(n)
    decreases n
  {
    if n == 0 {
      XorZero(h);
    } else {
      var b := h * Pow2(n);
      assert b == 2 * (h * Pow2(n - 1));
      assert b % 2 == 0 && b / 2 == h * Pow2(n - 1);
      XorHigh(a / 2, h, n - 1);
    }
  }

  lemma {:induction false} XorZero(h: nat)
    ensures Xor(0, h) == h
  {
    if h > 0 { XorZero(h / 2); }
  }

  /** Reducing modulo `256 * m` keeps the low byte and reduces the rest modulo `m`. */
  lemma {:induction false} ModByteStep(v: nat, m: nat)
    requires m > 0
    ensures v % (256 * m) == v % 256 + 256 * (v / 256 % m)
  {
    var h := v / 256;
    var q, r := h / m, h % m;
    assert h == q * m + r;
    assert v == q * (256 * m) + (v % 256 + 256 * r);
    DivModUnique(v, 256 * m, q, v % 256 + 256 * r);
  }

  lemma {:induction false} Pow2Byte(k: nat)
    requires k > 0
    ensures Pow2(8 * k) == 256 * Pow2(8 * (k - 1))
  {
    var n := 8 * (k - 1);
    Pow2Add(8, n);
    Pow2Eight();
    assert 8 * k == 8 + n;
  }

  lemma {:induction false} ToLEMod(v: nat, k: nat)
    ensures ToLE(v, k) == ToLE(v % Pow2(8 * k), k)
    decreases k
  {
    if k > 0 {
      var m := Pow2(8 * (k - 1));
      Pow2Byte(k);
      ModByteStep(v, m);
      ToLEMod(v / 256, k - 1);
      ToLECons(v % (256 * m), k, v % 256, v / 256 % m);
    }
  }

  lemma {:induction false} ToLECons(w: nat, k: nat, low: byte, high: nat)
    requires k > 0 && w == low + 256 * high
    ensures ToLE(w, k) == [low] + ToLE(high, k - 1)
  {
    assert w % 256 == low && w / 256 == high;
  }

  lemma {:induction false} FromToLE(v: nat, k: nat)
    ensures FromLE(ToLE(v, k)) == v % Pow2(8 * k)
    decreases k
  {
    if k > 0 {
      Pow2Byte(k);
      ModByteStep(v, Pow2(8 * (k - 1)));
      FromToLE(v / 256, k - 1);
      assert ToLE(v, k)[1..] == ToLE(v / 256, k - 1);
    }
  }

  lemma {:induction false} FromLEBound(s: seq<byte>)
    ensures FromLE(s) < Pow2(8 * |s|)
  {
    if s != [] {
      FromLEBound(s[1..]);
      Pow2Byte(|s|);
    }
  }

  /** Two words that agree in their low `k` bytes still do after a common tag is xored in. */
  lemma {:induction false} ToLEXorCong(v: nat, w: nat, tag: nat, k: nat)
    requires v % Pow2(8 * k) == w % Pow2(8 * k)
    ensures ToLE(Xor(v, tag), k) == ToLE(Xor(w, tag), k)
  {
    XorMod(v, tag, 8 * k);
    XorMod(w, tag, 8 * k);
    ToLEMod(Xor(v, tag), k);
    ToLEMod(Xor(w, tag), k);
  }

  lemma {:induction false} XorComm(a: nat, b: nat)
    ensures Xor(a, b) == Xor(b, a)
  {
    if a != 0 || b != 0 { XorComm(a / 2, b / 2); }
  }

  lemma {:induction false} MulDouble(x: nat, p: nat, q: nat)
    requires q == 2 * p
    ensures x * p >= 0 && x * q >= 0 && x * q == 2 * (x * p)
  {
  }

  lemma {:induction false} XorEven(a: nat, x: nat, y: nat)
    ensures Xor(a + 2 * x, 2 * y) == a % 2 + 2 * Xor(a / 2 + x, y)
  {
    assert (a + 2 * x) % 2 == a % 2 && (a + 2 * x) / 2 == a / 2 + x;
    assert (2 * y) % 2 == 0 && (2 * y) / 2 == y;
    XorSplit(a + 2 * x, 2 * y);
  }

  lemma {:induction false} XorDouble(a: nat, x: nat, y: nat, z: nat, xx: nat, yy: nat, zz: nat)
    requires xx == 2 * x && yy == 2 * y && zz == 2 * z
    requires Xor(a / 2 + x, y) == a / 2 + z
    ensures Xor(a + xx, yy) == a + zz
  {
    XorEven(a, x, y);
  }

  /** The low `n` bits pass through when the other operand has none there. */
  lemma {:induction false} XorAligned(a: nat, x: nat, y: nat, n: nat)
    requires a < Pow2(n)
    ensures Xor(a + x * Pow2(n), y * Pow2(n)) == a + Xor(x, y) * Pow2(n)
    decreases n
  {
    if n > 0 {
      var z, p, q := Xor(x, y), Pow2(n - 1), Pow2(n);
      XorAligned(a / 2, x, y, n - 1);
      MulDouble(x, p, q);
      MulDouble(y, p, q);
      MulDouble(z, p, q);
      XorDouble(a, x * p, y * p, z * p, x * q, y * q, z * q);
    }
  }

  lemma {:induction false} ToLEInjective(x: nat, y: nat, k: nat)
    requires x < Pow2(8 * k) && y < Pow2(8 * k) && ToLE(x, k) == ToLE(y, k)
    ensures x == y
  {
    FromToLE(x, k);
    FromToLE(y, k);
    DivModUnique(x, Pow2(8 * k), 0, x);
    DivModUnique(y, Pow2(8 * k), 0, y);
  }

  lemma {:induction false} FromLECons(b: byte, rest: seq<byte>)
    ensures FromLE([b] + rest) == b + 256 * FromLE(rest)
  {
    assert ([b] + rest)[1..] == rest;
  }

  /** The byte order, spelled out: four bytes, with more behind them or not. */
  lemma {:induction false} LittleEndian(a: byte, b: byte, c: byte, d: byte, rest: seq<byte>)
    ensures FromLE([a, b, c, d] + rest) == (a as int) + 0x100 * (b as int) + 0x1_0000 * (c as int) + 0x100_0000 * (d as int) + TWO32 * FromLE(rest)
  {
    FromLECons(d, rest);
    FromLECons(c, [d] + rest);
    FromLECons(b, [c] + ([d] + rest));
    FromLECons(a, [b] + ([c] + ([d] + rest)));
    assert [a, b, c, d] + rest == [a] + ([b] + ([c] + ([d] + rest)));
  }

  /** Exclusive-or of two numbers shifted up together. */
  lemma {:induction false} XorScaled(x: nat, y: nat, n: nat, p: nat)
    requires p == Pow2(n)
    ensures Xor(x * p, y * p) == Xor(x, y) * p
  {
    XorAligned(0, x, y, n);
    assert 0 + x * p == x * p;
  }

  lemma {:induction false} XorAssoc(a: nat, b: nat, c: nat)
    ensures Xor(Xor(a, b), c) == Xor(a, Xor(b, c))
  {
    if a != 0 || b != 0 || c != 0 {
      XorAssoc(a / 2, b / 2, c / 2);
      XorSplit(a, b);
      XorSplit(b, c);
      XorSplit(Xor(a, b), c);
      XorSplit(a, Xor(b, c));
      SameHalves(Xor(Xor(a, b), c), Xor(a, Xor(b, c)));
    }
  }

  /** Exclusive-or stays within the bits of its operands. */
  lemma {:induction false} XorBound(a: nat, b: nat, n: nat)
    requires a < Pow2(n) && b < Pow2(n)
    ensures Xor(a, b) < Pow2(n)
  {
    XorMod(a, b, n);
    DivModUnique(a, Pow2(n), 0, a);
    DivModUnique(b, Pow2(n), 0, b);
  }
}
