/** Block-by-block modes with a carried register, over an abstract block cipher. */
module BlockModes {

  type Block = b: seq<bv8> | |b| == 16 witness seq(16, _ => 0)

  /** A mode: what a block becomes under the present register, and the register that follows. */
  datatype Mode = Mode(out: (Block, Block) -> Block, next: (Block, Block) -> Block)

  /** A number of whole blocks. */
  predicate Aligned(n: nat) {
    n == 0 || (n >= 16 && Aligned(n - 16))
  }

  lemma {:induction false} AlignedMod(n: nat)
    ensures Aligned(n) <==> n % 16 == 0
  {
    if n >= 16 { AlignedMod(n - 16); }
  }

  lemma {:induction false} AlignedAdd(a: nat, b: nat)
    requires Aligned(a) && Aligned(b)
    ensures Aligned(a + b)
  {
    if a > 0 { AlignedAdd(a - 16, b); }
  }

  lemma {:induction false} AlignedSub(a: nat, b: nat)
    requires b <= a && Aligned(a) && Aligned(b)
    ensures Aligned(a - b)
  {
    if b > 0 { AlignedSub(a - 16, b - 16); }
  }

  /** The whole blocks of `data`, in order, under the register `reg`. */
  function Crypt(m: Mode, reg: Block, data: seq<bv8>): (r: seq<bv8>)
    ensures |r| <= |data|
    ensures Aligned(|data|) ==> |r| == |data|
    decreases |data|
  {
    if |data| < 16 then []
    else m.out(reg, data[..16]) + Crypt(m, m.next(reg, data[..16]), data[16..])
  }

  /** The register after the whole blocks of `data`. */
  function Chain(m: Mode, reg: Block, data: seq<bv8>): (r: Block)
    decreases |data|
  {
    if |data| < 16 then reg else Chain(m, m.next(reg, data[..16]), data[16..])
  }

  /** Processing a message in two parts, the register carried over, is processing it at once. */
  lemma {:induction false} CryptAppend(m: Mode, reg: Block, a: seq<bv8>, b: seq<bv8>)
    requires Aligned(|a|)
    ensures Crypt(m, reg, a + b) == Crypt(m, reg, a) + Crypt(m, Chain(m, reg, a), b)
    ensures Chain(m, reg, a + b) == Chain(m, Chain(m, reg, a), b)
    decreases |a|
  {
    if a == [] {
      assert a + b == b;
    } else {
      assert (a + b)[..16] == a[..16] && (a + b)[16..] == a[16..] + b;
      CryptAppend(m, m.next(reg, a[..16]), a[16..], b);
    }
  }

  lemma {:induction false} BlockStep(m: Mode, t: Block, data: seq<bv8>, done: nat, x: Block)
    requires Aligned(done) && done + 16 <= |data| && x == data[done..done + 16]
    ensures Crypt(m, t, data[..done + 16]) == Crypt(m, t, data[..done]) + m.out(Chain(m, t, data[..done]), x)
    ensures Chain(m, t, data[..done + 16]) == m.next(Chain(m, t, data[..done]), x)
  {
    assert data[..done + 16] == data[..done] + x;
    CryptAppend(m, t, data[..done], x);
    OneBlock(m, Chain(m, t, data[..done]), x);
  }

  lemma {:induction false} OneBlock(m: Mode, t: Block, x: Block)
    ensures Crypt(m, t, x) == m.out(t, x) && Chain(m, t, x) == m.next(t, x)
  {
    assert x[..16] == x;
    assert Crypt(m, m.next(t, x), x[16..]) == [];
  }

  /** One block of the output, from the block of the input and the register in front of it. */
  lemma {:induction false} BlockAt(m: Mode, reg: Block, data: seq<bv8>, w: nat)
    requires Aligned(w) && w + 16 <= |data|
    ensures w + 16 <= |Crypt(m, reg, data)|
    ensures Crypt(m, reg, data)[w..w + 16] == m.out(Chain(m, reg, data[..w]), data[w..w + 16])
  {
    var x: Block := data[w..w + 16];
    BlockStep(m, reg, data, w, x);
    AlignedAdd(w, 16);
    assert data == data[..w + 16] + data[w + 16..];
    CryptAppend(m, reg, data[..w + 16], data[w + 16..]);
    var front := Crypt(m, reg, data[..w + 16]);
    assert |front| == w + 16 && front[w..w + 16] == m.out(Chain(m, reg, data[..w]), x);
    assert (front + Crypt(m, Chain(m, reg, data[..w + 16]), data[w + 16..]))[w..w + 16] == front[w..w + 16];
  }

  /** `d` undoes `e` block by block, and follows the same registers. */
  ghost predicate Undoes(d: Mode, e: Mode) {
    forall reg: Block, x: Block :: d.out(reg, e.out(reg, x)) == x && d.next(reg, e.out(reg, x)) == e.next(reg, x)
  }

  lemma {:induction false} ModeRoundTrip(d: Mode, e: Mode, reg: Block, data: seq<bv8>)
    requires Undoes(d, e) && Aligned(|data|)
    ensures Crypt(d, reg, Crypt(e, reg, data)) == data
    ensures Chain(d, reg, Crypt(e, reg, data)) == Chain(e, reg, data)
    decreases |data|
  {
    if data != [] {
      var x := data[..16];
      var y := e.out(reg, x);
      var out: seq<bv8> := Crypt(e, reg, data);
      assert out[..16] == y && out[16..] == Crypt(e, e.next(reg, x), data[16..]);
      ModeRoundTrip(d, e, e.next(reg, x), data[16..]);
      assert data == x + data[16..];
    }
  }

  // ---- Exclusive-or of blocks, and cipher block chaining ----

  /** A keyed block cipher. */
  datatype Cipher = Cipher(enc: Block -> Block, dec: Block -> Block)

  ghost predicate Inverts(c: Cipher) {
    forall x: Block :: c.dec(c.enc(x)) == x
  }

  function XorBlock(a: Block, b: Block): (r: Block) {
    seq(16, i requires 0 <= i < 16 => a[i] ^ b[i])
  }

  lemma {:induction false} XorByte(x: bv8, y: bv8)
    ensures (x ^ y) ^ y == x
  {
  }

  lemma {:induction false} XorBlockCancel(a: Block, b: Block)
    ensures XorBlock(XorBlock(a, b), b) == a
  {
    forall i | 0 <= i < 16
      ensures XorBlock(XorBlock(a, b), b)[i] == a[i]
    {
      XorByte(a[i], b[i]);
    }
  }

  datatype Direction = Encrypt | Decrypt

  /** CBC (section 6.2 of NIST SP 800-38A): the register is always the last ciphertext block. */
  function Cbc(c: Cipher, dir: Direction): Mode {
    match dir
    case Encrypt => Mode((reg: Block, x: Block) => c.enc(XorBlock(x, reg)), (reg: Block, x: Block) => c.enc(XorBlock(x, reg)))
    case Decrypt => Mode((reg: Block, x: Block) => XorBlock(c.dec(x), reg), (reg: Block, x: Block) => x)
  }

  lemma {:induction false} CbcUndoes(c: Cipher)
    requires Inverts(c)
    ensures Undoes(Cbc(c, Decrypt), Cbc(c, Encrypt))
  {
    var d, e := Cbc(c, Decrypt), Cbc(c, Encrypt);
    forall reg: Block, x: Block
      ensures d.out(reg, e.out(reg, x)) == x && d.next(reg, e.out(reg, x)) == e.next(reg, x)
    {
      XorBlockCancel(x, reg);
    }
  }

  /** Blocks are combined bit by bit. */
  lemma {:induction false} XorBlockBytes(a: Block, b: Block, i: nat)
    requires i < 16
    ensures XorBlock(a, b)[i] == a[i] ^ b[i]
  {
  }

  /** The register after whole blocks is the last ciphertext block. */
  lemma {:induction false} CbcRegister(c: Cipher, dir: Direction, iv: Block, data: seq<bv8>, w: nat)
    requires Aligned(w) && w <= |data|
    ensures w == 0 ==> Chain(Cbc(c, dir), iv, data[..w]) == iv
    ensures w > 0 && dir == Encrypt ==> w <= |Crypt(Cbc(c, dir), iv, data)| && Chain(Cbc(c, dir), iv, data[..w]) == Crypt(Cbc(c, dir), iv, data)[w - 16..w]
    ensures w > 0 && dir == Decrypt ==> Chain(Cbc(c, dir), iv, data[..w]) == data[w - 16..w]
  {
    if w > 0 {
      BlockStep(Cbc(c, dir), iv, data, w - 16, data[w - 16..w]);
      BlockAt(Cbc(c, dir), iv, data, w - 16);
    }
  }

  /** Each ciphertext block enciphers its plaintext block mixed with the ciphertext block before it,
      the first one with the vector. */
  lemma {:induction false} CbcEncryptBlock(c: Cipher, iv: Block, data: seq<bv8>, w: nat, before: Block)
    requires Aligned(w) && w + 16 <= |data|
    requires w == 0 ==> before == iv
    requires w > 0 ==> w <= |Crypt(Cbc(c, Encrypt), iv, data)| && before == Crypt(Cbc(c, Encrypt), iv, data)[w - 16..w]
    ensures w + 16 <= |Crypt(Cbc(c, Encrypt), iv, data)|
    ensures Crypt(Cbc(c, Encrypt), iv, data)[w..w + 16] == c.enc(XorBlock(data[w..w + 16], before))
  {
    CbcRegister(c, Encrypt, iv, data, w);
    BlockAt(Cbc(c, Encrypt), iv, data, w);
  }

  /** Each plaintext block is its deciphered block mixed with the ciphertext block before it. */
  lemma {:induction false} CbcDecryptBlock(c: Cipher, iv: Block, data: seq<bv8>, w: nat, before: Block)
    requires Aligned(w) && w + 16 <= |data| && before == if w == 0 then iv else data[w - 16..w]
    ensures w + 16 <= |Crypt(Cbc(c, Decrypt), iv, data)|
    ensures Crypt(Cbc(c, Decrypt), iv, data)[w..w + 16] == XorBlock(c.dec(data[w..w + 16]), before)
  {
    CbcRegister(c, Decrypt, iv, data, w);
    BlockAt(Cbc(c, Decrypt), iv, data, w);
  }
}
