/** XTS with ciphertext stealing (sections 5.3.2 and 5.4.2 of IEEE 1619-2007) over an
    abstract block cipher, in one shot and as a stream of updates. */
module Xts {
  import opened BlockModes

  /** The data-unit cipher, the tweak cipher and the doubling of a tweak. */
  datatype XtsKey = XtsKey(cipher: Cipher, tweak: Block -> Block, double: Block -> Block)

  /** One block under the tweak `t`; the next block uses the doubled tweak. */
  function XtsMode(k: XtsKey, dir: Direction): Mode {
    match dir
    case Encrypt => Mode((t: Block, x: Block) => XorBlock(k.cipher.enc(XorBlock(x, t)), t), (t: Block, x: Block) => k.double(t))
    case Decrypt => Mode((t: Block, x: Block) => XorBlock(k.cipher.dec(XorBlock(x, t)), t), (t: Block, x: Block) => k.double(t))
  }

  /** A whole data unit from the tweak `t` on.  A last part of less than a block steals the
      end of the block before it; decryption then uses the last two tweaks in reverse. */
  function XtsUnit(k: XtsKey, dir: Direction, t: Block, data: seq<bv8>): (r: seq<bv8>)
    requires |data| >= 16
    ensures |r| == |data|
    decreases |data|
  {
    if |data| == 16 then XtsMode(k, dir).out(t, data)
    else if |data| < 32 then Steal(k, dir, t, data)
    else XtsMode(k, dir).out(t, data[..16]) + XtsUnit(k, dir, k.double(t), data[16..])
  }

  /** One block and a part of one. */
  function Steal(k: XtsKey, dir: Direction, t: Block, data: seq<bv8>): (r: seq<bv8>)
    requires 16 < |data| < 32
    ensures |r| == |data|
  {
    var m, tail := XtsMode(k, dir), |data| - 16;
    var t1, t2 := if dir == Encrypt then t else k.double(t), if dir == Encrypt then k.double(t) else t;
    var whole := m.out(t1, data[..16]);
    m.out(t2, data[16..] + whole[tail..]) + whole[..tail]
  }

  lemma {:induction false} XtsUndoes(k: XtsKey)
    requires Inverts(k.cipher)
    ensures Undoes(XtsMode(k, Decrypt), XtsMode(k, Encrypt))
  {
    var d, e := XtsMode(k, Decrypt), XtsMode(k, Encrypt);
    forall t: Block, x: Block
      ensures d.out(t, e.out(t, x)) == x && d.next(t, e.out(t, x)) == e.next(t, x)
    {
      XorBlockCancel(x, t);
      XorBlockCancel(k.cipher.enc(XorBlock(x, t)), t);
    }
  }

  lemma {:induction false} StealRoundTrip(k: XtsKey, t: Block, data: seq<bv8>)
    requires Inverts(k.cipher) && 16 < |data| < 32
    ensures Steal(k, Decrypt, t, Steal(k, Encrypt, t, data)) == data
  {
    XtsUndoes(k);
    var d, e, tail := XtsMode(k, Decrypt), XtsMode(k, Encrypt), |data| - 16;
    var whole: seq<bv8> := e.out(t, data[..16]);
    var mixed := data[16..] + whole[tail..];
    var coded := Steal(k, Encrypt, t, data);
    assert coded[..16] == e.out(k.double(t), mixed) && coded[16..] == whole[..tail];
    assert d.out(k.double(t), coded[..16]) == mixed;
    assert coded[16..] + mixed[tail..] == whole;
    assert mixed[..tail] == data[16..];
    assert data == data[..16] + data[16..];
  }

  /** Decryption inverts encryption for every length from one block up. */
  lemma {:induction false} XtsRoundTrip(k: XtsKey, t: Block, data: seq<bv8>)
    requires Inverts(k.cipher) && |data| >= 16
    ensures XtsUnit(k, Decrypt, t, XtsUnit(k, Encrypt, t, data)) == data
    decreases |data|
  {
    XtsUndoes(k);
    if 16 < |data| < 32 {
      StealRoundTrip(k, t, data);
    } else if |data| >= 32 {
      var coded := XtsUnit(k, Encrypt, t, data);
      var y: seq<bv8> := XtsMode(k, Encrypt).out(t, data[..16]);
      assert coded[..16] == y && coded[16..] == XtsUnit(k, Encrypt, k.double(t), data[16..]);
      XtsRoundTrip(k, k.double(t), data[16..]);
      assert data == data[..16] + data[16..];
    }
  }

  /** Whole blocks first, then at least a block more: the stream continues with the tweak
      the blocks left behind. */
  lemma {:induction false} XtsAppend(k: XtsKey, dir: Direction, t: Block, a: seq<bv8>, b: seq<bv8>)
    requires Aligned(|a|) && |b| >= 16
    ensures XtsUnit(k, dir, t, a + b) == Crypt(XtsMode(k, dir), t, a) + XtsUnit(k, dir, Chain(XtsMode(k, dir), t, a), b)
    decreases |a|
  {
    if a == [] {
      assert a + b == b;
    } else {
      assert (a + b)[..16] == a[..16] && (a + b)[16..] == a[16..] + b;
      XtsAppend(k, dir, k.double(t), a[16..], b);
    }
  }

  /** Without a partial block there is nothing to steal. */
  lemma {:induction false} XtsAligned(k: XtsKey, dir: Direction, t: Block, data: seq<bv8>)
    requires Aligned(|data|) && |data| >= 16
    ensures XtsUnit(k, dir, t, data) == Crypt(XtsMode(k, dir), t, data)
    decreases |data|
  {
    if |data| == 16 {
      assert data[..16] == data;
      assert Crypt(XtsMode(k, dir), k.double(t), data[16..]) == [];
    } else {
      XtsAligned(k, dir, k.double(t), data[16..]);
    }
  }
}
