/** The library's block loops for XTS, `AesXtsEncryptUpdate_sw` and `AesXtsDecryptUpdate_sw`: a
    running tweak, doubled after each block, and the stealing of the last partial block. */
module XtsLibrary {
  import opened BlockModes
  import opened Xts

  /** The loop over the first `total` bytes, all whole blocks. */
  method BlockLoop(k: XtsKey, dir: Direction, t: Block, data: seq<bv8>, total: nat) returns (out: seq<bv8>, t': Block)
    requires total <= |data| && Aligned(total)
    ensures out == Crypt(XtsMode(k, dir), t, data[..total]) && |out| == total
    ensures t' == Chain(XtsMode(k, dir), t, data[..total])
  {
    ghost var m := XtsMode(k, dir);
    out, t' := [], t;
    var done: nat, left: nat := 0, total;
    while left > 0
      invariant done + left == total && Aligned(done) && Aligned(left)
      invariant out == Crypt(m, t, data[..done]) && t' == Chain(m, t, data[..done])
    {
      var x: Block := data[done..done + 16];
      BlockStep(m, t, data, done, x);
      var masked := XorBlock(x, t');
      var y := if dir == Encrypt then k.cipher.enc(masked) else k.cipher.dec(masked);
      out, t' := out + XorBlock(y, t'), k.double(t');
      AlignedAdd(done, 16);
      done, left := done + 16, left - 16;
    }
  }

  /** A unit with a last partial block: whole blocks, and the two blocks that trade bytes. */
  lemma {:induction false} Partial(k: XtsKey, dir: Direction, t: Block, data: seq<bv8>, whole: nat)
    requires Aligned(whole) && whole + 16 < |data| < whole + 32
    ensures XtsUnit(k, dir, t, data)
         == Crypt(XtsMode(k, dir), t, data[..whole]) + Steal(k, dir, Chain(XtsMode(k, dir), t, data[..whole]), data[whole..])
  {
    assert data == data[..whole] + data[whole..];
    XtsAppend(k, dir, t, data[..whole], data[whole..]);
  }

  /** The encrypting loop runs over all whole blocks; stealing then rewrites the last of them. */
  method EncryptUpdate(k: XtsKey, t: Block, data: seq<bv8>) returns (out: seq<bv8>, t': Block)
    requires |data| >= 16
    ensures out == XtsUnit(k, Encrypt, t, data)
    ensures t' == Chain(XtsMode(k, Encrypt), t, data[..|data| - |data| % 16])
  {
    var left := |data| % 16;
    var total := |data| - left;
    AlignedMod(total);
    out, t' := BlockLoop(k, Encrypt, t, data, total);
    if left > 0 {
      out := StealLast(k, t, data, total, left, out, t');
    } else {
      XtsAligned(k, Encrypt, t, data);
      assert data[..total] == data;
    }
  }

  /** The last whole block gives its end to the partial one and is enciphered again. */
  method StealLast(k: XtsKey, ghost t: Block, data: seq<bv8>, total: nat, left: nat, out: seq<bv8>, t': Block) returns (r: seq<bv8>)
    requires 16 <= total == |data| - left && 0 < left < 16 && Aligned(total)
    requires out == Crypt(XtsMode(k, Encrypt), t, data[..total]) && t' == Chain(XtsMode(k, Encrypt), t, data[..total]) && |out| == total
    ensures r == XtsUnit(k, Encrypt, t, data)
  {
    var last := out[total - 16..];
    var mixed: Block := data[total..] + last[left..];
    StolenEnd(k, t, data, total, left, out, t', last, mixed);
    r := out[..total - 16] + (XorBlock(k.cipher.enc(XorBlock(mixed, t')), t') + last[..left]);
  }

  lemma {:induction false} StolenEnd(k: XtsKey, t: Block, data: seq<bv8>, total: nat, left: nat, out: seq<bv8>, t': Block, last: seq<bv8>, mixed: Block)
    requires 16 <= total == |data| - left && 0 < left < 16 && Aligned(total)
    requires out == Crypt(XtsMode(k, Encrypt), t, data[..total]) && t' == Chain(XtsMode(k, Encrypt), t, data[..total]) && |out| == total
    requires last == out[total - 16..] && mixed == data[total..] + last[left..]
    ensures XtsUnit(k, Encrypt, t, data) == out[..total - 16] + (XorBlock(k.cipher.enc(XorBlock(mixed, t')), t') + last[..left])
  {
    var m, w := XtsMode(k, Encrypt), total - 16;
    var tw, x: Block := Chain(m, t, data[..w]), data[w..w + 16];
    BlockStep(m, t, data, w, x);
    assert out[..w] == Crypt(m, t, data[..w]) && last == m.out(tw, x);
    Partial(k, Encrypt, t, data, w);
    var end := data[w..];
    assert end[..16] == x && end[16..] == data[total..];
    StealEncrypt(k, tw, end, last, mixed);
  }

  lemma {:induction false} StealEncrypt(k: XtsKey, t: Block, end: seq<bv8>, last: seq<bv8>, mixed: Block)
    requires 16 < |end| < 32 && last == XtsMode(k, Encrypt).out(t, end[..16]) && mixed == end[16..] + last[|end| - 16..]
    ensures Steal(k, Encrypt, t, end) == XorBlock(k.cipher.enc(XorBlock(mixed, k.double(t))), k.double(t)) + last[..|end| - 16]
  {
  }

  /** The decrypting loop stops one block early when there is a partial block: the last whole
      block is opened under the doubled tweak, which the running tweak does not keep. */
  method DecryptUpdate(k: XtsKey, t: Block, data: seq<bv8>) returns (out: seq<bv8>, t': Block)
    requires |data| >= 16
    ensures out == XtsUnit(k, Decrypt, t, data)
    ensures t' == Chain(XtsMode(k, Decrypt), t, data[..if |data| % 16 == 0 then |data| else |data| - |data| % 16 - 16])
  {
    var left := |data| % 16;
    var total := if left > 0 then |data| - left - 16 else |data|;
    AlignedMod(total);
    out, t' := BlockLoop(k, Decrypt, t, data, total);
    if left > 0 {
      var end := data[total..];
      var t2 := k.double(t');
      var whole: seq<bv8> := XorBlock(k.cipher.dec(XorBlock(end[..16], t2)), t2);
      var mixed: Block := end[16..] + whole[left..];
      Partial(k, Decrypt, t, data, total);
      out := out + (XorBlock(k.cipher.dec(XorBlock(mixed, t')), t') + whole[..left]);
    } else {
      XtsAligned(k, Decrypt, t, data);
      assert data[..total] == data;
    }
  }

  // ---- The mode, block by block ----

  /** The tweak `w` bytes into a unit: doubled once for every block. */
  function TweakAt(k: XtsKey, t: Block, w: nat): Block
    decreases w
  {
    if w < 16 then t else TweakAt(k, k.double(t), w - 16)
  }

  /** It starts as it is and doubles from block to block. */
  lemma {:induction false} TweakAdvances(k: XtsKey, t: Block, w: nat)
    requires Aligned(w)
    ensures TweakAt(k, t, 0) == t && TweakAt(k, t, w + 16) == k.double(TweakAt(k, t, w))
    decreases w
  {
    if w >= 16 {
      TweakAdvances(k, k.double(t), w - 16);
      assert TweakAt(k, t, w + 16) == TweakAt(k, k.double(t), w);
      assert TweakAt(k, t, w) == TweakAt(k, k.double(t), w - 16);
    } else {
      assert TweakAt(k, t, w + 16) == TweakAt(k, k.double(t), w);
    }
  }

  lemma {:induction false} TweakChain(k: XtsKey, dir: Direction, t: Block, data: seq<bv8>, w: nat)
    requires Aligned(w) && w <= |data|
    ensures Chain(XtsMode(k, dir), t, data[..w]) == TweakAt(k, t, w)
    decreases w
  {
    if w >= 16 {
      TweakChain(k, dir, k.double(t), data[16..], w - 16);
      assert data[..w][16..] == data[16..][..w - 16];
    }
  }

  /** Every block in front of the two that trade bytes is masked, ciphered and masked again under
      its own tweak. */
  lemma {:induction false} XtsBlock(k: XtsKey, dir: Direction, t: Block, data: seq<bv8>, w: nat, tw: Block, x: Block)
    requires Aligned(w) && (w + 32 <= |data| || w + 16 == |data|) && tw == TweakAt(k, t, w) && x == data[w..w + 16]
    ensures XtsUnit(k, dir, t, data)[w..w + 16]
         == XorBlock(if dir == Encrypt then k.cipher.enc(XorBlock(x, tw)) else k.cipher.dec(XorBlock(x, tw)), tw)
  {
    var m := XtsMode(k, dir);
    TweakChain(k, dir, t, data, w);
    if w + 16 == |data| {
      AlignedAdd(w, 16);
      XtsAligned(k, dir, t, data);
      BlockAt(m, t, data, w);
    } else {
      assert data == data[..w + 16] + data[w + 16..];
      AlignedAdd(w, 16);
      XtsAppend(k, dir, t, data[..w + 16], data[w + 16..]);
      BlockAt(m, t, data[..w + 16], w);
      assert data[..w + 16][w..w + 16] == data[w..w + 16] && data[..w + 16][..w] == data[..w];
    }
  }

  /** The last whole block and the partial one trade bytes: the whole one is ciphered first, under the
      earlier tweak when encrypting and the later one when decrypting; its end fills up the
      partial one, which is ciphered under the other tweak and takes its place. */
  lemma {:induction false} XtsLastBlocks(k: XtsKey, dir: Direction, t: Block, data: seq<bv8>, w: nat, r: nat, t1: Block, t2: Block, whole: Block, mixed: Block)
    requires Aligned(w) && |data| == w + 16 + r && 0 < r < 16
    requires t1 == (if dir == Encrypt then TweakAt(k, t, w) else k.double(TweakAt(k, t, w)))
    requires t2 == (if dir == Encrypt then k.double(TweakAt(k, t, w)) else TweakAt(k, t, w))
    requires whole == XorBlock(if dir == Encrypt then k.cipher.enc(XorBlock(data[w..w + 16], t1)) else k.cipher.dec(XorBlock(data[w..w + 16], t1)), t1)
    requires mixed == data[w + 16..] + whole[r..]
    ensures XtsUnit(k, dir, t, data)[w..w + 16]
         == XorBlock(if dir == Encrypt then k.cipher.enc(XorBlock(mixed, t2)) else k.cipher.dec(XorBlock(mixed, t2)), t2)
    ensures XtsUnit(k, dir, t, data)[w + 16..] == whole[..r]
  {
    TweakChain(k, dir, t, data, w);
    Partial(k, dir, t, data, w);
    var end, unit := data[w..], XtsUnit(k, dir, t, data);
    assert end[..16] == data[w..w + 16] && end[16..] == data[w + 16..];
    var front := Crypt(XtsMode(k, dir), t, data[..w]);
    var last: Block := XorBlock(if dir == Encrypt then k.cipher.enc(XorBlock(mixed, t2)) else k.cipher.dec(XorBlock(mixed, t2)), t2);
    var steal := Steal(k, dir, TweakAt(k, t, w), end);
    assert steal == last + whole[..r];
    assert unit == front + steal && |front| == w;
    assert unit[w..w + 16] == steal[..16] == last;
    assert unit[w + 16..] == steal[16..] == whole[..r];
  }
}
