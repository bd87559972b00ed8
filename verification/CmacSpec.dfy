/** AES-CMAC (section 2.4 of RFC 4493) over an abstract block cipher, as one function of
    the message and as a stream that holds back its last block. */
module CmacSpec {
  import opened BlockModes

  /** The keyed cipher and its two subkeys. */
  datatype CmacKey = CmacKey(enc: Block -> Block, k1: Block, k2: Block)

  function Zero(): Block {
    seq(16, _ => 0)
  }

  /** `m` followed by a one bit and zeros. */
  function Padded(m: seq<bv8>): Block
    requires |m| < 16
  {
    seq(16, i requires 0 <= i < 16 => if i < |m| then m[i] else if i == |m| then 0x80 else 0)
  }

  /** The last block with its subkey mixed in. */
  function LastBlock(k: CmacKey, m: seq<bv8>): Block
    requires |m| <= 16
  {
    if |m| == 16 then XorBlock(m, k.k1) else XorBlock(Padded(m), k.k2)
  }

  /** The reference definition, from the chaining value `x` on. */
  function TagFrom(k: CmacKey, x: Block, m: seq<bv8>): Block
    decreases |m|
  {
    if |m| <= 16 then k.enc(XorBlock(LastBlock(k, m), x))
    else TagFrom(k, k.enc(XorBlock(m[..16], x)), m[16..])
  }

  function Tag(k: CmacKey, m: seq<bv8>): Block {
    TagFrom(k, Zero(), m)
  }

  /** The padding is the message, one 1 bit, and zero bits. */
  lemma {:induction false} PaddedBits(m: seq<bv8>)
    requires |m| < 16
    ensures Padded(m)[..|m|] == m
    ensures forall i :: |m| <= i < 16 ==> Padded(m)[i] & 0x7f == 0 && (Padded(m)[i] != 0 <==> i == |m|)
  {
  }

  /** The last block of a message, whole or padded, and the subkey that goes with it. */
  ghost predicate Ends(k: CmacKey, m: seq<bv8>, w: nat, last: Block, subKey: Block)
    requires w <= |m| <= w + 16
  {
    var n := |m| - w;
    if n == 16 then last == m[w..] && subKey == k.k1
    else last[..n] == m[w..] && last[n] == 0x80 && (forall i :: n < i < 16 ==> last[i] == 0) && subKey == k.k2
  }

  /** The tag is the last block of CBC over the earlier blocks, the last one with its subkey mixed
      in: steps 4 to 6 of the algorithm in section 2.4 of RFC 4493. */
  lemma {:induction false} TagIsCbcMac(k: CmacKey, x: Block, m: seq<bv8>, w: nat, last: Block, subKey: Block)
    requires Aligned(w) && w <= |m| <= w + 16 && (m != [] ==> w < |m|) && Ends(k, m, w, last, subKey)
    ensures TagFrom(k, x, m) == k.enc(XorBlock(XorBlock(last, subKey), Chain(Cbc(Cipher(k.enc, k.enc), Encrypt), x, m[..w])))
    decreases w
  {
    var mode := Cbc(Cipher(k.enc, k.enc), Encrypt);
    if w == 0 {
      assert m[w..] == m && Chain(mode, x, m[..w]) == x;
      if |m| < 16 { assert last == Padded(m); }
    } else {
      var y := k.enc(XorBlock(m[..16], x));
      assert m[16..][w - 16..] == m[w..];
      TagIsCbcMac(k, y, m[16..], w - 16, last, subKey);
      assert m[..w][..16] == m[..16] && m[..w][16..] == m[16..][..w - 16];
    }
  }

  /** And the chaining starts from the zero block. */
  lemma {:induction false} TagOfMessage(k: CmacKey, m: seq<bv8>, w: nat, last: Block, subKey: Block, zero: Block)
    requires Aligned(w) && w <= |m| <= w + 16 && (m != [] ==> w < |m|) && Ends(k, m, w, last, subKey)
    requires forall i :: 0 <= i < 16 ==> zero[i] == 0
    ensures Tag(k, m) == k.enc(XorBlock(XorBlock(last, subKey), Chain(Cbc(Cipher(k.enc, k.enc), Encrypt), zero, m[..w])))
  {
    assert zero == Zero();
    TagIsCbcMac(k, zero, m, w, last, subKey);
  }

  // ---- The streaming state ----

  /** The chaining value and the bytes held back: at most a block, and none only at the start. */
  datatype View = View(digest: Block, rest: seq<bv8>)

  /** All blocks but the last are folded into the chaining value. */
  function Absorb(k: CmacKey, x: Block, m: seq<bv8>): (v: View)
    ensures |v.rest| <= 16
    decreases |m|
  {
    if |m| <= 16 then View(x, m) else Absorb(k, k.enc(XorBlock(m[..16], x)), m[16..])
  }

  /** Feeding more data to a state. */
  function Feed(k: CmacKey, v: View, data: seq<bv8>): View {
    Absorb(k, v.digest, v.rest + data)
  }

  /** The tag a state gives when finalized. */
  function FinalTag(k: CmacKey, v: View): Block
    requires |v.rest| <= 16
  {
    k.enc(XorBlock(LastBlock(k, v.rest), v.digest))
  }

  function Start(): View { View(Zero(), []) }

  /** Absorbing a message in two parts is absorbing it at once. */
  lemma {:induction false} AbsorbAppend(k: CmacKey, x: Block, a: seq<bv8>, b: seq<bv8>)
    ensures Absorb(k, x, a + b) == Feed(k, Absorb(k, x, a), b)
    decreases |a|
  {
    if |a| > 16 {
      assert (a + b)[..16] == a[..16] && (a + b)[16..] == a[16..] + b;
      AbsorbAppend(k, k.enc(XorBlock(a[..16], x)), a[16..], b);
    }
  }

  /** Finalizing what was absorbed gives the reference tag. */
  lemma {:induction false} AbsorbTag(k: CmacKey, x: Block, m: seq<bv8>)
    ensures FinalTag(k, Absorb(k, x, m)) == TagFrom(k, x, m)
    decreases |m|
  {
    if |m| > 16 {
      AbsorbTag(k, k.enc(XorBlock(m[..16], x)), m[16..]);
    }
  }

  /** `v` is the state after the message `m`. */
  predicate Holds(k: CmacKey, v: View, m: seq<bv8>) {
    v == Absorb(k, Zero(), m)
  }

  lemma {:induction false} FeedHolds(k: CmacKey, v: View, m: seq<bv8>, data: seq<bv8>)
    requires Holds(k, v, m)
    ensures Holds(k, Feed(k, v, data), m + data)
  {
    AbsorbAppend(k, Zero(), m, data);
  }

  // ---- Runs over many descriptors and exported blobs ----

  /** Descriptors and exported states, by name. */
  datatype World = World(descs: map<nat, View>, blobs: map<nat, View>)

  /** The messages they stand for. */
  datatype Messages = Messages(descs: map<nat, seq<bv8>>, blobs: map<nat, seq<bv8>>)

  /** `Lost` covers a descriptor abandoned, poisoned or spent by a final. */
  datatype Op =
    | Init(d: nat)
    | Update(d: nat, data: seq<bv8>)
    | FailedUpdate(d: nat)
    | Export(d: nat, blob: nat)
    | Import(d: nat, blob: nat)
    | Lost(d: nat)

  function Do(k: CmacKey, w: World, op: Op): World {
    match op
    case Init(d) => w.(descs := w.descs[d := Start()])
    case Update(d, data) => if d in w.descs then w.(descs := w.descs[d := Feed(k, w.descs[d], data)]) else w
    case FailedUpdate(d) => w
    case Export(d, b) => w.(blobs := if d in w.descs then w.blobs[b := w.descs[d]] else w.blobs - {b})
    case Import(d, b) => w.(descs := if b in w.blobs then w.descs[d := w.blobs[b]] else w.descs - {d})
    case Lost(d) => w.(descs := w.descs - {d})
  }

  /** The same operations on the messages: an update appends, an import takes over what was
      exported, and a copy of what stands for nothing stands for nothing. */
  function Note(n: Messages, op: Op): Messages {
    match op
    case Init(d) => n.(descs := n.descs[d := []])
    case Update(d, data) => if d in n.descs then n.(descs := n.descs[d := n.descs[d] + data]) else n
    case FailedUpdate(d) => n
    case Export(d, b) => n.(blobs := if d in n.descs then n.blobs[b := n.descs[d]] else n.blobs - {b})
    case Import(d, b) => n.(descs := if b in n.blobs then n.descs[d := n.blobs[b]] else n.descs - {d})
    case Lost(d) => n.(descs := n.descs - {d})
  }

  function DoAll(k: CmacKey, w: World, ops: seq<Op>): World
    decreases |ops|
  {
    if ops == [] then w else DoAll(k, Do(k, w, ops[0]), ops[1..])
  }

  function NoteAll(n: Messages, ops: seq<Op>): Messages
    decreases |ops|
  {
    if ops == [] then n else NoteAll(Note(n, ops[0]), ops[1..])
  }

  ghost predicate Tracks(k: CmacKey, w: World, n: Messages) {
    && w.descs.Keys == n.descs.Keys && w.blobs.Keys == n.blobs.Keys
    && (forall d :: d in w.descs ==> Holds(k, w.descs[d], n.descs[d]))
    && (forall b :: b in w.blobs ==> Holds(k, w.blobs[b], n.blobs[b]))
  }

  lemma {:induction false} DoTracks(k: CmacKey, w: World, n: Messages, op: Op)
    requires Tracks(k, w, n)
    ensures Tracks(k, Do(k, w, op), Note(n, op))
  {
    match op
    case Update(d, data) =>
      if d in w.descs { FeedHolds(k, w.descs[d], n.descs[d], data); }
    case _ =>
  }

  lemma {:induction false} RunTracks(k: CmacKey, w: World, n: Messages, ops: seq<Op>)
    requires Tracks(k, w, n)
    ensures Tracks(k, DoAll(k, w, ops), NoteAll(n, ops))
    decreases |ops|
  {
    if ops != [] {
      DoTracks(k, w, n, ops[0]);
      RunTracks(k, Do(k, w, ops[0]), Note(n, ops[0]), ops[1..]);
    }
  }

  /** For every run without a rekey, finalizing a descriptor, with or without a last piece of
      data, gives the CMAC of the concatenation of everything it stands for. */
  lemma {:induction false} RunTag(k: CmacKey, ops: seq<Op>, d: nat, data: seq<bv8>)
    requires d in DoAll(k, World(map[], map[]), ops).descs
    ensures var w, n := DoAll(k, World(map[], map[]), ops), NoteAll(Messages(map[], map[]), ops);
            && d in n.descs
            && |w.descs[d].rest| <= 16
            && FinalTag(k, w.descs[d]) == Tag(k, n.descs[d])
            && FinalTag(k, Feed(k, w.descs[d], data)) == Tag(k, n.descs[d] + data)
  {
    var w, n := DoAll(k, World(map[], map[]), ops), NoteAll(Messages(map[], map[]), ops);
    RunTracks(k, World(map[], map[]), Messages(map[], map[]), ops);
    FeedHolds(k, w.descs[d], n.descs[d], data);
    AbsorbTag(k, Zero(), n.descs[d]);
    AbsorbTag(k, Zero(), n.descs[d] + data);
  }
}
