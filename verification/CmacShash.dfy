/** The CMAC shash glue: a tfm owns one keyed object, descriptors are plain data, and every
    operation works on a transient copy that it also releases. */
module CmacShash {
  import opened Common
  import opened Bytes
  import opened BlockModes
  import opened CmacSpec

  /** `km_AesCmacExportState`: chaining state only, no key material. */
  datatype St = St(digest: Block, buffer: Block, bufferSz: nat, totalSz: nat)

  predicate Sound(st: St) {
    st.bufferSz <= 16
  }

  function ViewOf(st: St): View
    requires Sound(st)
  {
    View(st.digest, st.buffer[..st.bufferSz])
  }

  /** The all-zero state. */
  function ZeroSt(): St {
    St(Zero(), Zero(), 0, 0)
  }

  lemma {:induction false} ZeroIsStart()
    ensures ViewOf(ZeroSt()) == Start()
  {
  }

  /** A keyed CMAC object. */
  class Cmac {
    var key: CmacKey
    var st: St

    constructor (key: CmacKey, st: St)
      ensures this.key == key && this.st == st
    {
      this.key, this.st := key, st;
    }
  }

  lemma {:induction false} XorBlockSwap(a: Block, b: Block, c: Block)
    ensures XorBlock(XorBlock(a, b), c) == XorBlock(XorBlock(a, c), b)
  {
    forall i | 0 <= i < 16
      ensures XorBlock(XorBlock(a, b), c)[i] == XorBlock(XorBlock(a, c), b)[i]
    {
      XorByteSwap(a[i], b[i], c[i]);
    }
  }

  lemma {:induction false} XorByteSwap(x: bv8, y: bv8, z: bv8)
    ensures (x ^ y) ^ z == (x ^ z) ^ y
  {
  }

  /** A full buffer with data still to come is folded in. */
  lemma {:induction false} FoldStep(k: CmacKey, x: Block, buf: seq<bv8>, more: seq<bv8>)
    requires |buf| == 16 && more != []
    ensures Absorb(k, x, buf + more) == Absorb(k, k.enc(XorBlock(buf, x)), more)
  {
    assert (buf + more)[..16] == buf && (buf + more)[16..] == more;
  }

  /** `wc_CmacUpdate`: fill the buffer, and fold it in only once more data is waiting. */
  method CmacUpdate(c: Cmac, data: seq<bv8>, fails: nat -> bool) returns (ok: bool)
    requires Sound(c.st)
    modifies c
    ensures c.key == old(c.key) && Sound(c.st)
    ensures ok ==> ViewOf(c.st) == Feed(c.key, old(ViewOf(c.st)), data)
    ensures (forall n: nat :: !fails(n)) ==> ok
  {
    ghost var goal := Feed(c.key, ViewOf(c.st), data);
    var left: seq<bv8> := data;
    var calls := 0;
    assert ViewOf(c.st).rest + left == ViewOf(c.st).rest + data;
    while left != []
      invariant c.key == old(c.key) && Sound(c.st)
      invariant Feed(c.key, ViewOf(c.st), left) == goal
      decreases |left|, c.st.bufferSz
    {
      var st := c.st;
      var add := if |left| < 16 - st.bufferSz then |left| else 16 - st.bufferSz;
      var filled := Splice(st.buffer, st.bufferSz, left[..add]);
      ghost var rest0, left0 := st.buffer[..st.bufferSz], left;
      assert filled[..st.bufferSz + add] == rest0 + left[..add];
      assert rest0 + left0 == filled[..st.bufferSz + add] + left[add..];
      st := St(st.digest, filled, st.bufferSz + add, st.totalSz);
      left := left[add..];
      if st.bufferSz == 16 && left != [] {
        var mixed := XorBlock(st.buffer, st.digest);
        if fails(calls) {
          return false;
        }
        calls := calls + 1;
        FoldStep(c.key, st.digest, st.buffer, left);
        assert st.buffer[..16] == st.buffer;
        st := St(c.key.enc(mixed), mixed, 0, (st.totalSz + 16) % TWO32);
        assert st.buffer[..0] + left == left;
      }
      c.st := st;
    }
    assert ViewOf(c.st).rest + [] == ViewOf(c.st).rest;
    return true;
  }

  /** `wc_CmacFinal`: pad, mix in the subkey and encrypt; the object is wiped in every case. */
  method CmacFinal(c: Cmac, fails: bool) returns (ok: bool, tag: Block)
    modifies c
    ensures ok <==> old(Sound(c.st)) && !fails
    ensures ok ==> tag == FinalTag(old(c.key), old(ViewOf(c.st)))
    ensures c.st == ZeroSt()
  {
    var st := c.st;
    c.st := ZeroSt();
    tag := Zero();
    if st.bufferSz > 16 || fails {
      return false, tag;
    }
    var last, subKey := st.buffer, c.key.k1;
    if st.bufferSz != 16 {
      var n := st.bufferSz;
      last, subKey := st.buffer[..n] + [0x80] + seq(15 - n, _ => 0), c.key.k2;
      assert last == Padded(st.buffer[..n]);
    } else {
      assert st.buffer[..16] == st.buffer;
    }
    XorBlockSwap(last, st.digest, subKey);
    return true, c.key.enc(XorBlock(XorBlock(last, st.digest), subKey));
  }

  // ---- Ownership ----

  /** The CMAC objects that are allocated and not yet released. */
  class Heap {
    ghost var live: set<Cmac>

    constructor ()
      ensures live == {}
    {
      live := {};
    }

    method Malloc(ok: bool, key: CmacKey, st: St) returns (c: Cmac?)
      modifies this
      ensures ok <==> c != null
      ensures c != null ==> fresh(c) && c.key == key && c.st == st && live == old(live) + {c}
      ensures c == null ==> live == old(live)
    {
      if !ok {
        return null;
      }
      c := new Cmac(key, st);
      live := live + {c};
    }

    /** Releases an object that is live, and only then. */
    method Free(c: Cmac)
      requires c in live
      modifies this
      ensures live == old(live) - {c}
    {
      live := live - {c};
    }
  }

  class Tfm {
    var pristine: Cmac?

    constructor ()
      ensures pristine == null
    {
      pristine := null;
    }
  }

  class Desc {
    const tfm: Tfm
    var st: St

    constructor (tfm: Tfm, st: St)
      ensures this.tfm == tfm && this.st == st
    {
      this.tfm, this.st := tfm, st;
    }
  }

  /** Each live object is the pristine object of exactly one tfm, and each pristine object is live. */
  ghost predicate Owned(heap: Heap, tfms: set<Tfm>)
    reads heap, tfms
  {
    && (forall t :: t in tfms && t.pristine != null ==> t.pristine in heap.live)
    && (forall t, u :: t in tfms && u in tfms && t.pristine != null && t.pristine == u.pristine ==> t == u)
    && (forall c :: c in heap.live ==> exists t :: t in tfms && t.pristine == c)
  }

  /** `km_AesCmacDispose`. */
  method Dispose(heap: Heap, c: Cmac)
    requires c in heap.live
    modifies heap, c
    ensures heap.live == old(heap.live) - {c} && c.st == ZeroSt()
  {
    c.st := ZeroSt();
    heap.Free(c);
  }

  /** `km_AesCmacSetKey`: a rekey replaces the object; a rekey that fails after the checks leaves none. */
  method SetKey(heap: Heap, tfm: Tfm, ghost tfms: set<Tfm>, keylen: nat, key: CmacKey, gotMemory: bool, initRet: int) returns (ret: int)
    requires Owned(heap, tfms) && tfm in tfms
    modifies heap, tfm, tfm.pristine
    ensures Owned(heap, tfms)
    ensures forall c :: c in heap.live ==> c in old(heap.live) || fresh(c)
    ensures keylen !in {16, 24, 32} ==> ret == -EINVAL && tfm.pristine == old(tfm.pristine) && heap.live == old(heap.live)
    ensures keylen in {16, 24, 32} && !gotMemory ==> ret == -ENOMEM && tfm.pristine == old(tfm.pristine) && heap.live == old(heap.live)
    ensures keylen in {16, 24, 32} && gotMemory && initRet != 0 ==> ret == -EINVAL && tfm.pristine == null
    ensures keylen in {16, 24, 32} && gotMemory && initRet == 0 ==>
              ret == 0 && tfm.pristine != null && fresh(tfm.pristine) && tfm.pristine.key == key && tfm.pristine.st == ZeroSt()
  {
    if keylen != 16 && keylen != 24 && keylen != 32 {
      return -EINVAL;
    }
    var c := heap.Malloc(gotMemory, key, ZeroSt());
    if c == null {
      return -ENOMEM;
    }
    if initRet != 0 {
      heap.Free(c);
      if tfm.pristine != null {
        Dispose(heap, tfm.pristine);
        tfm.pristine := null;
      }
      return -EINVAL;
    }
    if tfm.pristine != null {
      Dispose(heap, tfm.pristine);
      tfm.pristine := null;
    }
    tfm.pristine := c;
    return 0;
  }

  /** `km_AesCmacExitTfm`. */
  method ExitTfm(heap: Heap, tfm: Tfm, ghost tfms: set<Tfm>)
    requires Owned(heap, tfms) && tfm in tfms
    modifies heap, tfm, tfm.pristine
    ensures Owned(heap, tfms) && tfm.pristine == null
    ensures heap.live <= old(heap.live)
  {
    if tfm.pristine != null {
      Dispose(heap, tfm.pristine);
      tfm.pristine := null;
    }
  }

  /** `km_AesCmacMaterialize`: a copy of the pristine object with the given streaming state. */
  method Materialize(heap: Heap, tfm: Tfm, st: St, gotMemory: bool) returns (ret: int, c: Cmac?)
    modifies heap
    ensures ret == if tfm.pristine == null then -ENOKEY else if !gotMemory then -ENOMEM else 0
    ensures ret == 0 ==> c != null && fresh(c) && c.key == tfm.pristine.key && c.st == st && heap.live == old(heap.live) + {c}
    ensures ret != 0 ==> heap.live == old(heap.live)
  {
    if tfm.pristine == null {
      return -ENOKEY, null;
    }
    c := heap.Malloc(gotMemory, tfm.pristine.key, st);
    ret := if c == null then -ENOMEM else 0;
  }

  method Init(desc: Desc) returns (ret: int)
    modifies desc
    ensures ret == if desc.tfm.pristine == null then -ENOKEY else 0
    ensures desc.st == if ret == 0 then ZeroSt() else old(desc.st)
  {
    if desc.tfm.pristine == null {
      return -ENOKEY;
    }
    desc.st := ZeroSt();
    return 0;
  }

  /** `km_AesCmacUpdate`: all or nothing on the descriptor, and no object left behind. */
  method Update(heap: Heap, desc: Desc, data: seq<bv8>, gotMemory: bool, fails: nat -> bool) returns (ret: int)
    requires Sound(desc.st)
    modifies heap, desc
    ensures heap.live == old(heap.live) && Sound(desc.st)
    ensures ret == 0 ==> desc.tfm.pristine != null && ViewOf(desc.st) == Feed(desc.tfm.pristine.key, old(ViewOf(desc.st)), data)
    ensures ret != 0 ==> desc.st == old(desc.st)
    ensures desc.tfm.pristine != null && gotMemory && (forall n: nat :: !fails(n)) ==> ret == 0
  {
    var c;
    ret, c := Materialize(heap, desc.tfm, desc.st, gotMemory);
    if ret != 0 {
      return;
    }
    var ok := CmacUpdate(c, data, fails);
    if ok {
      desc.st := c.st;
    }
    Dispose(heap, c);
    ret := if ok then 0 else -EINVAL;
  }

  /** `km_AesCmacFinal`: once a copy exists the descriptor is scrubbed, whatever the outcome. */
  method Final(heap: Heap, desc: Desc, gotMemory: bool, fails: bool) returns (ret: int, out: Block)
    modifies heap, desc
    ensures heap.live == old(heap.live)
    ensures ret == 0 <==> desc.tfm.pristine != null && gotMemory && old(Sound(desc.st)) && !fails
    ensures ret == 0 ==> out == FinalTag(desc.tfm.pristine.key, old(ViewOf(desc.st)))
    ensures desc.st == if desc.tfm.pristine != null && gotMemory then ZeroSt() else old(desc.st)
  {
    var c;
    out := Zero();
    ret, c := Materialize(heap, desc.tfm, desc.st, gotMemory);
    if ret != 0 {
      return;
    }
    var ok;
    ok, out := CmacFinal(c, fails);
    heap.Free(c);
    desc.st := ZeroSt();
    ret := if ok then 0 else -EINVAL;
  }

  /** `km_AesCmacFinup`: update and final on one copy; a failed update keeps the descriptor. */
  method Finup(heap: Heap, desc: Desc, data: seq<bv8>, gotMemory: bool, fails: nat -> bool, finalFails: bool) returns (ret: int, out: Block)
    requires Sound(desc.st)
    modifies heap, desc
    ensures heap.live == old(heap.live)
    ensures ret == 0 ==> desc.tfm.pristine != null && out == FinalTag(desc.tfm.pristine.key, Feed(desc.tfm.pristine.key, old(ViewOf(desc.st)), data))
    ensures desc.st == old(desc.st) || desc.st == ZeroSt()
    ensures ret == 0 ==> desc.st == ZeroSt()
    ensures !gotMemory ==> ret != 0 && desc.st == old(desc.st)
    ensures ret != 0 && !finalFails ==> desc.st == old(desc.st)
    ensures desc.tfm.pristine != null && gotMemory && (forall n: nat :: !fails(n)) && !finalFails ==> ret == 0
  {
    var c;
    out := Zero();
    ret, c := Materialize(heap, desc.tfm, desc.st, gotMemory);
    if ret != 0 {
      return;
    }
    var ok := CmacUpdate(c, data, fails);
    if !ok {
      Dispose(heap, c);
      return -EINVAL, out;
    }
    ok, out := CmacFinal(c, finalFails);
    heap.Free(c);
    desc.st := ZeroSt();
    ret := if ok then 0 else -EINVAL;
  }

  /** `km_AesCmacDigest`: the tag of one message. */
  method Digest(heap: Heap, desc: Desc, data: seq<bv8>, gotMemory: bool, fails: nat -> bool, finalFails: bool) returns (ret: int, out: Block)
    modifies heap, desc
    ensures heap.live == old(heap.live)
    ensures desc.st == old(desc.st) || desc.st == ZeroSt()
    ensures ret == 0 ==> desc.tfm.pristine != null && out == Tag(desc.tfm.pristine.key, data)
    ensures desc.tfm.pristine != null && gotMemory && (forall n: nat :: !fails(n)) && !finalFails ==> ret == 0
  {
    ret := Init(desc);
    out := Zero();
    if ret != 0 {
      return;
    }
    ZeroIsStart();
    ret, out := Finup(heap, desc, data, gotMemory, fails, finalFails);
    if ret == 0 {
      ghost var k := desc.tfm.pristine.key;
      assert [] + data == data;
      AbsorbTag(k, Zero(), data);
    }
  }

  method Export(desc: Desc) returns (blob: St)
    ensures blob == desc.st
  {
    blob := desc.st;
  }

  /** `km_AesCmacImport`: only a state that an update can continue from is installed. */
  method Import(desc: Desc, blob: St) returns (ret: int)
    modifies desc
    ensures ret == if Sound(blob) then 0 else -EINVAL
    ensures desc.st == if Sound(blob) then blob else old(desc.st)
  {
    if blob.bufferSz > 16 {
      return -EINVAL;
    }
    desc.st := blob;
    return 0;
  }

  // ---- Every run of calls, with any failures ----

  /** The tfms that hold a keyed object. */
  ghost function Holders(tfms: set<Tfm>): set<Tfm>
    reads tfms
  {
    set t | t in tfms && t.pristine != null
  }

  /** Live objects and keyed tfms match one to one, so they are equal in number. */
  lemma {:induction false} LiveCount(live: set<Cmac>, holders: set<Tfm>)
    requires forall t :: t in holders ==> t.pristine != null && t.pristine in live
    requires forall t, u :: t in holders && u in holders && t.pristine == u.pristine ==> t == u
    requires forall c :: c in live ==> exists t :: t in holders && t.pristine == c
    ensures |live| == |holders|
    decreases holders
  {
    if holders == {} {
      assert live == {};
    } else {
      var t :| t in holders;
      var c := t.pristine;
      forall d | d in live - {c}
        ensures exists u :: u in holders - {t} && u.pristine == d
      {
        var u :| u in holders && u.pristine == d;
        assert u in holders - {t};
      }
      LiveCount(live - {c}, holders - {t});
    }
  }

  lemma {:induction false} OwnedCount(heap: Heap, tfms: set<Tfm>)
    requires Owned(heap, tfms)
    ensures |heap.live| == |Holders(tfms)|
  {
    forall c | c in heap.live
      ensures exists t :: t in Holders(tfms) && t.pristine == c
    {
      var t :| t in tfms && t.pristine == c;
      assert t in Holders(tfms);
    }
    LiveCount(heap.live, Holders(tfms));
  }

  /** A call on one of the tfms or descriptors, with the failures it meets. */
  datatype Call =
    | CallSetKey(t: nat, keylen: nat, key: CmacKey, gotMemory: bool, initRet: int)
    | CallExit(t: nat)
    | CallInit(d: nat)
    | CallUpdate(d: nat, data: seq<bv8>, gotMemory: bool, fails: nat -> bool)
    | CallFinal(d: nat, gotMemory: bool, finalFails: bool)
    | CallFinup(d: nat, data: seq<bv8>, gotMemory: bool, fails: nat -> bool, finalFails: bool)
    | CallDigest(d: nat, data: seq<bv8>, gotMemory: bool, fails: nat -> bool, finalFails: bool)
    | CallImport(d: nat, blob: St)

  predicate InRange(call: Call, tfms: nat, descs: nat) {
    match call
    case CallSetKey(t, _, _, _, _) => t < tfms
    case CallExit(t) => t < tfms
    case _ => call.d < descs
  }

  method Dispatch(heap: Heap, tfms: seq<Tfm>, descs: seq<Desc>, call: Call)
    requires InRange(call, |tfms|, |descs|)
    requires Owned(heap, set t | t in tfms)
    requires forall d :: d in descs ==> Sound(d.st)
    modifies heap, tfms, descs, heap.live
    ensures Owned(heap, set t | t in tfms)
    ensures forall d :: d in descs ==> Sound(d.st)
    ensures forall c :: c in heap.live ==> c in old(heap.live) || fresh(c)
  {
    ghost var all := set t | t in tfms;
    var ret, out;
    match call {
      case CallSetKey(t, keylen, key, gotMemory, initRet) => ret := SetKey(heap, tfms[t], all, keylen, key, gotMemory, initRet);
      case CallExit(t) => ExitTfm(heap, tfms[t], all);
      case CallInit(d) => ret := Init(descs[d]);
      case CallUpdate(d, data, gotMemory, fails) => ret := Update(heap, descs[d], data, gotMemory, fails);
      case CallFinal(d, gotMemory, finalFails) => ret, out := Final(heap, descs[d], gotMemory, finalFails);
      case CallFinup(d, data, gotMemory, fails, finalFails) => ret, out := Finup(heap, descs[d], data, gotMemory, fails, finalFails);
      case CallDigest(d, data, gotMemory, fails, finalFails) => ret, out := Digest(heap, descs[d], data, gotMemory, fails, finalFails);
      case CallImport(d, blob) => ret := Import(descs[d], blob);
    }
  }

  /** Whatever is called, in whatever order and with whatever failures, the live objects are
      exactly those the tfms hold: nothing leaks and nothing is released twice. */
  method RunCalls(heap: Heap, tfms: seq<Tfm>, descs: seq<Desc>, calls: seq<Call>)
    requires forall i :: 0 <= i < |calls| ==> InRange(calls[i], |tfms|, |descs|)
    requires Owned(heap, set t | t in tfms)
    requires forall d :: d in descs ==> Sound(d.st)
    modifies heap, tfms, descs, heap.live
    ensures Owned(heap, set t | t in tfms)
    ensures |heap.live| == |Holders(set t | t in tfms)|
    ensures forall d :: d in descs ==> Sound(d.st)
  {
    for i := 0 to |calls|
      invariant Owned(heap, set t | t in tfms)
      invariant forall d :: d in descs ==> Sound(d.st)
      invariant forall c :: c in heap.live ==> c in old(heap.live) || fresh(c)
    {
      Dispatch(heap, tfms, descs, calls[i]);
    }
    OwnedCount(heap, set t | t in tfms);
  }
}
