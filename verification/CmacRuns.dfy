/** Runs of the CMAC operations under one key: every tag handed out is the CMAC of the message
    its descriptor stands for. */
module CmacRuns {
  import opened Common
  import opened BlockModes
  import opened CmacSpec
  import opened CmacShash

  /** A call on one of the descriptors, with the failures it meets. Exported states are kept by name. */
  datatype RunCall =
    | RunInit(d: nat)
    | RunUpdate(d: nat, data: seq<bv8>, gotMemory: bool, fails: nat -> bool)
    | RunFinal(d: nat, gotMemory: bool, finalFails: bool)
    | RunFinup(d: nat, data: seq<bv8>, gotMemory: bool, fails: nat -> bool, finalFails: bool)
    | RunDigest(d: nat, data: seq<bv8>, gotMemory: bool, fails: nat -> bool, finalFails: bool)
    | RunExport(d: nat, blob: nat)
    | RunImport(d: nat, blob: nat)

  datatype Reply = Reply(ret: int, tag: Block)

  /** What a call that returned `ret` means for the messages. A descriptor that was finalized,
      or whose state a failed call may have wiped, stands for nothing until it is set up again;
      one whose final found no memory, or whose finup failed before its final, still stands for
      its message. */
  function Meaning(call: RunCall, ret: int): Op {
    match call
    case RunInit(d) => if ret == 0 then Op.Init(d) else Lost(d)
    case RunUpdate(d, data, _, _) => if ret == 0 then Op.Update(d, data) else FailedUpdate(d)
    case RunFinal(d, gotMemory, _) => if gotMemory then Lost(d) else FailedUpdate(d)
    case RunFinup(d, _, gotMemory, _, finalFails) => if gotMemory && (ret == 0 || finalFails) then Lost(d) else FailedUpdate(d)
    case RunDigest(d, _, _, _, _) => Lost(d)
    case RunExport(d, b) => Op.Export(d, b)
    case RunImport(d, b) => if ret == 0 then Op.Import(d, b) else Lost(d)
  }

  /** The messages that descriptors and exported states stand for after the first `n` calls. */
  function Standing(calls: seq<RunCall>, replies: seq<Reply>, n: nat): Messages
    requires n <= |calls| && n <= |replies|
  {
    if n == 0 then Messages(map[], map[])
    else Note(Standing(calls, replies, n - 1), Meaning(calls[n - 1], replies[n - 1].ret))
  }

  /** A tag that was handed out is that of the whole message. */
  predicate TagRight(k: CmacKey, m: Messages, call: RunCall, reply: Reply) {
    reply.ret == 0 ==>
      match call
      case RunFinal(d, _, _) => d in m.descs ==> reply.tag == Tag(k, m.descs[d])
      case RunFinup(d, data, _, _, _) => d in m.descs ==> reply.tag == Tag(k, m.descs[d] + data)
      case RunDigest(_, data, _, _, _) => reply.tag == Tag(k, data)
      case _ => true
  }

  /** All descriptors belong to one tfm with the key `k`. */
  ghost predicate Keyed(k: CmacKey, tfm: Tfm, descs: seq<Desc>)
    reads tfm, tfm.pristine
  {
    && tfm.pristine != null && tfm.pristine.key == k
    && (forall i :: 0 <= i < |descs| ==> descs[i].tfm == tfm)
    && (forall i, j :: 0 <= i < j < |descs| ==> descs[i] != descs[j])
  }

  ghost predicate StateHolds(k: CmacKey, st: St, m: seq<bv8>) {
    Sound(st) && Holds(k, ViewOf(st), m)
  }

  /** Each descriptor and exported state holds exactly the message it stands for. */
  ghost predicate Related(k: CmacKey, sts: seq<St>, blobs: map<nat, St>, m: Messages) {
    && (forall i :: 0 <= i < |sts| ==> Sound(sts[i]))
    && (forall d :: d in m.descs ==> d < |sts| && StateHolds(k, sts[d], m.descs[d]))
    && (forall b :: b in m.blobs ==> b in blobs && StateHolds(k, blobs[b], m.blobs[b]))
  }

  /** The states of the descriptors. */
  ghost predicate Shows(descs: seq<Desc>, sts: seq<St>)
    reads descs
  {
    |sts| == |descs| && forall i :: 0 <= i < |descs| ==> descs[i].st == sts[i]
  }

  /** What a call makes of the state of its descriptor. */
  ghost predicate Leaves(k: CmacKey, blobs: map<nat, St>, call: RunCall, ret: int, st: St, st': St)
    requires Sound(st)
  {
    && Sound(st')
    && match call
       case RunInit(_) => ret == 0 ==> st' == ZeroSt()
       case RunUpdate(_, data, _, _) => if ret == 0 then ViewOf(st') == Feed(k, ViewOf(st), data) else st' == st
       case RunFinal(_, gotMemory, _) => !gotMemory ==> st' == st
       case RunFinup(_, _, gotMemory, _, finalFails) => !(gotMemory && (ret == 0 || finalFails)) ==> st' == st
       case RunDigest(_, _, _, _, _) => true
       case RunExport(_, _) => st' == st
       case RunImport(_, b) => ret == 0 ==> b in blobs && st' == blobs[b]
  }

  /** The tag that a call gives on the state of its descriptor. */
  ghost predicate Gives(k: CmacKey, call: RunCall, ret: int, st: St, tag: Block)
    requires Sound(st)
  {
    ret == 0 ==>
      match call
      case RunFinal(_, _, _) => tag == FinalTag(k, ViewOf(st))
      case RunFinup(_, data, _, _, _) => tag == FinalTag(k, Feed(k, ViewOf(st), data))
      case RunDigest(_, data, _, _, _) => tag == Tag(k, data)
      case _ => true
  }

  /** A call touches the state of its own descriptor, and the message follows. */
  lemma {:induction false} RelatedAfter(k: CmacKey, sts: seq<St>, blobs: map<nat, St>, m: Messages, call: RunCall, ret: int, st': St)
    requires Related(k, sts, blobs, m) && call.d < |sts| && !call.RunExport? && Leaves(k, blobs, call, ret, sts[call.d], st')
    ensures Related(k, sts[call.d := st'], blobs, Note(m, Meaning(call, ret)))
  {
    var d := call.d;
    if call.RunInit? {
      ZeroIsStart();
      assert StateHolds(k, ZeroSt(), []);
    } else if call.RunUpdate? && ret == 0 && d in m.descs {
      FeedHolds(k, ViewOf(sts[d]), m.descs[d], call.data);
      assert StateHolds(k, st', m.descs[d] + call.data);
    }
  }

  lemma {:induction false} RelatedExport(k: CmacKey, sts: seq<St>, blobs: map<nat, St>, m: Messages, d: nat, b: nat)
    requires Related(k, sts, blobs, m) && d < |sts|
    ensures Related(k, sts, blobs[b := sts[d]], Note(m, Op.Export(d, b)))
  {
  }

  /** The tags that a descriptor standing for `msg` gives. */
  lemma {:induction false} RightTags(k: CmacKey, st: St, msg: seq<bv8>, data: seq<bv8>)
    requires StateHolds(k, st, msg)
    ensures FinalTag(k, ViewOf(st)) == Tag(k, msg)
    ensures FinalTag(k, Feed(k, ViewOf(st), data)) == Tag(k, msg + data)
  {
    FeedHolds(k, ViewOf(st), msg, data);
    AbsorbTag(k, Zero(), msg);
    AbsorbTag(k, Zero(), msg + data);
  }

  /** A call that produces no tag, on its descriptor. */
  method Absorbing(heap: Heap, k: CmacKey, desc: Desc, blobs: map<nat, St>, call: RunCall) returns (ret: int)
    requires call.RunInit? || call.RunUpdate? || call.RunImport?
    requires desc.tfm.pristine != null && desc.tfm.pristine.key == k && Sound(desc.st)
    modifies heap, desc
    ensures heap.live == old(heap.live)
    ensures Leaves(k, blobs, call, ret, old(desc.st), desc.st)
  {
    match call {
      case RunInit(_) => ret := CmacShash.Init(desc);
      case RunUpdate(_, data, gotMemory, fails) => ret := CmacShash.Update(heap, desc, data, gotMemory, fails);
      case RunImport(_, b) =>
        ret := -EINVAL;
        if b in blobs { ret := CmacShash.Import(desc, blobs[b]); }
    }
  }

  /** A call that produces a tag, on its descriptor. */
  method Finishing(heap: Heap, k: CmacKey, desc: Desc, blobs: map<nat, St>, call: RunCall) returns (ret: int, tag: Block)
    requires call.RunFinal? || call.RunFinup? || call.RunDigest?
    requires desc.tfm.pristine != null && desc.tfm.pristine.key == k && Sound(desc.st)
    modifies heap, desc
    ensures heap.live == old(heap.live)
    ensures Leaves(k, blobs, call, ret, old(desc.st), desc.st)
    ensures Gives(k, call, ret, old(desc.st), tag)
  {
    match call {
      case RunFinal(_, gotMemory, finalFails) => ret, tag := CmacShash.Final(heap, desc, gotMemory, finalFails);
      case RunFinup(_, data, gotMemory, fails, finalFails) => ret, tag := CmacShash.Finup(heap, desc, data, gotMemory, fails, finalFails);
      case RunDigest(_, data, gotMemory, fails, finalFails) => ret, tag := CmacShash.Digest(heap, desc, data, gotMemory, fails, finalFails);
    }
  }

  /** A tag of the descriptor's state is the tag of the message it holds. */
  lemma {:induction false} GivesRight(k: CmacKey, sts: seq<St>, blobs: map<nat, St>, m: Messages, call: RunCall, reply: Reply)
    requires Related(k, sts, blobs, m) && call.d < |sts| && Gives(k, call, reply.ret, sts[call.d], reply.tag)
    ensures TagRight(k, m, call, reply)
  {
    if call.d in m.descs { RightTags(k, sts[call.d], m.descs[call.d], if call.RunFinup? then call.data else []); }
  }

  /** One call. */
  method Perform(heap: Heap, k: CmacKey, tfm: Tfm, descs: seq<Desc>, blobs: map<nat, St>, call: RunCall, ghost sts: seq<St>, ghost m: Messages)
      returns (reply: Reply, blobs': map<nat, St>, ghost sts': seq<St>)
    requires call.d < |descs| && Keyed(k, tfm, descs) && Shows(descs, sts) && Related(k, sts, blobs, m)
    modifies heap, descs
    ensures Keyed(k, tfm, descs) && heap.live == old(heap.live)
    ensures Shows(descs, sts') && Related(k, sts', blobs', Note(m, Meaning(call, reply.ret)))
    ensures TagRight(k, m, call, reply)
  {
    var d := call.d;
    var desc := descs[d];
    blobs', sts' := blobs, sts;
    if call.RunExport? {
      var blob := CmacShash.Export(desc);
      blobs', reply := blobs[call.blob := blob], Reply(0, Zero());
      RelatedExport(k, sts, blobs, m, d, call.blob);
      return;
    }
    var ret, tag := 0, Zero();
    if call.RunInit? || call.RunUpdate? || call.RunImport? {
      ret := Absorbing(heap, k, desc, blobs, call);
    } else {
      ret, tag := Finishing(heap, k, desc, blobs, call);
    }
    reply := Reply(ret, tag);
    GivesRight(k, sts, blobs, m, call, reply);
    RelatedAfter(k, sts, blobs, m, call, ret, desc.st);
    sts' := sts[d := desc.st];
  }

  lemma {:induction false} StandingPrefix(calls: seq<RunCall>, replies: seq<Reply>, more: Reply, n: nat)
    requires n <= |replies| && n <= |calls|
    ensures Standing(calls, replies + [more], n) == Standing(calls, replies, n)
  {
    if n > 0 { StandingPrefix(calls, replies, more, n - 1); }
  }

  predicate TagRightAt(k: CmacKey, calls: seq<RunCall>, replies: seq<Reply>, i: nat)
    requires i < |calls| && i < |replies|
  {
    TagRight(k, Standing(calls, replies, i), calls[i], replies[i])
  }

  ghost predicate AllRight(k: CmacKey, calls: seq<RunCall>, replies: seq<Reply>) {
    |replies| <= |calls| && forall i :: 0 <= i < |replies| ==> TagRightAt(k, calls, replies, i)
  }

  lemma {:induction false} AllRightStep(k: CmacKey, calls: seq<RunCall>, replies: seq<Reply>, reply: Reply, m: Messages, more: seq<Reply>)
    requires AllRight(k, calls, replies) && |replies| < |calls| && more == replies + [reply]
    requires m == Standing(calls, replies, |replies|) && TagRight(k, m, calls[|replies|], reply)
    ensures AllRight(k, calls, more)
    ensures Standing(calls, more, |more|) == Note(m, Meaning(calls[|replies|], reply.ret))
  {
    forall i | 0 <= i < |replies| ensures TagRightAt(k, calls, more, i) == TagRightAt(k, calls, replies, i) {
      StandingPrefix(calls, replies, reply, i);
    }
    StandingPrefix(calls, replies, reply, |replies|);
    assert TagRightAt(k, calls, more, |replies|) == TagRight(k, m, calls[|replies|], reply);
  }

  /** In every run without a rekey, with any exports, imports, abandoned descriptors and failed
      calls, each tag handed out is the CMAC of the concatenated message, and no object leaks. */
  method RunTags(heap: Heap, k: CmacKey, tfm: Tfm, descs: seq<Desc>, calls: seq<RunCall>) returns (replies: seq<Reply>)
    requires Keyed(k, tfm, descs)
    requires forall i :: 0 <= i < |descs| ==> Sound(descs[i].st)
    requires forall i :: 0 <= i < |calls| ==> calls[i].d < |descs|
    modifies heap, descs
    ensures |replies| == |calls| && AllRight(k, calls, replies)
    ensures heap.live == old(heap.live)
  {
    replies := [];
    var blobs: map<nat, St> := map[];
    ghost var sts := seq(|descs|, i requires 0 <= i < |descs| reads descs => descs[i].st);
    ghost var m := Messages(map[], map[]);
    while |replies| < |calls|
      invariant Keyed(k, tfm, descs) && heap.live == old(heap.live)
      invariant Shows(descs, sts) && Related(k, sts, blobs, m)
      invariant AllRight(k, calls, replies) && m == Standing(calls, replies, |replies|)
      decreases |calls| - |replies|
    {
      var reply;
      reply, blobs, sts := Perform(heap, k, tfm, descs, blobs, calls[|replies|], sts, m);
      var more := replies + [reply];
      AllRightStep(k, calls, replies, reply, m, more);
      replies, m := more, Note(m, Meaning(calls[|replies|], reply.ret));
    }
  }

  /** What the verdict on a run says of one reply. */
  lemma {:induction false} ReplyMeans(k: CmacKey, calls: seq<RunCall>, replies: seq<Reply>, i: nat)
    requires AllRight(k, calls, replies) && i < |replies| && replies[i].ret == 0
    ensures var m, call := Standing(calls, replies, i), calls[i];
            && (call.RunFinal? && call.d in m.descs ==> replies[i].tag == Tag(k, m.descs[call.d]))
            && (call.RunFinup? && call.d in m.descs ==> replies[i].tag == Tag(k, m.descs[call.d] + call.data))
            && (call.RunDigest? ==> replies[i].tag == Tag(k, call.data))
  {
    assert TagRightAt(k, calls, replies, i);
  }

  /** The data of the calls from 1 to `n`, joined. */
  function Joined(calls: seq<RunCall>, n: nat): seq<bv8>
    requires 1 <= n <= |calls| && forall i :: 1 <= i < n ==> calls[i].RunUpdate?
  {
    if n == 1 then [] else Joined(calls, n - 1) + calls[n - 1].data
  }

  /** A message split into any updates: the descriptor stands for their concatenation. */
  lemma {:induction false} StandsForAll(calls: seq<RunCall>, replies: seq<Reply>, d: nat, n: nat)
    requires 1 <= n <= |calls| && n <= |replies| && calls[0] == RunInit(d)
    requires forall i :: 1 <= i < n ==> calls[i].RunUpdate? && calls[i].d == d
    requires forall i :: 0 <= i < n ==> replies[i].ret == 0
    ensures d in Standing(calls, replies, n).descs && Standing(calls, replies, n).descs[d] == Joined(calls, n)
  {
    if n > 1 { StandsForAll(calls, replies, d, n - 1); }
  }

  /** Its final tag is the CMAC of the whole message, however it was split. */
  lemma {:induction false} SplitMessage(k: CmacKey, calls: seq<RunCall>, replies: seq<Reply>, d: nat, n: nat)
    requires AllRight(k, calls, replies) && 1 <= n < |replies| && calls[0] == RunInit(d)
    requires forall i :: 1 <= i < n ==> calls[i].RunUpdate? && calls[i].d == d
    requires calls[n].RunFinal? && calls[n].d == d
    requires forall i :: 0 <= i <= n ==> replies[i].ret == 0
    ensures replies[n].tag == Tag(k, Joined(calls, n))
  {
    StandsForAll(calls, replies, d, n);
    ReplyMeans(k, calls, replies, n);
  }

  /** A state exported and imported elsewhere stands for the same message. */
  lemma {:induction false} HandedOver(calls: seq<RunCall>, replies: seq<Reply>, n: nat, d: nat, e: nat, b: nat)
    requires n + 2 <= |calls| && n + 2 <= |replies| && calls[n] == RunExport(d, b) && calls[n + 1] == RunImport(e, b)
    requires replies[n + 1].ret == 0 && d in Standing(calls, replies, n).descs
    ensures e in Standing(calls, replies, n + 2).descs
    ensures Standing(calls, replies, n + 2).descs[e] == Standing(calls, replies, n).descs[d]
  {
    assert Standing(calls, replies, n + 1) == Note(Standing(calls, replies, n), Op.Export(d, b));
  }

  /** A failed update, and a final or finup that fails before its final, leave all messages as they were. */
  lemma {:induction false} FailedKeeps(calls: seq<RunCall>, replies: seq<Reply>, n: nat)
    requires n < |calls| && n < |replies| && replies[n].ret != 0
    requires calls[n].RunUpdate? || (calls[n].RunFinal? && !calls[n].gotMemory)
          || (calls[n].RunFinup? && (!calls[n].gotMemory || !calls[n].finalFails))
    ensures Standing(calls, replies, n + 1) == Standing(calls, replies, n)
  {
  }
}
