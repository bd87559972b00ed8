/** The vector-register save and restore protocol of bsdkm/x86_vecreg.c, as a step system
    over any number of threads and CPUs.  Each step is one access to shared or per-thread
    state; steps of different threads interleave freely. */
module FpuProtocol {
  import opened Common

  const MAX_NEST := 128

  /** One entry of the per-CPU array: the nesting level and the thread using the FPU. */
  datatype Slot = Slot(nest: nat, tid: nat)

  /** Where a thread is in a call. */
  datatype Pc =
    | Idle
    | SaveNested      // the kernel FPU was already active
    | SaveOwned       // the slot names this thread
    | SaveFresh       // the kernel FPU was not active
    | SaveEntered     // fpu_kern_enter has returned
    | SaveCounted     // the nesting level is written, the thread id not yet
    | RestoreActive   // the kernel FPU is active
    | RestoreOwned    // the slot names this thread
    | RestoreTest     // the nesting level was lowered
    | RestoreLeave    // the thread id is cleared, fpu_kern_leave comes next

  /** `saves` counts the thread's successful saves not yet restored, `firsts` how often it
      went from zero to one and `lasts` how often it came back to zero; `enters` and
      `leaves` count the thread's calls of fpu_kern_enter and fpu_kern_leave. */
  datatype Thread = Thread(pc: Pc, kernFpu: bool, cpu: nat, saves: nat, firsts: nat, lasts: nat, enters: nat, leaves: nat)

  datatype Step = BeginSave | BeginRestore | Continue

  /** A thread's state, the slot of its CPU, and whether the step took a mismatch branch. */
  datatype Local = Local(th: Thread, slot: Slot, mismatch: bool)

  /** One step of thread `tid` on its CPU. */
  function LocalStep(tid: nat, th: Thread, slot: Slot, step: Step): Local {
    match (th.pc, step)
    case (Idle, BeginSave) => Local(th.(pc := if th.kernFpu then SaveNested else SaveFresh), slot, false)
    case (Idle, BeginRestore) => Local(th.(pc := if th.kernFpu then RestoreActive else Idle), slot, false)
    case (SaveNested, Continue) =>
      if slot.tid != tid then Local(th.(pc := Idle), slot, true) else Local(th.(pc := SaveOwned), slot, false)
    case (SaveOwned, Continue) =>
      if slot.nest >= MAX_NEST then Local(th.(pc := Idle), slot, false)
      else Local(th.(pc := Idle, saves := th.saves + 1, firsts := th.firsts + if th.saves == 0 then 1 else 0), slot.(nest := slot.nest + 1), false)
    case (SaveFresh, Continue) => Local(th.(pc := SaveEntered, kernFpu := true, enters := th.enters + 1), slot, false)
    case (SaveEntered, Continue) =>
      if slot.nest != 0 || slot.tid != 0 then Local(th.(pc := Idle), slot, true)
      else Local(th.(pc := SaveCounted), slot.(nest := slot.nest + 1), false)
    case (SaveCounted, Continue) =>
      Local(th.(pc := Idle, saves := th.saves + 1, firsts := th.firsts + if th.saves == 0 then 1 else 0), slot.(tid := tid), false)
    case (RestoreActive, Continue) =>
      if slot.tid != tid then Local(th.(pc := Idle), slot, true) else Local(th.(pc := RestoreOwned), slot, false)
    case (RestoreOwned, Continue) =>
      if slot.nest > 0 then
        Local(th.(pc := RestoreTest, saves := if th.saves > 0 then th.saves - 1 else 0, lasts := th.lasts + if th.saves == 1 then 1 else 0),
              slot.(nest := slot.nest - 1), false)
      else Local(th.(pc := RestoreTest), slot, false)
    case (RestoreTest, Continue) =>
      if slot.nest == 0 then Local(th.(pc := RestoreLeave), slot.(tid := 0), false) else Local(th.(pc := Idle), slot, false)
    case (RestoreLeave, Continue) =>
      Local(th.(pc := Idle, kernFpu := false, leaves := th.leaves + 1), slot, false)
    case _ => Local(th, slot, false)
  }

  /** How a thread that has the kernel FPU stands to the slot of its CPU. */
  predicate OwnerOk(tid: nat, th: Thread, slot: Slot) {
    match th.pc
    case SaveEntered => slot.nest == 0 && slot.tid == 0 && th.saves == 0
    case SaveCounted => slot.nest == 1 && slot.tid == 0 && th.saves == 0
    case RestoreTest => slot.nest == th.saves < MAX_NEST && slot.tid == tid
    case RestoreLeave => slot.nest == 0 && slot.tid == 0 && th.saves == 0
    case SaveFresh => false
    case _ => slot.nest == th.saves && 1 <= th.saves <= MAX_NEST && slot.tid == tid
  }

  /** The FPU is entered once for each outermost save and left once for each outermost
      restore; inside a call one of the two may be ahead by one. */
  predicate Balanced(th: Thread) {
    && th.enters == th.leaves + (if th.kernFpu then 1 else 0)
    && th.enters == th.firsts + (if th.pc == SaveEntered || th.pc == SaveCounted then 1 else 0)
    && th.lasts == th.leaves + (if th.pc == RestoreLeave || (th.pc == RestoreTest && th.saves == 0) then 1 else 0)
  }

  /** How a running thread stands to the slot of its CPU. */
  predicate LocalOk(tid: nat, th: Thread, slot: Slot) {
    && Balanced(th)
    && if th.kernFpu then OwnerOk(tid, th, slot)
       else slot.nest == 0 && slot.tid == 0 && th.saves == 0 && (th.pc == Idle || th.pc == SaveFresh)
  }

  /** Every step keeps the local relation and takes no mismatch branch. */
  lemma {:induction false} LocalStepOk(tid: nat, th: Thread, slot: Slot, step: Step)
    requires tid != 0 && LocalOk(tid, th, slot)
    ensures var l := LocalStep(tid, th, slot, step);
            LocalOk(tid, l.th, l.slot) && !l.mismatch && l.th.cpu == th.cpu
  {
  }

  // ---- All threads and CPUs ----

  /** `mismatches` counts the mismatch branches taken so far. */
  datatype State = State(slots: seq<Slot>, threads: map<nat, Thread>, mismatches: nat)

  datatype Action = Act(tid: nat, step: Step) | Migrate(tid: nat, cpu: nat)

  predicate Pinned(s: State, t: nat, c: nat) {
    t in s.threads && s.threads[t].kernFpu && s.threads[t].cpu == c
  }

  /** A thread can run on its CPU only when no other thread is pinned there. */
  predicate CanRun(s: State, t: nat)
    requires t in s.threads
  {
    forall u :: u in s.threads && u != t ==> !Pinned(s, u, s.threads[t].cpu)
  }

  /** Between fpu_kern_enter and fpu_kern_leave a thread is pinned; otherwise it may move. */
  predicate Enabled(s: State, a: Action) {
    match a
    case Act(t, _) => t in s.threads && CanRun(s, t) && s.threads[t].cpu < |s.slots|
    case Migrate(t, c) => t in s.threads && !s.threads[t].kernFpu && c < |s.slots|
  }

  function Next(s: State, a: Action): State
    requires Enabled(s, a)
  {
    match a
    case Act(t, step) =>
      var th := s.threads[t];
      var l := LocalStep(t, th, s.slots[th.cpu], step);
      State(s.slots[th.cpu := l.slot], s.threads[t := l.th], s.mismatches + if l.mismatch then 1 else 0)
    case Migrate(t, c) => s.(threads := s.threads[t := s.threads[t].(cpu := c)])
  }

  /** A thread that is not pinned has nothing outstanding; a pinned one agrees with its slot. */
  ghost predicate ThreadOk(s: State, t: nat)
    requires t in s.threads
  {
    var th := s.threads[t];
    && t != 0
    && th.cpu < |s.slots|
    && Balanced(th)
    && if th.kernFpu then OwnerOk(t, th, s.slots[th.cpu])
       else th.saves == 0 && (th.pc == Idle || th.pc == SaveFresh)
  }

  ghost predicate Free(s: State, c: nat) {
    forall t :: t in s.threads ==> !Pinned(s, t, c)
  }

  ghost predicate Exclusive(s: State) {
    forall t, u, c :: Pinned(s, t, c) && Pinned(s, u, c) ==> t == u
  }

  ghost predicate Inv(s: State) {
    && (forall t :: t in s.threads ==> ThreadOk(s, t))
    && (forall c :: 0 <= c < |s.slots| && Free(s, c) ==> s.slots[c].nest == 0 && s.slots[c].tid == 0)
    && Exclusive(s)
    && s.mismatches == 0
  }

  /** A running thread sees its CPU's slot in the local relation. */
  lemma {:induction false} RunningIsLocal(s: State, t: nat)
    requires Inv(s) && t in s.threads && CanRun(s, t)
    ensures LocalOk(t, s.threads[t], s.slots[s.threads[t].cpu])
  {
    var th := s.threads[t];
    assert ThreadOk(s, t);
    if !th.kernFpu {
      assert Free(s, th.cpu);
    }
  }

  /** Replacing a running thread and its slot by a pair in the local relation disturbs no other thread. */
  lemma {:induction false} ReplaceKeepsInv(s: State, t: nat, th': Thread, slot': Slot)
    requires Inv(s) && t in s.threads && CanRun(s, t)
    requires th'.cpu == s.threads[t].cpu && LocalOk(t, th', slot')
    ensures Inv(State(s.slots[th'.cpu := slot'], s.threads[t := th'], 0))
  {
    var c := th'.cpu;
    assert ThreadOk(s, t);
    var s' := State(s.slots[c := slot'], s.threads[t := th'], 0);
    forall u | u in s'.threads
      ensures ThreadOk(s', u)
    {
      if u != t {
        assert ThreadOk(s, u) && !Pinned(s, u, c);
      }
    }
    forall d | 0 <= d < |s'.slots| && Free(s', d)
      ensures s'.slots[d].nest == 0 && s'.slots[d].tid == 0
    {
      assert !Pinned(s', t, d);
      if d != c {
        assert Free(s, d) by {
          forall u | u in s.threads
            ensures !Pinned(s, u, d)
          {
            assert !Pinned(s', u, d);
          }
        }
      }
    }
    forall u, v, d | Pinned(s', u, d) && Pinned(s', v, d)
      ensures u == v
    {
      if u != t { assert Pinned(s, u, d) && !Pinned(s, u, c); }
      if v != t { assert Pinned(s, v, d) && !Pinned(s, v, c); }
    }
  }

  lemma {:induction false} NextKeepsInv(s: State, a: Action)
    requires Inv(s) && Enabled(s, a)
    ensures Inv(Next(s, a))
  {
    match a
    case Act(t, step) =>
      RunningIsLocal(s, t);
      assert ThreadOk(s, t);
      LocalStepOk(t, s.threads[t], s.slots[s.threads[t].cpu], step);
      var l := LocalStep(t, s.threads[t], s.slots[s.threads[t].cpu], step);
      ReplaceKeepsInv(s, t, l.th, l.slot);
    case Migrate(t, c) =>
      MigrateKeepsInv(s, t, c);
  }

  lemma {:induction false} MigrateKeepsInv(s: State, t: nat, c: nat)
    requires Inv(s) && Enabled(s, Migrate(t, c))
    ensures Inv(Next(s, Migrate(t, c)))
  {
    var s' := Next(s, Migrate(t, c));
    forall u, d
      ensures Pinned(s', u, d) <==> Pinned(s, u, d)
    {
    }
    forall u | u in s'.threads
      ensures ThreadOk(s', u)
    {
      assert ThreadOk(s, u);
    }
    forall d | 0 <= d < |s'.slots| && Free(s', d)
      ensures s'.slots[d].nest == 0 && s'.slots[d].tid == 0
    {
      assert Free(s, d) by {
        forall u | u in s.threads
          ensures !Pinned(s, u, d)
        {
          assert !Pinned(s', u, d);
        }
      }
    }
  }

  // ---- Whole runs ----

  ghost predicate Start(s: State) {
    && (forall c :: 0 <= c < |s.slots| ==> s.slots[c].nest == 0 && s.slots[c].tid == 0)
    && (forall t :: t in s.threads ==> t != 0 && Fresh(s.threads[t]) && s.threads[t].cpu < |s.slots|)
    && s.mismatches == 0
  }

  predicate Fresh(th: Thread) {
    th.pc == Idle && !th.kernFpu && th.saves == 0 && th.firsts == th.lasts == th.enters == th.leaves == 0
  }

  /** Each action is enabled when its turn comes. */
  ghost predicate ValidRun(s: State, acts: seq<Action>)
    decreases |acts|
  {
    acts == [] || (Enabled(s, acts[0]) && ValidRun(Next(s, acts[0]), acts[1..]))
  }

  ghost function Run(s: State, acts: seq<Action>): State
    requires ValidRun(s, acts)
    decreases |acts|
  {
    if acts == [] then s else Run(Next(s, acts[0]), acts[1..])
  }

  lemma {:induction false} RunKeepsInv(s: State, acts: seq<Action>)
    requires Inv(s) && ValidRun(s, acts)
    ensures Inv(Run(s, acts))
    decreases |acts|
  {
    if acts != [] {
      NextKeepsInv(s, acts[0]);
      RunKeepsInv(Next(s, acts[0]), acts[1..]);
    }
  }

  lemma {:induction false} StartIsInv(s: State)
    requires Start(s)
    ensures Inv(s)
  {
    forall t | t in s.threads
      ensures ThreadOk(s, t)
    {
      assert Fresh(s.threads[t]);
    }
    assert forall t :: t in s.threads ==> Fresh(s.threads[t]);
  }

  /** Safety of every interleaving, in every reachable state: no mismatch branch was taken, no
      nesting level exceeds 128, and a thread that has the FPU finds its outstanding saves in
      its CPU's nesting level, one more between counting a save and returning. A thread between calls
      that has the FPU owns its CPU's slot, whose nesting level is the number of its
      outstanding saves, from 1 to 128; a thread between calls that does not have it has
      nothing outstanding; and entries and exits match the outermost saves and restores. */
  lemma {:induction false} RunSafety(s0: State, acts: seq<Action>, t: nat)
    requires Start(s0) && ValidRun(s0, acts)
    ensures Run(s0, acts).mismatches == 0
    ensures forall c :: 0 <= c < |Run(s0, acts).slots| ==> Run(s0, acts).slots[c].nest <= 128
    ensures var s := Run(s0, acts);
            t in s.threads ==>
              var th := s.threads[t];
              && th.cpu < |s.slots|
              && (th.kernFpu ==> s.slots[th.cpu].nest == th.saves + if th.pc == SaveCounted then 1 else 0)
              && (!th.kernFpu ==> th.saves == 0)
    ensures var s := Run(s0, acts);
            t in s.threads && s.threads[t].pc == Idle ==>
              var th := s.threads[t];
              && th.cpu < |s.slots|
              && (th.kernFpu <==> th.saves > 0)
              && (th.kernFpu ==> s.slots[th.cpu].nest == th.saves <= 128 && s.slots[th.cpu].tid == t)
              && th.enters == th.firsts && th.leaves == th.lasts
              && th.firsts == th.lasts + if th.saves > 0 then 1 else 0
  {
    StartIsInv(s0);
    RunKeepsInv(s0, acts);
    var s := Run(s0, acts);
    if t in s.threads {
      assert ThreadOk(s, t);
    }
    forall c | 0 <= c < |s.slots| ensures s.slots[c].nest <= 128 {
      RunSlots(s0, acts, c);
    }
  }

  /** The thread has written one of the two fields of its slot and not yet the other. */
  predicate MidWrite(th: Thread) {
    th.pc == SaveCounted || (th.pc == RestoreTest && th.saves == 0)
  }

  /** In every reachable state, on every CPU: the nesting level is at most 128, no two threads
      own the CPU, and the thread id is zero exactly when the nesting level is, except while
      the owner is between its two writes. */
  lemma {:induction false} RunSlots(s0: State, acts: seq<Action>, c: nat)
    requires Start(s0) && ValidRun(s0, acts) && c < |Run(s0, acts).slots|
    ensures var s := Run(s0, acts);
            && s.slots[c].nest <= 128
            && (forall t, u :: Pinned(s, t, c) && Pinned(s, u, c) ==> t == u)
            && ((s.slots[c].tid == 0 <==> s.slots[c].nest == 0) <==> !exists t :: Pinned(s, t, c) && MidWrite(s.threads[t]))
  {
    StartIsInv(s0);
    RunKeepsInv(s0, acts);
    var s := Run(s0, acts);
    if t :| Pinned(s, t, c) {
      assert ThreadOk(s, t);
    } else {
      assert Free(s, c);
    }
  }

  /** In every run, a thread between calls that may run: its next save succeeds exactly while fewer
      than 128 are outstanding, and then one more is; its next restore, if any is outstanding,
      takes one away and leaves the FPU with the last. */
  lemma {:induction false} NextCall(s0: State, acts: seq<Action>, t: nat)
    requires Start(s0) && ValidRun(s0, acts)
    requires var s := Run(s0, acts); t in s.threads && s.threads[t].pc == Idle && CanRun(s, t) && s.threads[t].cpu < |s.slots|
    ensures var s := Run(s0, acts);
            var th, slot := s.threads[t], s.slots[s.threads[t].cpu];
            && (SaveCall(t, th.kernFpu, slot).ret == 0 <==> th.saves < 128)
            && (th.saves < 128 ==> SaveCall(t, th.kernFpu, slot).kernFpu && SaveCall(t, th.kernFpu, slot).slot == Slot(th.saves + 1, t))
            && (th.saves > 1 ==> RestoreCall(t, th.kernFpu, slot).kernFpu && RestoreCall(t, th.kernFpu, slot).slot == Slot(th.saves - 1, t))
            && (th.saves == 1 ==> !RestoreCall(t, th.kernFpu, slot).kernFpu && RestoreCall(t, th.kernFpu, slot).slot == Slot(0, 0))
  {
    StartIsInv(s0);
    RunKeepsInv(s0, acts);
    RunningIsLocal(Run(s0, acts), t);
  }

  /** With every thread between calls, unloading finds all slots clear exactly when no save is outstanding. */
  lemma {:induction false} UnloadCleanIff(s: State)
    requires Inv(s) && (forall t :: t in s.threads ==> s.threads[t].pc == Idle)
    ensures (forall c :: 0 <= c < |s.slots| ==> s.slots[c].nest == 0 && s.slots[c].tid == 0)
       <==> (forall t :: t in s.threads ==> s.threads[t].saves == 0)
  {
    if forall c :: 0 <= c < |s.slots| ==> s.slots[c].nest == 0 && s.slots[c].tid == 0 {
      forall t | t in s.threads
        ensures s.threads[t].saves == 0
      {
        assert ThreadOk(s, t);
      }
    }
    if forall t :: t in s.threads ==> s.threads[t].saves == 0 {
      forall c | 0 <= c < |s.slots|
        ensures s.slots[c].nest == 0 && s.slots[c].tid == 0
      {
        assert Free(s, c) by {
          forall t | t in s.threads
            ensures !Pinned(s, t, c)
          {
            assert ThreadOk(s, t);
          }
        }
      }
    }
  }

  // ---- Whole calls ----

  /** What a call leaves behind: the thread's FPU flag, the slot, and the return code. */
  datatype Outcome = Outcome(kernFpu: bool, slot: Slot, ret: int)

  function SaveCall(tid: nat, kernFpu: bool, slot: Slot): Outcome {
    if kernFpu then
      if slot.tid != tid || slot.nest >= MAX_NEST then Outcome(true, slot, EINVAL)
      else Outcome(true, slot.(nest := slot.nest + 1), 0)
    else if slot.nest != 0 || slot.tid != 0 then Outcome(true, slot, EINVAL)
    else Outcome(true, Slot(1, tid), 0)
  }

  function RestoreCall(tid: nat, kernFpu: bool, slot: Slot): Outcome {
    if !kernFpu || slot.tid != tid then Outcome(kernFpu, slot, 0)
    else
      var n := if slot.nest > 0 then slot.nest - 1 else 0;
      if n == 0 then Outcome(false, Slot(0, 0), 0) else Outcome(true, slot.(nest := n), 0)
  }

  /** `n` further steps of a call. */
  function Steps(tid: nat, th: Thread, slot: Slot, n: nat): Local
    decreases n
  {
    if n == 0 then Local(th, slot, false)
    else var l := LocalStep(tid, th, slot, Continue); Steps(tid, l.th, l.slot, n - 1)
  }

  /** Taken without interruption, the steps of a save amount to the whole call. */
  lemma {:induction false} SaveRuns(tid: nat, th: Thread, slot: Slot)
    requires th.pc == Idle
    ensures var b := LocalStep(tid, th, slot, BeginSave);
            var l := Steps(tid, b.th, b.slot, 3);
            var o := SaveCall(tid, th.kernFpu, slot);
            l.th.pc == Idle && l.th.kernFpu == o.kernFpu && l.slot == o.slot && l.th.saves == th.saves + if o.ret == 0 then 1 else 0
  {
    var b := LocalStep(tid, th, slot, BeginSave);
    var l1 := LocalStep(tid, b.th, b.slot, Continue);
    var l2 := LocalStep(tid, l1.th, l1.slot, Continue);
    var l3 := LocalStep(tid, l2.th, l2.slot, Continue);
    assert Steps(tid, l2.th, l2.slot, 1) == Steps(tid, l3.th, l3.slot, 0);
    assert Steps(tid, l1.th, l1.slot, 2) == Steps(tid, l2.th, l2.slot, 1);
  }

  /** And those of a restore. */
  lemma {:induction false} RestoreRuns(tid: nat, th: Thread, slot: Slot)
    requires th.pc == Idle
    ensures var b := LocalStep(tid, th, slot, BeginRestore);
            var l := Steps(tid, b.th, b.slot, 4);
            var o := RestoreCall(tid, th.kernFpu, slot);
            l.th.pc == Idle && l.th.kernFpu == o.kernFpu && l.slot == o.slot
  {
    var b := LocalStep(tid, th, slot, BeginRestore);
    var l1 := LocalStep(tid, b.th, b.slot, Continue);
    var l2 := LocalStep(tid, l1.th, l1.slot, Continue);
    var l3 := LocalStep(tid, l2.th, l2.slot, Continue);
    var l4 := LocalStep(tid, l3.th, l3.slot, Continue);
    assert Steps(tid, l3.th, l3.slot, 1) == Steps(tid, l4.th, l4.slot, 0);
    assert Steps(tid, l2.th, l2.slot, 2) == Steps(tid, l3.th, l3.slot, 1);
    assert Steps(tid, l1.th, l1.slot, 3) == Steps(tid, l2.th, l2.slot, 2);
  }

  // ---- The four entry points ----

  /** The part of a thread that the protocol touches. */
  class Td {
    const tid: nat
    var kernFpu: bool

    constructor (tid: nat)
      ensures this.tid == tid && !kernFpu
    {
      this.tid, this.kernFpu := tid, false;
    }
  }

  class VecRegs {
    var states: array?<Slot>

    constructor ()
      ensures states == null
    {
      states := null;
    }

    method Init(ncpus: int, gotMemory: bool) returns (ret: int)
      modifies this
      ensures ncpus <= 0 ==> ret == EINVAL && states == old(states)
      ensures ncpus > 0 && !gotMemory ==> ret == ENOMEM && states == null
      ensures ncpus > 0 && gotMemory ==> ret == 0
      ensures ret == 0 ==> states != null && fresh(states) && states.Length == ncpus && forall i :: 0 <= i < ncpus ==> states[i] == Slot(0, 0)
    {
      if ncpus <= 0 {
        return EINVAL;
      }
      if !gotMemory {
        states := null;
        return ENOMEM;
      }
      states := new Slot[ncpus](_ => Slot(0, 0));
      return 0;
    }

    /** Save on `cpu` by `td`; `dedicated` threads own a context of their own and do nothing. */
    method Save(td: Td, cpu: nat, dedicated: bool) returns (ret: int)
      requires states != null ==> cpu < states.Length
      modifies td, states
      ensures states == null ==> ret == EINVAL && td.kernFpu == old(td.kernFpu)
      ensures states != null && dedicated ==> ret == 0 && td.kernFpu == old(td.kernFpu) && states[..] == old(states[..])
      ensures states != null && !dedicated ==>
                var o := SaveCall(td.tid, old(td.kernFpu), old(states[cpu]));
                ret == o.ret && td.kernFpu == o.kernFpu && states[..] == old(states[..])[cpu := o.slot]
    {
      if states == null {
        return EINVAL;
      }
      if dedicated {
        return 0;
      }
      if td.kernFpu {
        if states[cpu].tid != td.tid {
          return EINVAL;
        }
        if states[cpu].nest >= MAX_NEST {
          return EINVAL;
        }
        states[cpu] := states[cpu].(nest := states[cpu].nest + 1);
      } else {
        td.kernFpu := true;
        if states[cpu].nest != 0 || states[cpu].tid != 0 {
          return EINVAL;
        }
        states[cpu] := states[cpu].(nest := states[cpu].nest + 1);
        states[cpu] := states[cpu].(tid := td.tid);
      }
      return 0;
    }

    method Restore(td: Td, cpu: nat, dedicated: bool)
      requires states != null ==> cpu < states.Length
      modifies td, states
      ensures states == null ==> td.kernFpu == old(td.kernFpu)
      ensures states != null && dedicated ==> td.kernFpu == old(td.kernFpu) && states[..] == old(states[..])
      ensures states != null && !dedicated ==>
                var o := RestoreCall(td.tid, old(td.kernFpu), old(states[cpu]));
                td.kernFpu == o.kernFpu && states[..] == old(states[..])[cpu := o.slot]
    {
      if states == null || dedicated {
        return;
      }
      if td.kernFpu {
        if states[cpu].tid != td.tid {
          return;
        }
        if states[cpu].nest > 0 {
          states[cpu] := states[cpu].(nest := states[cpu].nest - 1);
        }
        if states[cpu].nest == 0 {
          states[cpu] := states[cpu].(tid := 0);
          td.kernFpu := false;
        }
      }
    }

    /** Unload: reports the CPUs whose state was still in use. */
    method Exit() returns (orphans: set<nat>)
      modifies this, states
      ensures states == null
      ensures old(states) == null ==> orphans == {}
      ensures old(states) != null ==>
                orphans == set i: nat | i < old(states).Length && (old(states[..])[i].nest != 0 || old(states[..])[i].tid != 0)
    {
      orphans := {};
      if states == null {
        return;
      }
      ghost var before := states[..];
      for i := 0 to states.Length
        invariant states == old(states) && states != null && |before| == states.Length
        invariant forall j :: i <= j < states.Length ==> states[j] == before[j]
        invariant orphans == set j: nat | j < i && (before[j].nest != 0 || before[j].tid != 0)
      {
        if states[i].nest != 0 || states[i].tid != 0 {
          orphans := orphans + {i};
          states[i] := states[i].(nest := 0);
        }
      }
      states := null;
    }
  }
}
