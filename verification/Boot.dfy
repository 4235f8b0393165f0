/**
  Cold boot and the hart state machine of OpenSBI: the lottery, the wait/wake
  handshake and the warm-boot dispatch (opensbi/lib/sbi/sbi_init.c), and the
  compare-and-swap protocol of the HSM extension (opensbi/lib/sbi/sbi_hsm.c;
  chapter 9 of the RISC-V SBI Specification v1.0).

  Any number of harts interleave. One step is one atomic exchange or
  compare-and-swap, one read or write of a shared word, one critical section of
  the cold-boot lock, or one write of the interrupt device. Only the cold hart
  keeps the lock over several steps.
 */
module Boot {
  import opened Basics

  datatype Hsm = Started | Stopped | StartPending | StopPending | Suspended | ResumePending

  datatype Pc =
    // sbi_init, entered at reset, after a stop, and after a non-retentive suspend
    | Entry
    // init_coldboot
    | ColdInit
    | ColdFinalize(todo: set<nat>)
    | ColdKick(target: nat, todo: set<nat>)
    | ColdStore
    | ColdLock
    | ColdSend(next: nat)
    | ColdJump
    // wait_for_coldboot
    | WaitMark
    | WaitRead
    | WaitSleep
    | WaitUnmark
    // init_warmboot
    | Dispatch
    | ResumeStart
    | ResumeFinish
    | StartRead
    | StartSleep
    | WarmInit
    | WarmJump
    // the supervisor runs
    | Running
    | Kick(target: nat)
    | Exiting
    | Suspending(retentive: bool)
    | Restoring
    // sbi_hart_hang
    | Hung
  {
    predicate Cold()
    {
      ColdInit? || ColdFinalize? || ColdKick? || ColdStore? || ColdLock? || ColdSend? || ColdJump?
    }
    /** The hart has marked itself as waiting and not yet unmarked itself. */
    predicate Marked() { WaitRead? || WaitSleep? || WaitUnmark? }
    /** On the way from sbi_init to the warm-boot dispatch. */
    predicate Arriving() { Entry? || WaitMark? || Marked() || Dispatch? }
    /** Has made `r` start and is about to raise its interrupt. */
    predicate AboutToKick(r: nat) { (Kick? || ColdKick?) && target == r }
  }

  /**
    A hart. `starts` counts successful hart_start calls on it, `stops` how often it
    became stopped; both are history.
   */
  datatype Hart = Hart(pc: Pc, hsm: Hsm, msip: bool, starts: nat, stops: nat)

  /**
    Shared memory and all harts. `ready` says that the hart states have been
    initialised, `cold` which hart won the lottery; both are history.
   */
  datatype State = State(
    harts: seq<Hart>, lottery: bool, done: bool, mask: set<nat>, lock: Option<nat>,
    ready: bool, cold: Option<nat>)
  {
    predicate IsHart(h: nat) { h < |harts| }
  }

  /** What a running hart's supervisor asks for, or the handling of a software interrupt. */
  datatype Call = Start(target: nat) | Stop | Suspend(retentive: bool) | TakeInterrupt

  /** The inputs of a step that the program text leaves open. */
  datatype Choice = Choice(supported: bool, boot: set<nat>, target: nat, call: Call, wake: bool, handle: bool)

  // ---------------------------------------------------------------------
  // Steps
  // ---------------------------------------------------------------------

  function Put(s: State, h: nat, hart: Hart): (s': State)
    requires s.IsHart(h)
    ensures |s'.harts| == |s.harts|
  {
    s.(harts := s.harts[h := hart])
  }

  function PutPc(s: State, h: nat, pc: Pc): (s': State)
    requires s.IsHart(h)
    ensures |s'.harts| == |s.harts|
  {
    Put(s, h, s.harts[h].(pc := pc))
  }

  function Raise(s: State, h: nat): (s': State)
    requires s.IsHart(h)
    ensures |s'.harts| == |s.harts|
  {
    Put(s, h, s.harts[h].(msip := true))
  }

  /** A compare-and-swap on the hart's own state word, with the next instruction for success and failure. */
  function OwnCas(s: State, h: nat, expected: Hsm, next: Hsm, pc: Pc, failed: Pc): (s': State)
    requires s.IsHart(h)
    ensures |s'.harts| == |s.harts|
  {
    if s.harts[h].hsm == expected then Put(s, h, s.harts[h].(hsm := next, pc := pc))
    else PutPc(s, h, failed)
  }

  /** The compare-and-swap of hart_start on another hart's state word. */
  function StartCas(s: State, t: nat): (s': State)
    requires s.IsHart(t)
    ensures |s'.harts| == |s.harts|
  {
    Put(s, t, s.harts[t].(hsm := StartPending, starts := s.harts[t].starts + 1))
  }

  /** The hart states that sbi_hsm_init writes. */
  function Initialised(harts: seq<Hart>, h: nat): (r: seq<Hart>)
    ensures |r| == |harts|
  {
    seq(|harts|, i requires 0 <= i < |harts| =>
      harts[i].(hsm := if i == h then StartPending else Stopped, starts := 0, stops := if i == h then 0 else 1))
  }

  function EntryStep(s: State, h: nat, c: Choice): (s': State)
    requires s.IsHart(h)
    ensures |s'.harts| == |s.harts|
  {
    if c.supported && !s.lottery then PutPc(s.(lottery := true, cold := Some(h)), h, ColdInit)
    else PutPc(s, h, WaitMark)
  }

  /** sbi_hsm_init on the cold hart; `boot` are the boot harts of the domains it will start. */
  function ColdInitStep(s: State, h: nat, c: Choice): (s': State)
    requires s.IsHart(h)
    ensures |s'.harts| == |s.harts|
  {
    PutPc(s.(harts := Initialised(s.harts, h), ready := true), h,
        ColdFinalize(set t | t in c.boot && t < |s.harts| && t != h))
  }

  /** sbi_domain_finalize: start the boot harts one by one, and hang if one cannot be started. */
  function ColdFinalizeStep(s: State, h: nat, c: Choice): (s': State)
    requires s.IsHart(h) && s.harts[h].pc.ColdFinalize?
    ensures |s'.harts| == |s.harts|
  {
    var todo := s.harts[h].pc.todo;
    if todo == {} || c.target !in todo || !s.IsHart(c.target) then (if todo == {} then PutPc(s, h, ColdStore) else s)
    else if s.harts[c.target].hsm != Stopped then PutPc(s, h, Hung)
    else PutPc(StartCas(s, c.target), h, ColdKick(c.target, todo - {c.target}))
  }

  /** The loop of wake_coldboot_harts. */
  function ColdSendStep(s: State, h: nat): (s': State)
    requires s.IsHart(h) && s.harts[h].pc.ColdSend?
    ensures |s'.harts| == |s.harts|
  {
    var i := s.harts[h].pc.next;
    if i >= |s.harts| then PutPc(s.(lock := None), h, ColdJump)
    else if i != h && i in s.mask then PutPc(Raise(s, i), h, ColdSend(i + 1))
    else PutPc(s, h, ColdSend(i + 1))
  }

  function ColdStep(s: State, h: nat, c: Choice): (s': State)
    requires s.IsHart(h) && s.harts[h].pc.Cold()
    ensures |s'.harts| == |s.harts|
  {
    match s.harts[h].pc
    case ColdInit => ColdInitStep(s, h, c)
    case ColdFinalize(_) => ColdFinalizeStep(s, h, c)
    case ColdKick(t, todo) => if s.IsHart(t) then PutPc(Raise(s, t), h, ColdFinalize(todo)) else s
    case ColdStore => PutPc(s.(done := true), h, ColdLock)
    case ColdLock => if s.lock == None then PutPc(s.(lock := Some(h)), h, ColdSend(0)) else s
    case ColdSend(_) => ColdSendStep(s, h)
    case _ => OwnCas(s, h, StartPending, Started, Running, Hung)
  }

  /** From sbi_init to the dispatch, for every hart that is not the cold one. */
  function ArriveStep(s: State, h: nat, c: Choice): (s': State)
    requires s.IsHart(h) && s.harts[h].pc.Arriving()
    ensures |s'.harts| == |s.harts|
  {
    match s.harts[h].pc
    case Entry => EntryStep(s, h, c)
    case WaitMark => if s.lock == None then PutPc(s.(mask := s.mask + {h}), h, WaitRead) else s
    case WaitRead => PutPc(s, h, if s.done then WaitUnmark else WaitSleep)
    case WaitSleep => if s.harts[h].msip then PutPc(s, h, WaitRead) else s
    case WaitUnmark => if s.lock == None then PutPc(s.(mask := s.mask - {h}), h, Dispatch) else s
    case _ => PutPc(s, h, if s.harts[h].hsm == Suspended then ResumeStart else StartRead)
  }

  predicate InWarmBoot(pc: Pc)
  {
    pc.ResumeStart? || pc.ResumeFinish? || pc.StartRead? || pc.StartSleep? || pc.WarmInit? || pc.WarmJump?
  }

  /** init_warm_resume and init_warm_startup. */
  function WarmStep(s: State, h: nat, c: Choice): (s': State)
    requires s.IsHart(h) && InWarmBoot(s.harts[h].pc)
    ensures |s'.harts| == |s.harts|
  {
    match s.harts[h].pc
    case ResumeStart => OwnCas(s, h, Suspended, ResumePending, ResumeFinish, Hung)
    case ResumeFinish => OwnCas(s, h, ResumePending, Started, Running, Hung)
    case StartRead => PutPc(s, h, if s.harts[h].hsm == StartPending then WarmInit else StartSleep)
    case StartSleep => if s.harts[h].msip || c.wake then PutPc(s, h, StartRead) else s
    case WarmInit => Put(s, h, s.harts[h].(msip := false, pc := WarmJump))
    case _ => OwnCas(s, h, StartPending, Started, Running, Hung)
  }

  predicate InService(pc: Pc)
  {
    pc.Running? || pc.Kick? || pc.Exiting? || pc.Suspending? || pc.Restoring?
  }

  /** hart_start, hart_stop and hart_suspend on behalf of the supervisor, and sbi_ipi_process. */
  function CallStep(s: State, h: nat, call: Call): (s': State)
    requires s.IsHart(h)
    ensures |s'.harts| == |s.harts|
  {
    match call
    case Start(t) => if s.IsHart(t) && s.harts[t].hsm == Stopped then PutPc(StartCas(s, t), h, Kick(t)) else s
    case Stop => OwnCas(s, h, Started, StopPending, Exiting, Running)
    case Suspend(retentive) => OwnCas(s, h, Started, Suspended, Suspending(retentive), Restoring)
    case TakeInterrupt => Put(s, h, s.harts[h].(msip := false))
  }

  function ServiceStep(s: State, h: nat, c: Choice): (s': State)
    requires s.IsHart(h) && InService(s.harts[h].pc)
    ensures |s'.harts| == |s.harts|
  {
    match s.harts[h].pc
    case Running => CallStep(s, h, c.call)
    case Kick(t) => if s.IsHart(t) then PutPc(Raise(s, t), h, Running) else s
    case Exiting =>
      if c.handle then Put(s, h, s.harts[h].(msip := false))
      else if s.harts[h].hsm == StopPending
      then Put(s, h, s.harts[h].(hsm := Stopped, stops := s.harts[h].stops + 1, pc := Entry))
      else PutPc(s, h, Hung)
    case Suspending(retentive) => PutPc(s, h, if retentive then Restoring else Entry)
    case _ => OwnCas(s, h, Suspended, Started, Running, Hung)
  }

  /** One step of hart h. A hart that hangs, or waits for the lock or an interrupt, stays where it is. */
  function Next(s: State, h: nat, c: Choice): (s': State)
    requires s.IsHart(h)
    ensures |s'.harts| == |s.harts|
  {
    var pc := s.harts[h].pc;
    if pc.Cold() then ColdStep(s, h, c)
    else if pc.Arriving() then ArriveStep(s, h, c)
    else if InWarmBoot(pc) then WarmStep(s, h, c)
    else if InService(pc) then ServiceStep(s, h, c)
    else s
  }

  /** At power-on all harts are about to enter sbi_init; state words hold anything. */
  ghost predicate Init(s: State)
  {
    && !s.lottery && !s.done && !s.ready && s.mask == {} && s.lock == None && s.cold == None
    && forall h :: 0 <= h < |s.harts| ==> s.harts[h].pc == Entry
  }

  ghost predicate IsRun(states: seq<State>, schedule: seq<(nat, Choice)>)
  {
    && |states| == |schedule| + 1 && Init(states[0])
    && forall i :: 0 <= i < |schedule| ==>
         states[i].IsHart(schedule[i].0) && states[i + 1] == Next(states[i], schedule[i].0, schedule[i].1)
  }

  /** The transitions between hart states that the SBI specification allows. */
  predicate Edge(from: Hsm, to: Hsm)
  {
    match from
    case Stopped => to == StartPending
    case StartPending => to == Started
    case Started => to == StopPending || to == Suspended
    case StopPending => to == Stopped
    case Suspended => to == ResumePending || to == Started
    case ResumePending => to == Started
  }
}
