/**
  The remote TLB shootdown protocol: opensbi/lib/sbi/sbi_tlb.c together with the
  sending and receiving halves of opensbi/lib/sbi/sbi_ipi.c.

  Any number of running harts interleave. One step of a hart is one
  lock-protected FIFO operation, one atomic exchange or bit set, one write of the
  interrupt device, or one local flush. A hart's program is deterministic except
  when it is idle, where it may be asked for a remote fence, asked to send some
  other event, or take its pending software interrupt.

  `log`, `orig`, `targets`, `served` and `issuedAt` are history: no step reads
  them except to extend them.
 */
module Shootdown {
  import opened Basics
  import opened Fifo
  import opened Tlb

  const FIFO_ENTRIES := 8
  /** The number under which the TLB event is registered. */
  const TLB_EVENT: nat := 2

  /** The entry a hart has taken off its own FIFO: to be flushed, then acknowledged hart by hart. */
  datatype Work = NoWork | Flushing(entry: Info) | Acking(entry: Info, left: set<nat>)
  {
    function Unacked(): set<nat>
    {
      match this
      case NoWork => {}
      case Flushing(entry) => entry.smask
      case Acking(_, left) => left
    }
  }

  datatype Pc =
    | Idle
    // sbi_ipi_send_many with a TLB request: choose the next target, queue the request there, notify, wait
    | Dispatch
    | Merging(target: nat)
    | Enqueuing(target: nat)
    | HelpingEnqueue(target: nat, count: nat)
    | SettingBit(target: nat)
    | Raising(target: nat)
    | Syncing(target: nat)
    | HelpingSync(target: nat, count: nat)
    // sbi_ipi_send with any other event
    | EventSettingBit(target: nat, event: nat)
    | EventRaising(target: nat)
    // sbi_ipi_process
    | Exchanging
    | Handling(events: set<nat>)
    | Draining(events: set<nat>)
  {
    /** The hart whose acknowledgement is outstanding. */
    predicate WaitsOn(r: nat)
    {
      (SettingBit? || Raising? || Syncing? || HelpingSync?) && target == r
    }
    predicate Waiting() { SettingBit? || Raising? || Syncing? || HelpingSync? }
    /** Inside tlb_process or tlb_process_count. */
    predicate Processing() { HelpingEnqueue? || HelpingSync? || Draining? }
    predicate Requesting()
    {
      Dispatch? || Merging? || Enqueuing? || HelpingEnqueue? || Waiting()
    }
    predicate HasTarget()
    {
      Merging? || Enqueuing? || HelpingEnqueue? || Waiting()
    }
    /** Between setting an event bit of `r` and raising its interrupt. */
    predicate AboutToRaise(r: nat)
    {
      (Raising? || EventRaising?) && target == r
    }
  }

  datatype Hart = Hart(
    pc: Pc, work: Work, todo: seq<nat>, req: Info,
    fifo: seq<Info>, sync: bool, msip: bool, ipiType: set<nat>,
    // history
    log: seq<Info>, orig: Info, targets: seq<nat>, served: set<nat>, issuedAt: seq<nat>)

  /** The machine: the platform's range flush limit and one record per hart. */
  datatype State = State(limit: Word, harts: seq<Hart>)
  {
    predicate IsHart(h: nat) { h < |harts| }
  }

  datatype Action =
    | Issue(info: Info, to: seq<nat>)
    | SendEvent(receiver: nat, event: nat)
    | TakeInterrupt
    | Continue

  predicate Ascending(s: seq<nat>)
  {
    forall i, j :: 0 <= i < j < |s| ==> s[i] < s[j]
  }

  // ---------------------------------------------------------------------
  // Steps
  // ---------------------------------------------------------------------

  function Put(st: State, h: nat, hart: Hart): State
    requires st.IsHart(h)
  {
    st.(harts := st.harts[h := hart])
  }

  function PutPc(st: State, h: nat, pc: Pc): State
    requires st.IsHart(h)
  {
    Put(st, h, st.harts[h].(pc := pc))
  }

  predicate Enabled(st: State, h: nat, action: Action)
  {
    && st.IsHart(h)
    && match action
       case Issue(info, to) =>
         && st.harts[h].pc.Idle?
         && info.smask == {h}
         && Ascending(to)
         && (forall t <- to :: st.IsHart(t))
       case SendEvent(receiver, event) => st.harts[h].pc.Idle? && st.IsHart(receiver) && event != TLB_EVENT
       case TakeInterrupt => st.harts[h].pc.Idle? && st.harts[h].msip
       case Continue =>
         && !st.harts[h].pc.Idle?
         && ((st.harts[h].pc.HasTarget() || st.harts[h].pc.EventSettingBit? || st.harts[h].pc.EventRaising?) ==>
            st.IsHart(st.harts[h].pc.target))
         && (forall t <- st.harts[h].work.Unacked() :: st.IsHart(t))
  }

  /** sbi_ipi_send_many and the head of tlb_update for the next target. */
  function DispatchStep(st: State, h: nat): State
    requires st.IsHart(h)
  {
    var hart := st.harts[h];
    if hart.todo == [] then
      PutPc(st, h, Idle)
    else
      var next := hart.(req := Upgraded(hart.req, st.limit), todo := hart.todo[1..]);
      if hart.todo[0] == h then
        Put(st, h, next.(log := hart.log + [next.req], served := hart.served + {h}))
      else
        Put(st, h, next.(pc := Merging(hart.todo[0])))
  }

  function MergeStep(st: State, h: nat, r: nat): State
    requires st.IsHart(h) && st.IsHart(r)
  {
    var (queue, verdict) := InplaceUpdated(st.harts[r].fifo, st.harts[h].req, UpdateCallback);
    PutPc(Put(st, r, st.harts[r].(fifo := queue)), h, if verdict != Unchanged then SettingBit(r) else Enqueuing(r))
  }

  function EnqueueStep(st: State, h: nat, r: nat): State
    requires st.IsHart(h) && st.IsHart(r)
  {
    if |st.harts[r].fifo| < FIFO_ENTRIES then
      PutPc(Put(st, r, st.harts[r].(fifo := st.harts[r].fifo + [st.harts[h].req])), h, SettingBit(r))
    else
      PutPc(st, h, HelpingEnqueue(r, 0))
  }

  function SetBitStep(st: State, h: nat, r: nat, event: nat, then_: Pc): State
    requires st.IsHart(h) && st.IsHart(r)
  {
    PutPc(Put(st, r, st.harts[r].(ipiType := st.harts[r].ipiType + {event})), h, then_)
  }

  function RaiseStep(st: State, h: nat, r: nat, then_: Pc): State
    requires st.IsHart(h) && st.IsHart(r)
  {
    PutPc(Put(st, r, st.harts[r].(msip := true)), h, then_)
  }

  /** One exchange of the hart's own sync word. */
  function SyncStep(st: State, h: nat, r: nat): State
    requires st.IsHart(h)
  {
    var hart := st.harts[h];
    if hart.sync then
      Put(st, h, hart.(sync := false, pc := Dispatch, served := hart.served + {r}))
    else
      PutPc(st, h, HelpingSync(r, 0))
  }

  /** Where a hart goes when its processing loop ends. */
  function AfterProcessing(pc: Pc): Pc
    requires pc.Processing()
  {
    match pc
    case HelpingEnqueue(r, _) => Enqueuing(r)
    case HelpingSync(r, _) => Syncing(r)
    case Draining(events) => Handling(events)
  }

  /** The processing loop after one more entry: tlb_process_count stops after two. */
  function CountEntry(pc: Pc): Pc
    requires pc.Processing()
  {
    match pc
    case HelpingEnqueue(r, count) => if count + 1 > 1 then Enqueuing(r) else HelpingEnqueue(r, count + 1)
    case HelpingSync(r, count) => if count + 1 > 1 then Syncing(r) else HelpingSync(r, count + 1)
    case Draining(events) => Draining(events)
  }

  function Least(s: set<nat>): (m: nat)
    requires s != {}
    ensures m in s && forall x <- s :: m <= x
  {
    LeastExists(s);
    var m :| m in s && forall x <- s :: m <= x;
    m
  }

  lemma {:induction false} LeastExists(s: set<nat>)
    requires s != {}
    ensures exists m :: m in s && forall x <- s :: m <= x
  {
    var m := LeastOf(s);
    assert m in s && forall x <- s :: m <= x;
  }

  lemma {:induction false} LeastOf(s: set<nat>) returns (m: nat)
    requires s != {}
    ensures m in s && forall x :: x in s ==> m <= x
  {
    var first :| first in s;
    var rest := s - {first};
    assert forall x :: x in s ==> x == first || x in rest;
    m := first;
    if rest != {} {
      var other := LeastOf(rest);
      m := if other < m then other else m;
    }
  }

  /** tlb_process, tlb_process_count and tlb_entry_process. */
  function ProcessStep(st: State, h: nat): State
    requires st.IsHart(h) && st.harts[h].pc.Processing()
    requires forall t <- st.harts[h].work.Unacked() :: st.IsHart(t)
  {
    var hart := st.harts[h];
    match hart.work
    case NoWork =>
      if hart.fifo == [] then PutPc(st, h, AfterProcessing(hart.pc))
      else Put(st, h, hart.(work := Flushing(hart.fifo[0]), fifo := hart.fifo[1..]))
    case Flushing(entry) =>
      Put(st, h, hart.(work := Acking(entry, entry.smask), log := hart.log + [entry]))
    case Acking(entry, left) =>
      if left == {} then
        Put(st, h, hart.(work := NoWork, pc := CountEntry(hart.pc)))
      else
        var s := Least(left);
        assert s in st.harts[h].work.Unacked() && st.IsHart(s);
        if st.harts[s].sync then
          st  // the exchange found a 1 and spins
        else
          AckStep(st, h, entry, left, s)
  }

  function AckStep(st: State, h: nat, entry: Info, left: set<nat>, s: nat): State
    requires st.IsHart(h) && st.IsHart(s)
  {
    var acked := Put(st, s, st.harts[s].(sync := true));
    Put(acked, h, acked.harts[h].(work := Acking(entry, left - {s})))
  }

  function HandleStep(st: State, h: nat): State
    requires st.IsHart(h) && st.harts[h].pc.Handling?
  {
    var events := st.harts[h].pc.events;
    if events == {} then PutPc(st, h, Idle)
    else
      var event := Least(events);
      PutPc(st, h, if event == TLB_EVENT then Draining(events - {event}) else Handling(events - {event}))
  }

  function Next(st: State, h: nat, action: Action): State
    requires Enabled(st, h, action)
  {
    var hart := st.harts[h];
    match action
    case Issue(info, to) =>
      Put(st, h, hart.(pc := Dispatch, req := info, todo := to,
                       orig := info, targets := to, served := {},
                       issuedAt := seq(|st.harts|, i requires 0 <= i < |st.harts| => |st.harts[i].log|)))
    case SendEvent(receiver, event) => PutPc(st, h, EventSettingBit(receiver, event))
    case TakeInterrupt => Put(st, h, hart.(msip := false, pc := Exchanging))
    case Continue =>
      match hart.pc
      case Idle => st
      case Dispatch => DispatchStep(st, h)
      case Merging(r) => MergeStep(st, h, r)
      case Enqueuing(r) => EnqueueStep(st, h, r)
      case SettingBit(r) => SetBitStep(st, h, r, TLB_EVENT, Raising(r))
      case Raising(r) => RaiseStep(st, h, r, Syncing(r))
      case Syncing(r) => SyncStep(st, h, r)
      case EventSettingBit(r, event) => SetBitStep(st, h, r, event, EventRaising(r))
      case EventRaising(r) => RaiseStep(st, h, r, Idle)
      case Exchanging => Put(st, h, hart.(ipiType := {}, pc := Handling(hart.ipiType)))
      case Handling(_) => HandleStep(st, h)
      case HelpingEnqueue(_, _) => ProcessStep(st, h)
      case HelpingSync(_, _) => ProcessStep(st, h)
      case Draining(_) => ProcessStep(st, h)
  }

  // ---------------------------------------------------------------------
  // Runs
  // ---------------------------------------------------------------------

  predicate Init(st: State)
  {
    && st.limit <= WORDS - PAGE_SIZE
    && forall h :: 0 <= h < |st.harts| ==>
         && st.harts[h].pc == Idle && st.harts[h].work == NoWork
         && st.harts[h].fifo == [] && !st.harts[h].sync
         && !st.harts[h].msip && st.harts[h].ipiType == {}
  }

  /** A schedule: which hart moves, and what an idle hart is asked to do. */
  type Schedule = seq<(nat, Action)>

  ghost predicate IsRun(states: seq<State>, schedule: Schedule)
  {
    && |states| == |schedule| + 1
    && Init(states[0])
    && forall i :: 0 <= i < |schedule| ==>
         Enabled(states[i], schedule[i].0, schedule[i].1) &&
             states[i + 1] == Next(states[i], schedule[i].0, schedule[i].1)
  }

  /** Every remote fence requested in the schedule starts on a page boundary. */
  predicate AlignedRequests(schedule: Schedule)
  {
    forall i :: 0 <= i < |schedule| && schedule[i].1.Issue? ==> schedule[i].1.info.PageAligned()
  }
}
