/**
  The shootdown protocol cannot deadlock: whatever full queues and mutual waiting a
  run has led to, it can go on until every hart is idle again, and so every
  requested fence complete, without a new request.

  Harts loop while they wait, so the argument is a weight that some hart can always
  bring down: it counts what is left of requests, queued entries and pending
  interrupts.
 */
module ShootdownProgress {
  import opened Fifo
  import opened Tlb
  import opened Shootdown
  import opened ShootdownAcks
  import opened ShootdownCoverage
  import opened ShootdownWakeup

  // ---------------------------------------------------------------------
  // The weight
  // ---------------------------------------------------------------------

  function WorkWeight(work: Work): nat
  {
    match work
    case NoWork => 0
    case Flushing(entry) => 2 + |entry.smask|
    case Acking(_, left) => 1 + |left|
  }

  function QueueWeight(fifo: seq<Info>): nat
  {
    if fifo == [] then 0 else 6 + |fifo[0].smask| + QueueWeight(fifo[1..])
  }

  /** How far a hart is from being idle, by its place in the program. */
  function PcWeight(pc: Pc): nat
  {
    match pc
    case Idle => 0
    case Dispatch => 1
    case Merging(_) => 19
    case Enqueuing(_) => 18
    case HelpingEnqueue(_, _) => 20
    case SettingBit(_) => 10
    case Raising(_) => 6
    case Syncing(_) => 2
    case HelpingSync(_, _) => 4
    case EventSettingBit(_, _) => 8
    case EventRaising(_) => 4
    case Exchanging => 2
    case Handling(events) => 1 + 3 * |events|
    case Draining(events) => 2 + 3 * |events|
  }

  /** The weight of a place in the program and of the targets still to come. */
  function Ahead(pc: Pc, hart: Hart): nat
  {
    PcWeight(pc) + (if pc.Requesting() then 20 * |hart.todo| else 0)
  }

  function Weight(hart: Hart): nat
  {
    Ahead(hart.pc, hart) + WorkWeight(hart.work) + QueueWeight(hart.fifo) + (if hart.msip then 3 else 0) +
        3 * |hart.ipiType|
  }

  ghost function Total(harts: seq<Hart>): nat
  {
    if harts == [] then 0 else Total(harts[..|harts| - 1]) + Weight(harts[|harts| - 1])
  }

  lemma {:induction false} TotalUpdate(harts: seq<Hart>, h: nat, hart: Hart)
    requires h < |harts|
    ensures Total(harts[h := hart]) == Total(harts) - Weight(harts[h]) + Weight(hart)
  {
    var n := |harts| - 1;
    if h == n {
      assert harts[h := hart][..n] == harts[..n];
    } else {
      assert harts[h := hart][..n] == harts[..n][h := hart];
      TotalUpdate(harts[..n], h, hart);
    }
  }

  lemma PutTotal(st: State, h: nat, hart: Hart)
    requires st.IsHart(h)
    ensures Total(Put(st, h, hart).harts) == Total(st.harts) - Weight(st.harts[h]) + Weight(hart)
  {
    TotalUpdate(st.harts, h, hart);
  }

  /** A step that changes hart r, possibly h itself, and then the place of h. */
  lemma PutPcTotal(st: State, r: nat, other: Hart, h: nat, pc: Pc)
    requires st.IsHart(h) && st.IsHart(r) && other.pc == st.harts[r].pc && other.todo == st.harts[r].todo
    ensures Total(PutPc(Put(st, r, other), h, pc).harts)
            == Total(st.harts) - Weight(st.harts[r]) + Weight(other) +
                Ahead(pc, st.harts[h]) - Ahead(st.harts[h].pc, st.harts[h])
  {
    var mid := Put(st, r, other);
    PutTotal(st, r, other);
    PutTotal(mid, h, mid.harts[h].(pc := pc));
  }

  /** A step that changes the place of h only. */
  lemma MoveTotal(st: State, h: nat, pc: Pc)
    requires st.IsHart(h)
    ensures Total(PutPc(st, h, pc).harts)
            == Total(st.harts) + Ahead(pc, st.harts[h]) - Ahead(st.harts[h].pc, st.harts[h])
  {
    PutTotal(st, h, st.harts[h].(pc := pc));
  }

  lemma NewQueueWeight(hart: Hart, fifo: seq<Info>)
    ensures Weight(hart.(fifo := fifo)) == Weight(hart) - QueueWeight(hart.fifo) + QueueWeight(fifo)
  {
  }

  // ---------------------------------------------------------------------
  // Queues
  // ---------------------------------------------------------------------

  lemma {:induction false} QueueWeightAppend(fifo: seq<Info>, entry: Info)
    ensures QueueWeight(fifo + [entry]) == QueueWeight(fifo) + 6 + |entry.smask|
  {
    if fifo == [] {
      assert fifo + [entry] == [entry];
    } else {
      assert (fifo + [entry])[1..] == fifo[1..] + [entry];
      QueueWeightAppend(fifo[1..], entry);
    }
  }

  lemma {:induction false} QueueWeightUpdate(fifo: seq<Info>, at: nat, entry: Info)
    requires at < |fifo|
    ensures QueueWeight(fifo[at := entry]) == QueueWeight(fifo) - |fifo[at].smask| + |entry.smask|
  {
    if at == 0 {
      assert fifo[at := entry][1..] == fifo[1..];
    } else {
      assert fifo[at := entry][1..] == fifo[1..][at - 1 := entry];
      QueueWeightUpdate(fifo[1..], at - 1, entry);
    }
  }

  lemma SmallerSet(s: set<nat>, x: nat)
    ensures |s + {x}| <= |s| + 1
    ensures x in s ==> |s - {x}| == |s| - 1
  {
    if x in s {
      assert s + {x} == s;
    }
  }

  // ---------------------------------------------------------------------
  // Steps that bring the weight down
  // ---------------------------------------------------------------------

  /** The hart's next step is to look whether somebody else has moved, in vain. */
  predicate Blocked(st: State, h: nat)
    requires st.IsHart(h)
  {
    var hart := st.harts[h];
    || (hart.pc.Enqueuing? && st.IsHart(hart.pc.target) && |st.harts[hart.pc.target].fifo| >= FIFO_ENTRIES)
    || (hart.pc.Syncing? && !hart.sync)
  }

  lemma DispatchIsLighter(st: State, h: nat)
    requires st.IsHart(h) && st.harts[h].pc.Dispatch?
    ensures Total(DispatchStep(st, h).harts) < Total(st.harts)
  {
    var hart := st.harts[h];
    if hart.todo == [] {
      PutTotal(st, h, hart.(pc := Idle));
    } else {
      var next := hart.(req := Upgraded(hart.req, st.limit), todo := hart.todo[1..]);
      if hart.todo[0] == h {
        PutTotal(st, h, next.(log := hart.log + [next.req], served := hart.served + {h}));
      } else {
        PutTotal(st, h, next.(pc := Merging(hart.todo[0])));
      }
    }
  }

  /** A merge adds at most one hart to be acknowledged. */
  lemma MergedQueueWeight(st: State, h: nat, r: nat)
    requires st.IsHart(h) && st.IsHart(r) && st.harts[h].req.smask == {h}
    ensures var fifo := st.harts[r].fifo;
            var (queue, verdict) := InplaceUpdated(fifo, st.harts[h].req, UpdateCallback);
            QueueWeight(queue) <= QueueWeight(fifo) + if verdict == Unchanged then 0 else 1
  {
    var at := MergeEffect(st, h, r);
    var fifo, queue := st.harts[r].fifo, InplaceUpdated(st.harts[r].fifo, st.harts[h].req, UpdateCallback).0;
    if at < |fifo| {
      QueueWeightUpdate(fifo, at, queue[at]);
      SmallerSet(fifo[at].smask, h);
    }
  }

  lemma MergeIsLighter(st: State, h: nat, r: nat)
    requires AckInv(st) && st.IsHart(h) && st.harts[h].pc == Merging(r)
    ensures st.IsHart(r) && Total(MergeStep(st, h, r).harts) < Total(st.harts)
  {
    assert HartOk(st, h);
    MergedQueueWeight(st, h, r);
    var (queue, verdict) := InplaceUpdated(st.harts[r].fifo, st.harts[h].req, UpdateCallback);
    NewQueueWeight(st.harts[r], queue);
    PutPcTotal(st, r, st.harts[r].(fifo := queue), h, if verdict != Unchanged then SettingBit(r) else Enqueuing(r));
  }

  lemma EnqueueIsLighter(st: State, h: nat, r: nat)
    requires AckInv(st) && st.IsHart(h) && st.harts[h].pc == Enqueuing(r) && !Blocked(st, h)
    ensures st.IsHart(r) && Total(EnqueueStep(st, h, r).harts) < Total(st.harts)
  {
    assert HartOk(st, h);
    QueueWeightAppend(st.harts[r].fifo, st.harts[h].req);
    PutPcTotal(st, r, st.harts[r].(fifo := st.harts[r].fifo + [st.harts[h].req]), h, SettingBit(r));
  }

  lemma SetBitIsLighter(st: State, h: nat, r: nat, event: nat, then_: Pc)
    requires st.IsHart(h) && st.IsHart(r) && Ahead(then_, st.harts[h]) + 3 < Ahead(st.harts[h].pc, st.harts[h])
    ensures Total(SetBitStep(st, h, r, event, then_).harts) < Total(st.harts)
  {
    SmallerSet(st.harts[r].ipiType, event);
    PutPcTotal(st, r, st.harts[r].(ipiType := st.harts[r].ipiType + {event}), h, then_);
  }

  lemma RaiseIsLighter(st: State, h: nat, r: nat, then_: Pc)
    requires st.IsHart(h) && st.IsHart(r) && Ahead(then_, st.harts[h]) + 3 < Ahead(st.harts[h].pc, st.harts[h])
    ensures Total(RaiseStep(st, h, r, then_).harts) < Total(st.harts)
  {
    PutPcTotal(st, r, st.harts[r].(msip := true), h, then_);
  }

  lemma HandleIsLighter(st: State, h: nat)
    requires st.IsHart(h) && st.harts[h].pc.Handling?
    ensures Total(HandleStep(st, h).harts) < Total(st.harts)
  {
    var events := st.harts[h].pc.events;
    if events == {} {
      MoveTotal(st, h, Idle);
    } else {
      var event := Least(events);
      SmallerSet(events, event);
      MoveTotal(st, h, if event == TLB_EVENT then Draining(events - {event}) else Handling(events - {event}));
    }
  }

  lemma ProcessIsLighter(st: State, h: nat)
    requires AckInv(st) && st.IsHart(h) && st.harts[h].pc.Processing()
    requires forall t <- st.harts[h].work.Unacked() :: st.IsHart(t)
    ensures Total(ProcessStep(st, h).harts) < Total(st.harts)
  {
    var hart := st.harts[h];
    if hart.work.Acking? && hart.work.left != {} {
      var s := Least(hart.work.left);
      AckConserved(st, h, s);
      AckIsLighter(st, h, hart.work.entry, hart.work.left, s);
    } else {
      OwnProcessIsLighter(st, h);
    }
  }

  lemma OwnProcessIsLighter(st: State, h: nat)
    requires st.IsHart(h) && st.harts[h].pc.Processing() && forall t <- st.harts[h].work.Unacked() :: st.IsHart(t)
    requires !(st.harts[h].work.Acking? && st.harts[h].work.left != {})
    ensures Total(ProcessStep(st, h).harts) < Total(st.harts)
  {
    var hart := st.harts[h];
    if hart.work.Flushing? {
      FlushIsLighter(st, h, hart.work.entry);
    } else if hart.work.Acking? {
      FinishIsLighter(st, h, hart.work.entry);
    } else if hart.fifo == [] {
      LoopEndIsLighter(st, h);
    } else {
      TakeOffTotal(st, h);
    }
  }

  lemma FlushIsLighter(st: State, h: nat, entry: Info)
    requires st.IsHart(h) && st.harts[h].work == Flushing(entry)
    ensures var hart := st.harts[h];
            var flushed := hart.(work := Acking(entry, entry.smask), log := hart.log + [entry]);
            Total(Put(st, h, flushed).harts) < Total(st.harts)
  {
    var hart := st.harts[h];
    PutTotal(st, h, hart.(work := Acking(entry, entry.smask), log := hart.log + [entry]));
  }

  lemma FinishIsLighter(st: State, h: nat, entry: Info)
    requires st.IsHart(h) && st.harts[h].pc.Processing() && st.harts[h].work == Acking(entry, {})
    ensures Total(Put(st, h, st.harts[h].(work := NoWork, pc := CountEntry(st.harts[h].pc))).harts) < Total(st.harts)
  {
    LoopsAreLighter(st.harts[h]);
    PutTotal(st, h, st.harts[h].(work := NoWork, pc := CountEntry(st.harts[h].pc)));
  }

  lemma LoopEndIsLighter(st: State, h: nat)
    requires st.IsHart(h) && st.harts[h].pc.Processing()
    ensures Total(PutPc(st, h, AfterProcessing(st.harts[h].pc)).harts) < Total(st.harts)
  {
    MoveTotal(st, h, AfterProcessing(st.harts[h].pc));
  }

  lemma LoopsAreLighter(hart: Hart)
    requires hart.pc.Processing()
    ensures Ahead(CountEntry(hart.pc), hart) <= Ahead(hart.pc, hart)
  {
  }

  lemma AckIsLighter(st: State, h: nat, entry: Info, left: set<nat>, s: nat)
    requires st.IsHart(h) && st.IsHart(s) && st.harts[h].work == Acking(entry, left) && s in left
    ensures Total(AckStep(st, h, entry, left, s).harts) < Total(st.harts)
  {
    var acked := Put(st, s, st.harts[s].(sync := true));
    PutTotal(st, s, st.harts[s].(sync := true));
    PutTotal(acked, h, acked.harts[h].(work := Acking(entry, left - {s})));
    SmallerSet(left, s);
  }

  lemma RequestIsLighter(st: State, h: nat)
    requires AckInv(st) && Enabled(st, h, Continue) && !Blocked(st, h)
    requires st.harts[h].pc.Requesting() && !st.harts[h].pc.Processing()
    ensures Total(Next(st, h, Continue).harts) < Total(st.harts)
  {
    assert HartOk(st, h);
    var hart := st.harts[h];
    match hart.pc
    case Dispatch => DispatchIsLighter(st, h);
    case Merging(r) => MergeIsLighter(st, h, r);
    case Enqueuing(r) => EnqueueIsLighter(st, h, r);
    case SettingBit(r) => SetBitIsLighter(st, h, r, TLB_EVENT, Raising(r));
    case Raising(r) => RaiseIsLighter(st, h, r, Syncing(r));
    case Syncing(r) => SyncIsLighter(st, h, r);
  }

  lemma SyncIsLighter(st: State, h: nat, r: nat)
    requires st.IsHart(h) && st.harts[h].pc == Syncing(r) && st.harts[h].sync
    ensures Total(SyncStep(st, h, r).harts) < Total(st.harts)
  {
    var hart := st.harts[h];
    PutTotal(st, h, hart.(sync := false, pc := Dispatch, served := hart.served + {r}));
  }

  lemma ExchangeIsLighter(st: State, h: nat)
    requires st.IsHart(h) && st.harts[h].pc == Exchanging
    ensures Total(Put(st, h, st.harts[h].(ipiType := {}, pc := Handling(st.harts[h].ipiType))).harts) < Total(st.harts)
  {
    PutTotal(st, h, st.harts[h].(ipiType := {}, pc := Handling(st.harts[h].ipiType)));
  }

  /** Every step of a busy hart that is not blocked brings the weight down. */
  lemma StepIsLighter(st: State, h: nat)
    requires AckInv(st) && Enabled(st, h, Continue) && !Blocked(st, h)
    ensures Total(Next(st, h, Continue).harts) < Total(st.harts)
  {
    var pc := st.harts[h].pc;
    if pc.Processing() {
      ProcessIsLighter(st, h);
    } else if pc.Requesting() {
      RequestIsLighter(st, h);
    } else if pc.EventSettingBit? {
      SetBitIsLighter(st, h, pc.target, pc.event, EventRaising(pc.target));
    } else if pc.EventRaising? {
      RaiseIsLighter(st, h, pc.target, Idle);
    } else if pc.Handling? {
      HandleIsLighter(st, h);
    } else {
      ExchangeIsLighter(st, h);
    }
  }

  /** So does taking a pending interrupt. */
  lemma InterruptIsLighter(st: State, h: nat)
    requires Enabled(st, h, TakeInterrupt)
    ensures Total(Next(st, h, TakeInterrupt).harts) < Total(st.harts)
  {
    PutTotal(st, h, Next(st, h, TakeInterrupt).harts[h]);
  }

  /** A blocked hart with entries of its own to process takes two steps to do so. */
  lemma HelpIsLighter(st: State, h: nat)
    requires AckInv(st) && Enabled(st, h, Continue) && Blocked(st, h) && st.harts[h].fifo != []
    ensures var mid := Next(st, h, Continue);
            Enabled(mid, h, Continue) && Total(Next(mid, h, Continue).harts) < Total(st.harts)
  {
    assert HartOk(st, h);
    var pc := st.harts[h].pc;
    HelpingIsLighter(st, h, if pc.Enqueuing? then HelpingEnqueue(pc.target, 0) else HelpingSync(pc.target, 0));
  }

  /** Turning to its own queue and taking off an entry. */
  lemma HelpingIsLighter(st: State, h: nat, helping: Pc)
    requires st.IsHart(h) && st.harts[h].work == NoWork && st.harts[h].fifo != []
    requires st.harts[h].pc.Enqueuing? || st.harts[h].pc.Syncing?
    requires helping.Processing() && helping.Requesting() && PcWeight(helping) <= PcWeight(st.harts[h].pc) + 2
    ensures Total(ProcessStep(PutPc(st, h, helping), h).harts) < Total(st.harts)
  {
    MoveTotal(st, h, helping);
    TakeOffTotal(PutPc(st, h, helping), h);
  }

  /** Taking an entry off the queue weighs more than starting to help. */
  lemma TakeOffTotal(st: State, h: nat)
    requires st.IsHart(h) && st.harts[h].pc.Processing() && st.harts[h].work == NoWork && st.harts[h].fifo != []
    ensures Total(ProcessStep(st, h).harts) + 4 == Total(st.harts)
  {
    var hart := st.harts[h];
    PutTotal(st, h, hart.(work := Flushing(hart.fifo[0]), fifo := hart.fifo[1..]));
  }

  // ---------------------------------------------------------------------
  // Somebody can always move
  // ---------------------------------------------------------------------

  /** All harts are idle and no interrupt is pending. */
  ghost predicate AllQuiet(st: State)
  {
    forall h :: 0 <= h < |st.harts| ==> st.harts[h].pc == Idle && !st.harts[h].msip
  }

  /** All harts that are not idle are blocked, with nothing of their own to process. */
  ghost predicate Stuck(st: State)
  {
    forall h :: 0 <= h < |st.harts| && st.harts[h].pc != Idle ==> Blocked(st, h) && st.harts[h].fifo == []
  }

  /** Even then an idle hart has its interrupt pending: the one somebody is waiting for. */
  lemma StuckHartHasInterrupt(st: State, h: nat) returns (r: nat)
    requires AckInv(st) && WakeInv(st) && Stuck(st) && st.IsHart(h) && st.harts[h].pc != Idle
    ensures Enabled(st, r, TakeInterrupt)
  {
    assert HartOk(st, h);
    r := st.harts[h].pc.target;
    assert HartOk(st, r);
    if st.harts[h].pc.Syncing? {
      assert WaitsOn(st, h, r);
      assert !Taken(st, r, h);
      var i: nat :| InFifo(st, r, i, h);
    }
    assert st.harts[r].fifo != [] && st.harts[r].pc == Idle;
    assert QueueBacked(st, r) && EventsBacked(st, r);
  }

  /** The second run goes on from the first, without new requests. */
  ghost predicate GoesOn(states: seq<State>, schedule: Schedule, states': seq<State>, schedule': Schedule)
  {
    && IsRun(states', schedule') && states <= states' && schedule <= schedule'
    && forall i :: |schedule| <= i < |schedule'| ==> schedule'[i].1 == Continue || schedule'[i].1 == TakeInterrupt
  }

  /** Every run can go on, without new requests, until all harts are idle and no interrupt is pending. */
  lemma {:induction false} NoDeadlock(states: seq<State>, schedule: Schedule)
    returns (states': seq<State>, schedule': Schedule)
    requires IsRun(states, schedule)
    ensures GoesOn(states, schedule, states', schedule') && AllQuiet(states'[|states'| - 1])
    decreases Total(states[|states| - 1].harts)
  {
    if AllQuiet(states[|states| - 1]) {
      return states, schedule;
    }
    var longer, plan := LighterRun(states, schedule);
    states', schedule' := NoDeadlock(longer, plan);
    GoesFurther(states, schedule, longer, plan, states', schedule');
  }

  /**
    A fence that has just been requested can complete: the run can go on, without new
    requests, until the caller returns, and by then every target has flushed all that
    was asked.
   */
  lemma FenceCanComplete(states: seq<State>, schedule: Schedule, h: nat, info: Info, to: seq<nat>)
    returns (states': seq<State>, schedule': Schedule, i: nat)
    requires IsRun(states, schedule) && AlignedRequests(schedule) && schedule != []
    requires schedule[|schedule| - 1] == (h, Issue(info, to)) && WellFormed(info, states[|schedule| - 1].limit)
    ensures GoesOn(states, schedule, states', schedule') && |schedule| <= i < |schedule'|
    ensures states'[i + 1].IsHart(h) && states'[i + 1].harts[h].pc == Idle
    ensures forall t <- to :: states[|schedule| - 1].IsHart(t) &&
              HasFlushed(states'[i], t, |states[|schedule| - 1].harts[t].log|, info)
  {
    var from := |schedule| - 1;
    states', schedule' := NoDeadlock(states, schedule);
    assert states'[from + 1] == states[from + 1] == Next(states[from], h, Issue(info, to));
    HartsStay(states', schedule', h, from + 1);
    assert states'[from + 1].harts[h].pc == Dispatch && states'[|states'| - 1].harts[h].pc == Idle;
    i := FirstReturn(states', h, from + 1, from + 2);
    assert AlignedRequests(schedule') by {
      assert forall k :: 0 <= k < |schedule| ==> schedule'[k] == schedule[k];
    }
    forall t | t in to
      ensures states[from].IsHart(t) && HasFlushed(states'[i], t, |states[from].harts[t].log|, info)
    {
      RemoteFenceCompletes(states', schedule', from, i, h, info, to, t);
    }
  }

  /** Harts do not come or go. */
  lemma {:induction false} HartsStay(states: seq<State>, schedule: Schedule, h: nat, i: nat)
    requires IsRun(states, schedule) && i < |states| && states[i].IsHart(h)
    ensures forall j :: i <= j < |states| ==> h < |states[j].harts|
    decreases |states| - i
  {
    if i + 1 < |states| {
      HartsKept(states[i], schedule[i].0, schedule[i].1);
      HartsStay(states, schedule, h, i + 1);
    }
  }

  lemma HartsKept(st: State, h: nat, action: Action)
    requires Enabled(st, h, action)
    ensures |Next(st, h, action).harts| == |st.harts|
  {
    if !action.Issue? {
      NextKeepsRecords(st, h, action);
    }
  }

  /** The last of the busy states that begin at `from`, given that a later one is idle. */
  lemma {:induction false} FirstReturn(states: seq<State>, h: nat, from: nat, k: nat) returns (i: nat)
    requires from < k < |states| && forall j :: from <= j < |states| ==> h < |states[j].harts|
    requires forall j :: from <= j < k ==> states[j].harts[h].pc != Idle
    requires states[|states| - 1].harts[h].pc == Idle
    ensures from <= i < |states| - 1 && states[i + 1].harts[h].pc == Idle
    ensures forall j :: from <= j <= i ==> states[j].harts[h].pc != Idle
    decreases |states| - k
  {
    if states[k].harts[h].pc == Idle {
      return k - 1;
    }
    i := FirstReturn(states, h, from, k + 1);
  }

  lemma GoesFurther(states: seq<State>, schedule: Schedule, longer: seq<State>, plan: Schedule,
                    states': seq<State>, schedule': Schedule)
    requires GoesOn(states, schedule, longer, plan) && GoesOn(longer, plan, states', schedule')
    ensures GoesOn(states, schedule, states', schedule')
  {
    forall i | |schedule| <= i < |schedule'|
      ensures schedule'[i].1 == Continue || schedule'[i].1 == TakeInterrupt
    {
      if i < |plan| {
        assert schedule'[i] == plan[i];
      }
    }
  }

  lemma LighterRun(states: seq<State>, schedule: Schedule) returns (longer: seq<State>, plan: Schedule)
    requires IsRun(states, schedule) && !AllQuiet(states[|states| - 1])
    ensures GoesOn(states, schedule, longer, plan)
    ensures Total(longer[|longer| - 1].harts) < Total(states[|states| - 1].harts)
  {
    RunKeepsWakeInv(states, schedule, |states| - 1);
    var h: nat, n: nat, action := LighterPath(states, schedule);
    longer, plan := Extend(states, schedule, h, action);
    if n == 2 {
      var longest, whole := Extend(longer, plan, h, Continue);
      GoesFurther(states, schedule, longer, plan, longest, whole);
      return longest, whole;
    }
  }

  /** What to do next: one step, or two of a blocked hart. */
  lemma LighterPath(states: seq<State>, schedule: Schedule) returns (h: nat, n: nat, action: Action)
    requires IsRun(states, schedule) && !AllQuiet(states[|states| - 1])
    requires AckInv(states[|states| - 1]) && WakeInv(states[|states| - 1])
    ensures var st := states[|states| - 1];
            && (action == Continue || action == TakeInterrupt) && Enabled(st, h, action)
            && (n == 2 ==> Enabled(Next(st, h, action), h, Continue))
            && var next := if n == 2 then Next(Next(st, h, action), h, Continue) else Next(st, h, action);
               Total(next.harts) < Total(st.harts)
  {
    var last := |states| - 1;
    var st := states[last];
    if h :| 0 <= h < |st.harts| && st.harts[h].pc != Idle && !Blocked(st, h) {
      BusyHartsCanMove(states, schedule, last, h);
      StepIsLighter(st, h);
      return h, 1, Continue;
    } else if h :| 0 <= h < |st.harts| && st.harts[h].pc != Idle && st.harts[h].fifo != [] {
      BusyHartsCanMove(states, schedule, last, h);
      HelpIsLighter(st, h);
      return h, 2, Continue;
    }
    if k :| 0 <= k < |st.harts| && st.harts[k].pc != Idle {
      h := StuckHartHasInterrupt(st, k);
    } else {
      h :| 0 <= h < |st.harts| && st.harts[h].msip;
    }
    InterruptIsLighter(st, h);
    return h, 1, TakeInterrupt;
  }

  lemma Extend(states: seq<State>, schedule: Schedule, h: nat, action: Action)
    returns (states': seq<State>, schedule': Schedule)
    requires IsRun(states, schedule) && Enabled(states[|states| - 1], h, action)
    ensures action == Continue || action == TakeInterrupt ==> GoesOn(states, schedule, states', schedule')
    ensures IsRun(states', schedule') && |states'| == |states| + 1 &&
            states'[|states'| - 1] == Next(states[|states| - 1], h, action)
  {
    states' := states + [Next(states[|states| - 1], h, action)];
    schedule' := schedule + [(h, action)];
  }
}
