/**
  Inter-processor interrupts are not lost, and no hart is left waiting on a
  request that its target will never look at.
 */
module ShootdownWakeup {
  import opened Shootdown
  import opened ShootdownAcks

  /** Some hart has set an event bit of r and is about to raise its interrupt. */
  ghost predicate RaiseComing(st: State, r: nat)
  {
    exists h: nat :: st.IsHart(h) && st.harts[h].pc.AboutToRaise(r)
  }

  /** Some hart has queued a request at r and is about to set r's TLB event bit. */
  ghost predicate BitComing(st: State, r: nat)
  {
    exists h: nat :: st.IsHart(h) && st.harts[h].pc == SettingBit(r)
  }

  /** A pending event of r is backed by its interrupt, by a sender, or by r's own imminent exchange. */
  ghost predicate EventsBacked(st: State, r: nat)
    requires st.IsHart(r)
  {
    st.harts[r].ipiType != {} ==> st.harts[r].msip || st.harts[r].pc.Exchanging? || RaiseComing(st, r)
  }

  /** A queued request of r is backed by its TLB event, by a sender, or by r's own handling. */
  ghost predicate QueueBacked(st: State, r: nat)
    requires st.IsHart(r)
  {
    var hart := st.harts[r];
    hart.fifo != [] ==>
      TLB_EVENT in hart.ipiType || BitComing(st, r) || (hart.pc.Handling? && TLB_EVENT in hart.pc.events) ||
          hart.pc.Draining?
  }

  ghost predicate WakeInv(st: State)
  {
    forall r :: 0 <= r < |st.harts| ==> EventsBacked(st, r) && QueueBacked(st, r)
  }

  // ---------------------------------------------------------------------
  // Steps
  // ---------------------------------------------------------------------

  /** What other harts are about to do survives a step of h, but for what h itself was about to do. */
  lemma OthersStillComing(st: State, st': State, h: nat, r: nat)
    requires st.IsHart(h) && |st'.harts| == |st.harts|
    requires forall q :: 0 <= q < |st.harts| && q != h ==> st'.harts[q].pc == st.harts[q].pc
    ensures RaiseComing(st, r) ==> RaiseComing(st', r) || st.harts[h].pc.AboutToRaise(r)
    ensures BitComing(st, r) ==> BitComing(st', r) || st.harts[h].pc == SettingBit(r)
  {
    if RaiseComing(st, r) {
      var q: nat :| st.IsHart(q) && st.harts[q].pc.AboutToRaise(r);
      assert q != h ==> st'.harts[q].pc.AboutToRaise(r);
    }
    if BitComing(st, r) {
      var q: nat :| st.IsHart(q) && st.harts[q].pc == SettingBit(r);
      assert q != h ==> st'.harts[q].pc == SettingBit(r);
    }
  }

  /** A step after which h is about to do something shows it. */
  lemma NowComing(st: State, h: nat, r: nat)
    requires st.IsHart(h)
    ensures st.harts[h].pc.AboutToRaise(r) ==> RaiseComing(st, r)
    ensures st.harts[h].pc == SettingBit(r) ==> BitComing(st, r)
  {
  }

  lemma NotifyKeepsWakeInv(st: State, h: nat, r: nat, event: nat, then_: Pc)
    requires WakeInv(st) && st.IsHart(h) && st.IsHart(r)
    requires (st.harts[h].pc == SettingBit(r) && event == TLB_EVENT) || st.harts[h].pc == EventSettingBit(r, event)
    requires then_.AboutToRaise(r)
    ensures WakeInv(SetBitStep(st, h, r, event, then_))
  {
    var st' := SetBitStep(st, h, r, event, then_);
    forall q | 0 <= q < |st'.harts|
      ensures EventsBacked(st', q) && QueueBacked(st', q)
    {
      assert EventsBacked(st, q) && QueueBacked(st, q);
      OthersStillComing(st, st', h, q);
      NowComing(st', h, r);
    }
  }

  lemma RaiseKeepsWakeInv(st: State, h: nat, r: nat, then_: Pc)
    requires WakeInv(st) && st.IsHart(h) && st.IsHart(r)
    requires st.harts[h].pc.AboutToRaise(r)
    ensures WakeInv(RaiseStep(st, h, r, then_))
  {
    var st' := RaiseStep(st, h, r, then_);
    forall q | 0 <= q < |st'.harts|
      ensures EventsBacked(st', q) && QueueBacked(st', q)
    {
      assert EventsBacked(st, q) && QueueBacked(st, q);
      OthersStillComing(st, st', h, q);
    }
  }

  /** Putting a request into r's queue: the sender is about to set r's event bit. */
  lemma QueuedKeepsWakeInv(st: State, st': State, h: nat, r: nat)
    requires WakeInv(st) && st.IsHart(h) && st.IsHart(r) && h != r && |st'.harts| == |st.harts|
    requires st.harts[h].pc.Merging? || st.harts[h].pc.Enqueuing?
    requires st' == PutPc(Put(st, r, st.harts[r].(fifo := st'.harts[r].fifo)), h, st'.harts[h].pc)
    requires st'.harts[h].pc == SettingBit(r) || st'.harts[r].fifo == st.harts[r].fifo
    ensures WakeInv(st')
  {
    forall q | 0 <= q < |st'.harts|
      ensures EventsBacked(st', q) && QueueBacked(st', q)
    {
      assert EventsBacked(st, q) && QueueBacked(st, q);
      OthersStillComing(st, st', h, q);
      NowComing(st', h, r);
    }
  }

  /** A step in which only h moves, and h was not about to notify anybody. */
  lemma OwnStepKeepsWakeInv(st: State, st': State, h: nat)
    requires WakeInv(st) && st.IsHart(h) && |st'.harts| == |st.harts|
    requires !st.harts[h].pc.SettingBit? && !st.harts[h].pc.Raising? && !st.harts[h].pc.EventRaising?
    requires forall q :: 0 <= q < |st.harts| && q != h ==>
               && st'.harts[q].pc == st.harts[q].pc && st'.harts[q].fifo == st.harts[q].fifo
               && st'.harts[q].msip == st.harts[q].msip && st'.harts[q].ipiType == st.harts[q].ipiType
    requires st'.harts[h].ipiType <= st.harts[h].ipiType
    requires st'.harts[h].ipiType != {} ==> (st.harts[h].msip || st.harts[h].pc.Exchanging? ==>
             st'.harts[h].msip || st'.harts[h].pc.Exchanging?)
    requires st'.harts[h].fifo != [] ==>
               && st.harts[h].fifo != []
               && (TLB_EVENT in st.harts[h].ipiType ==>
                  TLB_EVENT in st'.harts[h].ipiType ||
                  (st'.harts[h].pc.Handling? && TLB_EVENT in st'.harts[h].pc.events))
               && (st.harts[h].pc.Handling? && TLB_EVENT in st.harts[h].pc.events ==>
                     st'.harts[h].pc.Draining? || (st'.harts[h].pc.Handling? && TLB_EVENT in st'.harts[h].pc.events))
               && (st.harts[h].pc.Draining? ==> st'.harts[h].pc.Draining?)
    ensures WakeInv(st')
  {
    forall q | 0 <= q < |st'.harts|
      ensures EventsBacked(st', q) && QueueBacked(st', q)
    {
      assert EventsBacked(st, q) && QueueBacked(st, q);
      OthersStillComing(st, st', h, q);
    }
  }

  lemma ProcessKeepsWakeInv(st: State, h: nat)
    requires AckInv(st) && WakeInv(st) && st.IsHart(h) && st.harts[h].pc.Processing()
    requires forall t <- st.harts[h].work.Unacked() :: st.IsHart(t)
    ensures WakeInv(ProcessStep(st, h))
  {
    var hart := st.harts[h];
    if hart.work.Acking? && hart.work.left != {} {
      AckConserved(st, h, Least(hart.work.left));
    }
    OwnStepKeepsWakeInv(st, ProcessStep(st, h), h);
  }

  lemma MergeKeepsWakeInv(st: State, h: nat, r: nat)
    requires WakeInv(st) && st.IsHart(h) && st.IsHart(r) && h != r && st.harts[h].pc == Merging(r)
    ensures WakeInv(MergeStep(st, h, r))
  {
    var at := MergeEffect(st, h, r);
    QueuedKeepsWakeInv(st, MergeStep(st, h, r), h, r);
  }

  lemma EnqueueKeepsWakeInv(st: State, h: nat, r: nat)
    requires WakeInv(st) && st.IsHart(h) && st.IsHart(r) && h != r && st.harts[h].pc == Enqueuing(r)
    ensures WakeInv(EnqueueStep(st, h, r))
  {
    QueuedKeepsWakeInv(st, EnqueueStep(st, h, r), h, r);
  }

  /** The steps that leave an idle hart. */
  lemma LeaveIdleKeepsWakeInv(st: State, h: nat, action: Action)
    requires WakeInv(st) && Enabled(st, h, action) && !action.Continue?
    ensures WakeInv(Next(st, h, action))
  {
    OwnStepKeepsWakeInv(st, Next(st, h, action), h);
  }

  /** Choosing a target, looking at one's own sync word, and the interrupt handler. */
  lemma DispatchKeepsWakeInv(st: State, h: nat)
    requires WakeInv(st) && st.IsHart(h) && st.harts[h].pc.Dispatch?
    ensures WakeInv(DispatchStep(st, h))
  {
    OwnStepKeepsWakeInv(st, DispatchStep(st, h), h);
  }

  lemma SyncKeepsWakeInv(st: State, h: nat, r: nat)
    requires WakeInv(st) && st.IsHart(h) && st.harts[h].pc == Syncing(r)
    ensures WakeInv(SyncStep(st, h, r))
  {
    OwnStepKeepsWakeInv(st, SyncStep(st, h, r), h);
  }

  lemma HandleKeepsWakeInv(st: State, h: nat)
    requires WakeInv(st) && st.IsHart(h) && st.harts[h].pc.Handling?
    ensures WakeInv(HandleStep(st, h))
  {
    OwnStepKeepsWakeInv(st, HandleStep(st, h), h);
  }

  lemma NextKeepsWakeInv(st: State, h: nat, action: Action)
    requires AckInv(st) && WakeInv(st) && Enabled(st, h, action)
    ensures WakeInv(Next(st, h, action))
  {
    assert HartOk(st, h);
    if !action.Continue? {
      LeaveIdleKeepsWakeInv(st, h, action);
    } else {
      match st.harts[h].pc
      case Dispatch => DispatchKeepsWakeInv(st, h);
      case Merging(r) => MergeKeepsWakeInv(st, h, r);
      case Enqueuing(r) => EnqueueKeepsWakeInv(st, h, r);
      case SettingBit(r) => NotifyKeepsWakeInv(st, h, r, TLB_EVENT, Raising(r));
      case Raising(r) => RaiseKeepsWakeInv(st, h, r, Syncing(r));
      case Syncing(r) => SyncKeepsWakeInv(st, h, r);
      case EventSettingBit(r, event) => NotifyKeepsWakeInv(st, h, r, event, EventRaising(r));
      case EventRaising(r) => RaiseKeepsWakeInv(st, h, r, Idle);
      case Exchanging => OwnStepKeepsWakeInv(st, Next(st, h, action), h);
      case Handling(_) => HandleKeepsWakeInv(st, h);
      case _ => ProcessKeepsWakeInv(st, h);
    }
  }

  lemma {:induction false} RunKeepsWakeInv(states: seq<State>, schedule: Schedule, i: nat)
    requires IsRun(states, schedule) && i < |states|
    ensures AckInv(states[i]) && WakeInv(states[i])
  {
    RunKeepsAckInv(states, schedule, i);
    if i == 0 {
      assert forall r :: 0 <= r < |states[0].harts| ==>
             states[0].harts[r].ipiType == {} && states[0].harts[r].fifo == [];
    } else {
      RunKeepsWakeInv(states, schedule, i - 1);
      NextKeepsWakeInv(states[i - 1], schedule[i - 1].0, schedule[i - 1].1);
    }
  }

  /**
    No event is lost: in every state of every run, a set event bit of r that no
    sender is still about to announce finds r's interrupt pending, or r between
    clearing the interrupt and exchanging the word.
   */
  lemma NoEventLost(states: seq<State>, schedule: Schedule, i: nat, r: nat, event: nat)
    requires IsRun(states, schedule) && i < |states| && states[i].IsHart(r)
    requires event in states[i].harts[r].ipiType
    requires forall h: nat :: states[i].IsHart(h) ==> !states[i].harts[h].pc.AboutToRaise(r)
    ensures states[i].harts[r].msip || states[i].harts[r].pc.Exchanging?
  {
    RunKeepsWakeInv(states, schedule, i);
    assert EventsBacked(states[i], r);
  }

  /**
    No waiter is forgotten: in every state of every run, if the request of s lies
    in r's queue then r is draining it or has the TLB event in hand, or r's
    interrupt is pending or about to be, or r is about to exchange its event word.
   */
  lemma NoWaiterForgotten(states: seq<State>, schedule: Schedule, i: nat, r: nat, s: nat, k: nat)
    requires IsRun(states, schedule) && i < |states| && InFifo(states[i], r, k, s)
    ensures var hart := states[i].harts[r];
            || hart.pc.Draining? || (hart.pc.Handling? && TLB_EVENT in hart.pc.events)
            || hart.msip || hart.pc.Exchanging?
            || RaiseComing(states[i], r) || BitComing(states[i], r)
  {
    RunKeepsWakeInv(states, schedule, i);
    assert EventsBacked(states[i], r) && QueueBacked(states[i], r);
  }
}
