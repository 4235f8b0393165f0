/**
  Events sent by inter-processor interrupt are handled: the bit is set, the
  interrupt is raised, and the receiver's handler takes the bit and runs the
  event's operation, whatever else goes on.
 */
module ShootdownEvents {
  import opened Shootdown
  import opened ShootdownCoverage
  import opened ShootdownWakeup
  import opened ShootdownProgress

  /** Step j of the run is the one in which hart r's handler takes up the event: the lowest of those it holds. */
  ghost predicate Handles(states: seq<State>, schedule: Schedule, j: nat, r: nat, event: nat)
  {
    && j < |schedule| && j < |states| && schedule[j] == (r, Continue) && states[j].IsHart(r)
    && HandlesNext(states[j].harts[r].pc, event)
  }

  ghost predicate HandlesNext(pc: Pc, event: nat)
  {
    pc.Handling? && event in pc.events && forall e <- pc.events :: event <= e
  }

  /** The event is set in the hart's word, or among those that its handler has taken. */
  ghost predicate InHand(hart: Hart, event: nat)
  {
    || event in hart.ipiType
    || ((hart.pc.Handling? || hart.pc.Draining?) && event in hart.pc.events)
  }

  // ---------------------------------------------------------------------
  // Steps
  // ---------------------------------------------------------------------

  /** A hart's own steps lose no event, but for the one it handles. */
  lemma OwnStepKeepsEvent(st: State, r: nat, action: Action, event: nat)
    requires Enabled(st, r, action) && InHand(st.harts[r], event)
    ensures var st' := Next(st, r, action);
            st'.IsHart(r) && (InHand(st'.harts[r], event) || (action == Continue && HandlesNext(st.harts[r].pc, event)))
  {
    var pc := st.harts[r].pc;
    if action == Continue {
      NextKeepsRecords(st, r, action);
      match pc
      case Merging(q) => MergeKeepsEvents(st, r, q);
      case Handling(_) => HandleKeepsEvent(st, r, event);
      case HelpingEnqueue(_, _) => ProcessKeepsEvent(st, r, event);
      case HelpingSync(_, _) => ProcessKeepsEvent(st, r, event);
      case Draining(_) => ProcessKeepsEvent(st, r, event);
      case _ =>
    }
  }

  lemma MergeKeepsEvents(st: State, h: nat, r: nat)
    requires st.IsHart(h) && st.IsHart(r) && st.harts[h].pc == Merging(r)
    ensures MergeStep(st, h, r).IsHart(h) && MergeStep(st, h, r).harts[h].ipiType == st.harts[h].ipiType
  {
  }

  lemma HandleKeepsEvent(st: State, r: nat, event: nat)
    requires st.IsHart(r) && st.harts[r].pc.Handling? && InHand(st.harts[r], event)
    ensures var st' := HandleStep(st, r);
            st'.IsHart(r) && (InHand(st'.harts[r], event) || HandlesNext(st.harts[r].pc, event))
  {
  }

  lemma ProcessKeepsEvent(st: State, r: nat, event: nat)
    requires st.IsHart(r) && st.harts[r].pc.Processing() && forall t <- st.harts[r].work.Unacked() :: st.IsHart(t)
    requires InHand(st.harts[r], event)
    ensures ProcessStep(st, r).IsHart(r) && InHand(ProcessStep(st, r).harts[r], event)
  {
    var hart := st.harts[r];
    if hart.work.Acking? && hart.work.left != {} {
      assert Least(hart.work.left) in hart.work.Unacked();
    }
  }

  /** No step loses an event, but for the one that its hart handles. */
  lemma StepKeepsEvent(st: State, h: nat, action: Action, r: nat, event: nat)
    requires Enabled(st, h, action) && st.IsHart(r) && InHand(st.harts[r], event)
    ensures var st' := Next(st, h, action);
            && st'.IsHart(r)
            && (InHand(st'.harts[r], event) || (h == r && action == Continue && HandlesNext(st.harts[r].pc, event)))
  {
    if h == r {
      OwnStepKeepsEvent(st, r, action, event);
    } else if !action.Issue? {
      NextKeepsRecords(st, h, action);
    }
  }

  // ---------------------------------------------------------------------
  // Whole runs
  // ---------------------------------------------------------------------

  /** The sender is about to set the bit, the receiver has it in hand, or it has been handled since `from`. */
  ghost predicate OnItsWay(states: seq<State>, schedule: Schedule, from: nat, i: nat, h: nat, r: nat, event: nat)
  {
    && i < |states| && states[i].IsHart(h) && states[i].IsHart(r)
    && (|| states[i].harts[h].pc == EventSettingBit(r, event)
        || InHand(states[i].harts[r], event)
        || exists j :: from < j < i && Handles(states, schedule, j, r, event))
  }

  lemma {:induction false} StaysOnItsWay(states: seq<State>, schedule: Schedule, from: nat, i: nat,
                                         h: nat, r: nat, event: nat)
    requires IsRun(states, schedule) && from < i < |states| && schedule[from] == (h, SendEvent(r, event))
    ensures OnItsWay(states, schedule, from, i, h, r, event)
  {
    if from + 1 == i {
      assert states[i] == Next(states[from], h, SendEvent(r, event));
    } else {
      StaysOnItsWay(states, schedule, from, i - 1, h, r, event);
      NextOnItsWay(states, schedule, from, i - 1, h, r, event);
    }
  }

  lemma NextOnItsWay(states: seq<State>, schedule: Schedule, from: nat, i: nat, h: nat, r: nat, event: nat)
    requires IsRun(states, schedule) && from < i < |schedule| && OnItsWay(states, schedule, from, i, h, r, event)
    ensures OnItsWay(states, schedule, from, i + 1, h, r, event)
  {
    var st, q, action := states[i], schedule[i].0, schedule[i].1;
    HartsKept(st, q, action);
    if st.harts[h].pc == EventSettingBit(r, event) {
      SendSetsBit(st, q, action, h, r, event);
    } else if InHand(st.harts[r], event) {
      StepKeepsEvent(st, q, action, r, event);
      assert !InHand(states[i + 1].harts[r], event) ==> Handles(states, schedule, i, r, event);
    }
  }

  /** The sender's next step sets the bit. */
  lemma SendSetsBit(st: State, q: nat, action: Action, h: nat, r: nat, event: nat)
    requires Enabled(st, q, action) && st.IsHart(h) && st.harts[h].pc == EventSettingBit(r, event) && st.IsHart(r)
    ensures var st' := Next(st, q, action);
            |st'.harts| == |st.harts| && (st'.harts[h].pc == EventSettingBit(r, event) || event in st'.harts[r].ipiType)
  {
    HartsKept(st, q, action);
    if q != h && !action.Issue? {
      NextKeepsRecords(st, q, action);
    }
  }

  /**
    An event that was sent at `from` has been handled by its receiver whenever all
    harts are idle again with no interrupt pending.
   */
  lemma EventIsHandled(states: seq<State>, schedule: Schedule, from: nat, i: nat, h: nat, r: nat, event: nat)
    requires IsRun(states, schedule) && from < i < |states| && schedule[from] == (h, SendEvent(r, event))
    requires AllQuiet(states[i])
    ensures exists j :: from < j < i && Handles(states, schedule, j, r, event)
  {
    StaysOnItsWay(states, schedule, from, i, h, r, event);
    RunKeepsWakeInv(states, schedule, i);
    assert EventsBacked(states[i], r);
  }

  /** And every run can get there without new requests. */
  lemma EventCanBeHandled(states: seq<State>, schedule: Schedule, from: nat, h: nat, r: nat, event: nat)
    returns (states': seq<State>, schedule': Schedule, j: nat)
    requires IsRun(states, schedule) && from < |schedule| && schedule[from] == (h, SendEvent(r, event))
    ensures GoesOn(states, schedule, states', schedule') && AllQuiet(states'[|states'| - 1])
    ensures from < j && Handles(states', schedule', j, r, event)
  {
    states', schedule' := NoDeadlock(states, schedule);
    EventIsHandled(states', schedule', from, |states'| - 1, h, r, event);
    j :| from < j && Handles(states', schedule', j, r, event);
  }
}
