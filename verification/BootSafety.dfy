/**
  What holds in every state of every run of the boot and hart state machine: the
  hang paths are unreachable, hart states follow the specified transitions, one
  hart_start succeeds per stopped period, and no wakeup is lost.
 */
module BootSafety {
  import opened Basics
  import opened Boot

  // ---------------------------------------------------------------------
  // The invariant
  // ---------------------------------------------------------------------

  /** The hart state that each place in the program relies on. */
  ghost predicate PcOk(s: State, h: nat)
    requires s.IsHart(h)
  {
    var hsm := s.harts[h].hsm;
    match s.harts[h].pc
    case ColdInit => !s.ready && !s.done
    case ColdFinalize(todo) => s.ready && !s.done && hsm == StartPending && Startable(s, h, todo)
    case ColdKick(t, todo) => s.ready && !s.done && hsm == StartPending && s.IsHart(t) && Startable(s, h, todo)
    case ColdStore => s.ready && !s.done && hsm == StartPending
    case ColdLock => s.done && hsm == StartPending
    case ColdSend(_) => s.done && hsm == StartPending && s.lock == Some(h)
    case ColdJump => s.done && hsm == StartPending
    case Entry => AwaitingOk(s, hsm)
    case WaitMark => AwaitingOk(s, hsm)
    case WaitRead => AwaitingOk(s, hsm)
    case WaitSleep => AwaitingOk(s, hsm)
    case WaitUnmark => s.done && AwaitingOk(s, hsm)
    case Dispatch => s.done && AwaitingOk(s, hsm)
    case ResumeStart => s.done && hsm == Suspended
    case ResumeFinish => s.done && hsm == ResumePending
    case StartRead => s.done && (hsm == Stopped || hsm == StartPending)
    case StartSleep => s.done && (hsm == Stopped || hsm == StartPending)
    case WarmInit => s.done && hsm == StartPending
    case WarmJump => s.done && hsm == StartPending
    case Running => s.done && hsm == Started
    case Kick(t) => s.done && hsm == Started && s.IsHart(t)
    case Exiting => s.done && hsm == StopPending
    case Suspending(_) => s.done && hsm == Suspended
    case Restoring => s.done && hsm == Suspended
    case Hung => false
  }

  /** Before the dispatch a hart is stopped, asked to start, or suspended, once the states mean something. */
  ghost predicate AwaitingOk(s: State, hsm: Hsm)
  {
    s.ready ==> hsm == Stopped || hsm == StartPending || hsm == Suspended
  }

  /** The boot harts still to be started are stopped, and none is the cold hart. */
  ghost predicate Startable(s: State, h: nat, todo: set<nat>)
  {
    forall t <- todo :: s.IsHart(t) && t != h && s.harts[t].hsm == Stopped
  }

  /** Facts about the shared words. */
  ghost predicate SharedOk(s: State)
  {
    && (s.done ==> s.ready)
    && (s.ready ==> s.lottery)
    && (s.lottery <==> s.cold.Some?)
    && (s.lock.Some? ==> s.IsHart(s.lock.value) && s.harts[s.lock.value].pc.ColdSend?)
  }

  /** Only the winner of the lottery is in the cold-boot path. */
  ghost predicate ColdOk(s: State, h: nat)
    requires s.IsHart(h)
  {
    s.harts[h].pc.Cold() ==> s.cold == Some(h)
  }

  ghost predicate Inv(s: State)
  {
    SharedOk(s) && forall h :: 0 <= h < |s.harts| ==> PcOk(s, h) && ColdOk(s, h)
  }

  // ---------------------------------------------------------------------
  // Steps
  // ---------------------------------------------------------------------

  /** Another hart is where it was, with the state it had, and the shared words it relies on are the same. */
  ghost predicate SameFor(s: State, s': State, k: nat)
    requires s.IsHart(k)
  {
    && |s'.harts| == |s.harts| && s'.ready == s.ready && s'.done == s.done && s'.cold == s.cold
    && s'.harts[k].pc == s.harts[k].pc && s'.harts[k].hsm == s.harts[k].hsm
    && (s.harts[k].pc.ColdSend? ==> s'.lock == s.lock)
    && (s.done || forall j :: 0 <= j < |s.harts| ==> s'.harts[j].hsm == s.harts[j].hsm)
  }

  lemma Undisturbed(s: State, s': State, k: nat)
    requires s.IsHart(k) && PcOk(s, k) && ColdOk(s, k) && SameFor(s, s', k)
    ensures PcOk(s', k) && ColdOk(s', k)
  {
  }

  lemma ColdInitKeepsInv(s: State, h: nat, c: Choice)
    requires Inv(s) && s.IsHart(h) && s.harts[h].pc.ColdInit?
    ensures Inv(ColdInitStep(s, h, c))
  {
    var s' := ColdInitStep(s, h, c);
    assert PcOk(s, h) && ColdOk(s, h);
    forall k | 0 <= k < |s'.harts|
      ensures PcOk(s', k) && ColdOk(s', k)
    {
      assert PcOk(s, k) && ColdOk(s, k);
    }
  }

  lemma ColdFinalizeKeepsInv(s: State, h: nat, c: Choice)
    requires Inv(s) && s.IsHart(h) && s.harts[h].pc.ColdFinalize?
    ensures Inv(ColdFinalizeStep(s, h, c))
  {
    var s' := ColdFinalizeStep(s, h, c);
    assert PcOk(s, h) && ColdOk(s, h);
    forall k | 0 <= k < |s'.harts|
      ensures PcOk(s', k) && ColdOk(s', k)
    {
      assert PcOk(s, k) && ColdOk(s, k);
    }
  }

  lemma ColdKeepsInv(s: State, h: nat, c: Choice)
    requires Inv(s) && s.IsHart(h) && s.harts[h].pc.Cold()
    ensures Inv(ColdStep(s, h, c))
  {
    if s.harts[h].pc.ColdInit? {
      ColdInitKeepsInv(s, h, c);
    } else if s.harts[h].pc.ColdFinalize? {
      ColdFinalizeKeepsInv(s, h, c);
    } else {
      ColdWakeKeepsInv(s, h, c);
    }
  }

  lemma ColdWakeKeepsInv(s: State, h: nat, c: Choice)
    requires Inv(s) && s.IsHart(h) && s.harts[h].pc.Cold() && !s.harts[h].pc.ColdInit? && !s.harts[h].pc.ColdFinalize?
    ensures Inv(ColdStep(s, h, c))
  {
    var s' := ColdStep(s, h, c);
    assert PcOk(s, h) && ColdOk(s, h);
    forall k | 0 <= k < |s'.harts|
      ensures PcOk(s', k) && ColdOk(s', k)
    {
      assert PcOk(s, k) && ColdOk(s, k);
      if k != h && !s.harts[h].pc.ColdStore? {
        Undisturbed(s, s', k);
      }
    }
  }

  lemma EntryKeepsInv(s: State, h: nat, c: Choice)
    requires Inv(s) && s.IsHart(h) && s.harts[h].pc.Entry?
    ensures Inv(EntryStep(s, h, c))
  {
    var s' := EntryStep(s, h, c);
    assert PcOk(s, h) && ColdOk(s, h);
    forall k | 0 <= k < |s'.harts|
      ensures PcOk(s', k) && ColdOk(s', k)
    {
      assert PcOk(s, k) && ColdOk(s, k);
    }
  }

  lemma ArriveKeepsInv(s: State, h: nat, c: Choice)
    requires Inv(s) && s.IsHart(h) && s.harts[h].pc.Arriving()
    ensures Inv(ArriveStep(s, h, c))
  {
    if s.harts[h].pc.Entry? {
      EntryKeepsInv(s, h, c);
      return;
    }
    var s' := ArriveStep(s, h, c);
    assert PcOk(s, h) && ColdOk(s, h);
    forall k | 0 <= k < |s'.harts|
      ensures PcOk(s', k) && ColdOk(s', k)
    {
      assert PcOk(s, k) && ColdOk(s, k);
      if k != h {
        Undisturbed(s, s', k);
      }
    }
  }

  lemma WarmKeepsInv(s: State, h: nat, c: Choice)
    requires Inv(s) && s.IsHart(h) && InWarmBoot(s.harts[h].pc)
    ensures Inv(WarmStep(s, h, c))
  {
    var s' := WarmStep(s, h, c);
    assert PcOk(s, h) && ColdOk(s, h);
    forall k | 0 <= k < |s'.harts|
      ensures PcOk(s', k) && ColdOk(s', k)
    {
      assert PcOk(s, k) && ColdOk(s, k);
      if k != h {
        Undisturbed(s, s', k);
      }
    }
  }

  /** A start by a running hart: the target was stopped, so it is on its way to the dispatch or waits behind it. */
  lemma StartKeepsInv(s: State, h: nat, t: nat)
    requires Inv(s) && s.IsHart(h) && s.harts[h].pc.Running? && s.IsHart(t) && s.harts[t].hsm == Stopped
    ensures Inv(PutPc(StartCas(s, t), h, Kick(t)))
  {
    var s' := PutPc(StartCas(s, t), h, Kick(t));
    assert PcOk(s, h) && PcOk(s, t);
    forall k | 0 <= k < |s'.harts|
      ensures PcOk(s', k) && ColdOk(s', k)
    {
      assert PcOk(s, k) && ColdOk(s, k);
    }
  }

  lemma ServiceKeepsInv(s: State, h: nat, c: Choice)
    requires Inv(s) && s.IsHart(h) && InService(s.harts[h].pc)
    ensures Inv(ServiceStep(s, h, c))
  {
    if s.harts[h].pc.Running? && c.call.Start? {
      if s.IsHart(c.call.target) && s.harts[c.call.target].hsm == Stopped {
        StartKeepsInv(s, h, c.call.target);
      }
      return;
    }
    var s' := ServiceStep(s, h, c);
    assert PcOk(s, h) && ColdOk(s, h);
    forall k | 0 <= k < |s'.harts|
      ensures PcOk(s', k) && ColdOk(s', k)
    {
      assert PcOk(s, k) && ColdOk(s, k);
      if k != h {
        Undisturbed(s, s', k);
      }
    }
  }

  lemma NextKeepsInv(s: State, h: nat, c: Choice)
    requires Inv(s) && s.IsHart(h)
    ensures Inv(Next(s, h, c))
  {
    assert PcOk(s, h);
    var pc := s.harts[h].pc;
    if pc.Cold() {
      ColdKeepsInv(s, h, c);
    } else if pc.Arriving() {
      ArriveKeepsInv(s, h, c);
    } else if InWarmBoot(pc) {
      WarmKeepsInv(s, h, c);
    } else if InService(pc) {
      ServiceKeepsInv(s, h, c);
    }
  }

  lemma {:induction false} RunKeepsInv(states: seq<State>, schedule: seq<(nat, Choice)>, i: nat)
    requires IsRun(states, schedule) && i < |states|
    ensures Inv(states[i])
  {
    if i > 0 {
      RunKeepsInv(states, schedule, i - 1);
      NextKeepsInv(states[i - 1], schedule[i - 1].0, schedule[i - 1].1);
    }
  }

  /** No hart ever hangs: every compare-and-swap of a hart on its own state finds what it expects. */
  lemma NoHartHangs(states: seq<State>, schedule: seq<(nat, Choice)>, i: nat, h: nat)
    requires IsRun(states, schedule) && i < |states| && states[i].IsHart(h)
    ensures states[i].harts[h].pc != Hung
  {
    RunKeepsInv(states, schedule, i);
    assert PcOk(states[i], h);
  }

  /** hart_stop and hart_suspend never find the caller in a wrong state. */
  lemma OwnCallsSucceed(states: seq<State>, schedule: seq<(nat, Choice)>, i: nat, h: nat, retentive: bool)
    requires IsRun(states, schedule) && i < |states| && states[i].IsHart(h) && states[i].harts[h].pc == Running
    ensures CallStep(states[i], h, Stop).harts[h].pc == Exiting
    ensures CallStep(states[i], h, Suspend(retentive)).harts[h].pc == Suspending(retentive)
  {
    RunKeepsInv(states, schedule, i);
    assert PcOk(states[i], h);
  }

  /** At most one hart is ever in the cold-boot path. */
  lemma AtMostOneColdHart(states: seq<State>, schedule: seq<(nat, Choice)>, i: nat, j: nat, h: nat, k: nat)
    requires IsRun(states, schedule) && i <= j < |states| && states[i].IsHart(h) && states[j].IsHart(k)
    requires states[i].harts[h].pc.Cold() && states[j].harts[k].pc.Cold()
    ensures h == k
  {
    RunKeepsInv(states, schedule, i);
    RunKeepsInv(states, schedule, j);
    assert ColdOk(states[i], h) && ColdOk(states[j], k);
    WinnerStays(states, schedule, i, j);
  }

  lemma {:induction false} WinnerStays(states: seq<State>, schedule: seq<(nat, Choice)>, i: nat, j: nat)
    requires IsRun(states, schedule) && i <= j < |states| && states[i].cold.Some?
    ensures states[j].cold == states[i].cold
  {
    if i < j {
      WinnerStays(states, schedule, i, j - 1);
      RunKeepsInv(states, schedule, j - 1);
      NextFollows(states[j - 1], schedule[j - 1].0, schedule[j - 1].1);
    }
  }

  // ---------------------------------------------------------------------
  // Transitions
  // ---------------------------------------------------------------------

  /** Started once for each time it was stopped, except for a stop that is still in force. */
  ghost predicate CountOk(hart: Hart)
  {
    hart.starts + (if hart.hsm == Stopped then 1 else 0) == hart.stops
  }

  /** How one hart may change in a step. */
  ghost predicate HartFollows(hart: Hart, hart': Hart)
  {
    (hart'.hsm == hart.hsm || Edge(hart.hsm, hart'.hsm)) && (CountOk(hart) ==> CountOk(hart')) &&
    hart.starts <= hart'.starts
  }

  /** How the machine may change in a step. */
  ghost predicate Follows(s: State, s': State)
  {
    && |s'.harts| == |s.harts| && (s.cold.Some? ==> s'.cold == s.cold) && (s.ready ==> s'.ready)
    && (s.ready ==> forall k :: 0 <= k < |s.harts| ==> HartFollows(s.harts[k], s'.harts[k]))
    && (!s.ready && s'.ready ==> forall k :: 0 <= k < |s.harts| ==> CountOk(s'.harts[k]))
  }

  lemma FinalizeFollows(s: State, h: nat, c: Choice)
    requires Inv(s) && s.IsHart(h) && s.harts[h].pc.ColdFinalize?
    ensures Follows(s, ColdFinalizeStep(s, h, c))
  {
    assert PcOk(s, h);
  }

  lemma ColdFollows(s: State, h: nat, c: Choice)
    requires Inv(s) && s.IsHart(h) && s.harts[h].pc.Cold()
    ensures Follows(s, ColdStep(s, h, c))
  {
    assert PcOk(s, h);
    if s.harts[h].pc.ColdFinalize? {
      FinalizeFollows(s, h, c);
    }
  }

  lemma ArriveFollows(s: State, h: nat, c: Choice)
    requires Inv(s) && s.IsHart(h) && s.harts[h].pc.Arriving()
    ensures Follows(s, ArriveStep(s, h, c))
  {
  }

  lemma WarmFollows(s: State, h: nat, c: Choice)
    requires Inv(s) && s.IsHart(h) && InWarmBoot(s.harts[h].pc)
    ensures Follows(s, WarmStep(s, h, c))
  {
  }

  lemma CallFollows(s: State, h: nat, call: Call)
    requires Inv(s) && s.IsHart(h) && s.harts[h].pc.Running?
    ensures Follows(s, CallStep(s, h, call))
  {
  }

  lemma ServiceFollows(s: State, h: nat, c: Choice)
    requires Inv(s) && s.IsHart(h) && InService(s.harts[h].pc)
    ensures Follows(s, ServiceStep(s, h, c))
  {
    if s.harts[h].pc.Running? {
      CallFollows(s, h, c.call);
    }
  }

  lemma NextFollows(s: State, h: nat, c: Choice)
    requires Inv(s) && s.IsHart(h)
    ensures Follows(s, Next(s, h, c))
  {
    var pc := s.harts[h].pc;
    if pc.Cold() {
      ColdFollows(s, h, c);
    } else if pc.Arriving() {
      ArriveFollows(s, h, c);
    } else if InWarmBoot(pc) {
      WarmFollows(s, h, c);
    } else if InService(pc) {
      ServiceFollows(s, h, c);
    }
  }

  /** Once initialised, every hart state moves along the specified edges only. */
  lemma StatesFollowEdges(states: seq<State>, schedule: seq<(nat, Choice)>, i: nat, h: nat)
    requires IsRun(states, schedule) && i + 1 < |states| && states[i].IsHart(h) && states[i].ready
    ensures states[i + 1].IsHart(h)
    ensures var before, now := states[i].harts[h].hsm, states[i + 1].harts[h].hsm; now == before || Edge(before, now)
  {
    RunKeepsInv(states, schedule, i);
    NextFollows(states[i], schedule[i].0, schedule[i].1);
    assert HartFollows(states[i].harts[h], states[i + 1].harts[h]);
  }

  /**
    Per stopped period at most one hart_start succeeds, and a hart that has left the
    state was started exactly once.
   */
  lemma {:induction false} OneStartPerStop(states: seq<State>, schedule: seq<(nat, Choice)>, i: nat, h: nat)
    requires IsRun(states, schedule) && i < |states| && states[i].IsHart(h) && states[i].ready
    ensures states[i].harts[h].starts + (if states[i].harts[h].hsm == Stopped then 1 else 0) == states[i].harts[h].stops
  {
    if i > 0 {
      RunKeepsInv(states, schedule, i - 1);
      NextFollows(states[i - 1], schedule[i - 1].0, schedule[i - 1].1);
      if states[i - 1].ready {
        OneStartPerStop(states, schedule, i - 1, h);
        assert HartFollows(states[i - 1].harts[h], states[i].harts[h]);
      }
    }
  }
}
