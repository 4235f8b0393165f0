/**
  No wakeup is lost during boot: neither the cold hart's to the harts that wait
  for cold boot, nor a starter's to the hart it starts.
 */
module BootWakeup {
  import opened Boot
  import opened BootSafety

  /** Some hart has set r to start and is about to raise r's interrupt. */
  ghost predicate KickComing(s: State, r: nat)
  {
    exists k: nat :: s.IsHart(k) && s.harts[k].pc.AboutToKick(r)
  }

  /** The cold hart has announced the end of cold boot and its wake loop is past hart h. */
  ghost predicate Passed(s: State, h: nat)
  {
    s.done && s.cold.Some? && s.IsHart(s.cold.value) &&
    match s.harts[s.cold.value].pc
    case ColdLock => false
    case ColdSend(next) => h < next
    case _ => true
  }

  ghost predicate WakeOk(s: State, h: nat)
    requires s.IsHart(h)
  {
    var hart := s.harts[h];
    && (hart.pc.Marked() ==> h in s.mask)
    && (hart.pc.WaitSleep? && Passed(s, h) ==> hart.msip)
    && (hart.pc.StartSleep? && hart.hsm == StartPending ==> hart.msip || KickComing(s, h))
  }

  /** Until it announces the end of cold boot, the winner of the lottery is in the cold-boot path. */
  ghost predicate WinnerOk(s: State)
  {
    s.cold.Some? ==> s.IsHart(s.cold.value) && (!s.done ==> s.harts[s.cold.value].pc.Cold())
  }

  ghost predicate WakeInv(s: State)
  {
    WinnerOk(s) && forall h :: 0 <= h < |s.harts| ==> WakeOk(s, h)
  }

  // ---------------------------------------------------------------------
  // Steps
  // ---------------------------------------------------------------------

  /** What other harts are about to do survives a step of h. */
  lemma KicksStillComing(s: State, s': State, h: nat, r: nat)
    requires s.IsHart(h) && |s'.harts| == |s.harts|
    requires forall k :: 0 <= k < |s.harts| && k != h ==> s'.harts[k].pc == s.harts[k].pc
    ensures KickComing(s, r) ==> KickComing(s', r) || s.harts[h].pc.AboutToKick(r)
  {
    if KickComing(s, r) {
      var k: nat :| s.IsHart(k) && s.harts[k].pc.AboutToKick(r);
      assert k != h ==> s'.harts[k].pc.AboutToKick(r);
    }
  }

  /** The wake loop. */
  lemma ColdSendKeepsWakeInv(s: State, h: nat)
    requires Inv(s) && WakeInv(s) && s.IsHart(h) && s.harts[h].pc.ColdSend?
    ensures WakeInv(ColdSendStep(s, h))
  {
    var s' := ColdSendStep(s, h);
    assert PcOk(s, h) && ColdOk(s, h);
    forall k | 0 <= k < |s'.harts|
      ensures WakeOk(s', k)
    {
      assert WakeOk(s, k) && PcOk(s, k);
      KicksStillComing(s, s', h, k);
    }
  }

  lemma ColdKeepsWakeInv(s: State, h: nat, c: Choice)
    requires Inv(s) && WakeInv(s) && s.IsHart(h) && s.harts[h].pc.Cold()
    ensures WakeInv(ColdStep(s, h, c))
  {
    if s.harts[h].pc.ColdSend? {
      ColdSendKeepsWakeInv(s, h);
      return;
    }
    var s' := ColdStep(s, h, c);
    assert PcOk(s, h) && ColdOk(s, h);
    forall k | 0 <= k < |s'.harts|
      ensures WakeOk(s', k)
    {
      assert WakeOk(s, k) && PcOk(s, k);
      KicksStillComing(s, s', h, k);
    }
  }

  lemma ArriveKeepsWakeInv(s: State, h: nat, c: Choice)
    requires Inv(s) && WakeInv(s) && s.IsHart(h) && s.harts[h].pc.Arriving()
    ensures WakeInv(ArriveStep(s, h, c))
  {
    var s' := ArriveStep(s, h, c);
    assert PcOk(s, h);
    forall k | 0 <= k < |s'.harts|
      ensures WakeOk(s', k)
    {
      assert WakeOk(s, k) && PcOk(s, k) && ColdOk(s, k);
      KicksStillComing(s, s', h, k);
    }
  }

  lemma WarmKeepsWakeInv(s: State, h: nat, c: Choice)
    requires Inv(s) && WakeInv(s) && s.IsHart(h) && InWarmBoot(s.harts[h].pc)
    ensures WakeInv(WarmStep(s, h, c))
  {
    var s' := WarmStep(s, h, c);
    assert PcOk(s, h);
    forall k | 0 <= k < |s'.harts|
      ensures WakeOk(s', k)
    {
      assert WakeOk(s, k);
      KicksStillComing(s, s', h, k);
    }
  }

  lemma CallKeepsWakeInv(s: State, h: nat, call: Call)
    requires Inv(s) && WakeInv(s) && s.IsHart(h) && s.harts[h].pc.Running?
    ensures WakeInv(CallStep(s, h, call))
  {
    var s' := CallStep(s, h, call);
    assert PcOk(s, h);
    forall k | 0 <= k < |s'.harts|
      ensures WakeOk(s', k)
    {
      assert WakeOk(s, k);
      KicksStillComing(s, s', h, k);
      assert s'.harts[h].pc.AboutToKick(k) ==> KickComing(s', k);
    }
  }

  lemma ServiceKeepsWakeInv(s: State, h: nat, c: Choice)
    requires Inv(s) && WakeInv(s) && s.IsHart(h) && InService(s.harts[h].pc)
    ensures WakeInv(ServiceStep(s, h, c))
  {
    if s.harts[h].pc.Running? {
      CallKeepsWakeInv(s, h, c.call);
      return;
    }
    var s' := ServiceStep(s, h, c);
    assert PcOk(s, h);
    forall k | 0 <= k < |s'.harts|
      ensures WakeOk(s', k)
    {
      assert WakeOk(s, k);
      KicksStillComing(s, s', h, k);
    }
  }

  lemma NextKeepsWakeInv(s: State, h: nat, c: Choice)
    requires Inv(s) && WakeInv(s) && s.IsHart(h)
    ensures WakeInv(Next(s, h, c))
  {
    var pc := s.harts[h].pc;
    if pc.Cold() {
      ColdKeepsWakeInv(s, h, c);
    } else if pc.Arriving() {
      ArriveKeepsWakeInv(s, h, c);
    } else if InWarmBoot(pc) {
      WarmKeepsWakeInv(s, h, c);
    } else if InService(pc) {
      ServiceKeepsWakeInv(s, h, c);
    }
  }

  lemma {:induction false} RunKeepsWakeInv(states: seq<State>, schedule: seq<(nat, Choice)>, i: nat)
    requires IsRun(states, schedule) && i < |states|
    ensures Inv(states[i]) && WakeInv(states[i])
  {
    RunKeepsInv(states, schedule, i);
    if i > 0 {
      RunKeepsWakeInv(states, schedule, i - 1);
      NextKeepsWakeInv(states[i - 1], schedule[i - 1].0, schedule[i - 1].1);
    }
  }

  /**
    Once the cold hart has left its wake loop, every hart that still sleeps in the
    inner wait loop has its software interrupt pending.
   */
  lemma NoColdBootWakeupLost(states: seq<State>, schedule: seq<(nat, Choice)>, i: nat, h: nat)
    requires IsRun(states, schedule) && i < |states| && states[i].IsHart(h) && states[i].harts[h].pc == WaitSleep
    requires states[i].done && states[i].cold.Some? && states[i].IsHart(states[i].cold.value)
    requires var pc := states[i].harts[states[i].cold.value].pc; !pc.ColdLock? && !pc.ColdSend?
    ensures states[i].harts[h].msip
  {
    RunKeepsWakeInv(states, schedule, i);
    assert WakeOk(states[i], h);
  }

  /**
    A hart that sleeps until it is started, and has been started, has its software
    interrupt pending or a starter that is about to raise it.
   */
  lemma NoStartLost(states: seq<State>, schedule: seq<(nat, Choice)>, i: nat, h: nat)
    requires IsRun(states, schedule) && i < |states| && states[i].IsHart(h)
    requires states[i].harts[h].pc == StartSleep && states[i].harts[h].hsm == StartPending
    ensures states[i].harts[h].msip || KickComing(states[i], h)
  {
    RunKeepsWakeInv(states, schedule, i);
    assert WakeOk(states[i], h);
  }
}
