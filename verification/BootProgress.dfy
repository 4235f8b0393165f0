/**
  Harts come up: what the lottery and the calls of a supervisor do, that cold boot
  starts all boot harts, and that every run can go on until a hart that won the
  lottery, was started or has suspended itself runs, through the end of cold boot, the
  wait for it and the warm-boot wait, without spurious wakeups and further calls.
 */
module BootProgress {
  import opened Basics
  import opened Boot
  import opened BootSafety
  import opened BootWakeup

  /** The first hart to enter whose platform supports it takes the cold-boot path, and all others wait. */
  lemma LotteryTakesEffect(states: seq<State>, schedule: seq<(nat, Choice)>, i: nat)
    requires IsRun(states, schedule) && i < |schedule| && states[i].IsHart(schedule[i].0)
    requires states[i].harts[schedule[i].0].pc == Entry
    ensures var s, s', h, c := states[i], states[i + 1], schedule[i].0, schedule[i].1;
            && s'.IsHart(h)
            && (c.supported && s.cold == None ==> s'.harts[h].pc == ColdInit && s'.cold == Some(h))
            && (!(c.supported && s.cold == None) ==> s'.harts[h].pc == WaitMark && s'.cold == s.cold)
  {
    RunKeepsInv(states, schedule, i);
  }

  /**
    hart_stop and hart_suspend by a running hart, the handling of its interrupt, and
    the end of a stop: exactly this changes.
   */
  lemma OwnCallsTakeEffect(states: seq<State>, schedule: seq<(nat, Choice)>, i: nat)
    requires IsRun(states, schedule) && i < |schedule| && states[i].IsHart(schedule[i].0)
    ensures var s, s', h, c := states[i], states[i + 1], schedule[i].0, schedule[i].1;
            var hart := s.harts[h];
            && (hart.pc == Running && c.call == Stop ==>
                  s' == s.(harts := s.harts[h := hart.(hsm := StopPending, pc := Exiting)]))
            && (hart.pc == Running && c.call.Suspend? ==>
                  s' == s.(harts := s.harts[h := hart.(hsm := Suspended, pc := Suspending(c.call.retentive))]))
            && (hart.pc == Running && c.call == TakeInterrupt ==> s' == s.(harts := s.harts[h := hart.(msip := false)]))
            && (hart.pc == Exiting && !c.handle ==>
                  s' == s.(harts := s.harts[h := hart.(hsm := Stopped, stops := hart.stops + 1, pc := Entry)]))
  {
    RunKeepsInv(states, schedule, i);
    assert PcOk(states[i], schedule[i].0);
  }

  /**
    hart_start by a running hart: a stopped target becomes start-pending, with one
    more start, and the caller is about to raise its interrupt; otherwise nothing
    changes.
   */
  lemma StartTakesEffect(states: seq<State>, schedule: seq<(nat, Choice)>, i: nat, t: nat)
    requires IsRun(states, schedule) && i < |schedule| && states[i].IsHart(t)
    requires states[i].IsHart(schedule[i].0) && states[i].harts[schedule[i].0].pc == Running
    requires schedule[i].1.call == Start(t)
    ensures var s, s', h := states[i], states[i + 1], schedule[i].0;
            if s.harts[t].hsm == Stopped then
              && t != h && |s'.harts| == |s.harts|
              && s'.harts[t] == s.harts[t].(hsm := StartPending, starts := s.harts[t].starts + 1)
              && s'.harts[h] == s.harts[h].(pc := Kick(t))
              && (forall k :: 0 <= k < |s.harts| && k != t && k != h ==> s'.harts[k] == s.harts[k])
            else s' == s
  {
    RunKeepsInv(states, schedule, i);
    assert PcOk(states[i], schedule[i].0);
  }

  // ---------------------------------------------------------------------
  // The weight
  // ---------------------------------------------------------------------

  /** How many steps the cold hart has left before its supervisor runs; n is the number of harts. */
  function ColdLeft(pc: Pc, n: nat): nat
  {
    match pc
    case ColdInit => 3 * n + 6
    case ColdFinalize(todo) => 2 * |todo| + n + 5
    case ColdKick(_, todo) => 2 * |todo| + n + 6
    case ColdStore => n + 4
    case ColdLock => n + 3
    case ColdSend(next) => if next < n then n - next + 2 else 2
    case ColdJump => 1
    case _ => 0
  }

  /** How many steps another hart has left, not counting those in which it sleeps. */
  function WarmLeft(pc: Pc): nat
  {
    match pc
    case Suspending(_) => 10
    case Entry => 9
    case WaitMark => 8
    case WaitSleep => 7
    case WaitRead => 6
    case WaitUnmark => 5
    case Dispatch => 4
    case StartSleep => 4
    case StartRead => 3
    case ResumeStart => 3
    case WarmInit => 2
    case ResumeFinish => 1
    case Restoring => 1
    case WarmJump => 1
    case _ => 0
  }

  ghost function ColdWeight(s: State): nat
  {
    if s.cold.Some? && s.IsHart(s.cold.value) then ColdLeft(s.harts[s.cold.value].pc, |s.harts|) else 0
  }

  ghost function WarmWeight(s: State, t: nat): nat
    requires s.IsHart(t)
  {
    2 * WarmLeft(s.harts[t].pc) + if s.harts[t].msip then 0 else 1
  }

  /** The hart has won the lottery, been started or suspended itself, and is not running yet. */
  ghost predicate Coming(s: State, t: nat)
  {
    && s.IsHart(t)
    && ((s.ready && s.harts[t].hsm in {StartPending, Suspended, ResumePending}) || s.harts[t].pc == ColdInit)
  }

  // ---------------------------------------------------------------------
  // One step forward
  // ---------------------------------------------------------------------

  /** The hart runs, or is on its way with less left to do. */
  ghost predicate Closer(s: State, s': State, t: nat)
    requires s.IsHart(t)
  {
    && s'.IsHart(t)
    && (|| s'.harts[t].pc == Running
        || (Coming(s', t) &&
           (ColdWeight(s') < ColdWeight(s) ||
               (ColdWeight(s') == ColdWeight(s) && WarmWeight(s', t) < WarmWeight(s, t)))))
  }

  /** No spurious wakeup, and no call: the choices of a hart that only goes on. */
  predicate GoOn(c: Choice)
  {
    !c.wake && !c.handle
  }

  const PLAIN := Choice(false, {}, 0, Stop, false, false)

  /** The lock is free unless the cold hart is in its wake loop. */
  lemma LockIsFree(s: State)
    requires Inv(s) && (s.cold.Some? && s.IsHart(s.cold.value) ==> !s.harts[s.cold.value].pc.ColdSend?)
    ensures s.lock == None
  {
    assert forall h :: 0 <= h < |s.harts| && s.harts[h].pc.ColdSend? ==> ColdOk(s, h);
  }

  /** sbi_hsm_init leaves at most all harts to be started. */
  lemma InitIsCloser(s: State, t: nat, h: nat, c: Choice)
    requires Inv(s) && Coming(s, t) && s.IsHart(h) && s.harts[h].pc == ColdInit
    ensures Closer(s, ColdInitStep(s, h, c), t)
  {
    assert PcOk(s, h) && ColdOk(s, h) && ColdOk(s, t);
    var todo := set k | k in c.boot && k < |s.harts| && k != h;
    AtMost(todo, |s.harts|);
  }

  /** Numbers below n are at most n. */
  lemma {:induction false} AtMost(u: set<nat>, n: nat)
    requires forall k <- u :: k < n
    ensures |u| <= n
  {
    if n == 0 {
      assert u == {};
    } else {
      AtMost(u - {n - 1}, n - 1);
    }
  }

  /** sbi_domain_finalize: one boot hart after the other. */
  lemma FinalizeIsCloser(s: State, t: nat, h: nat) returns (c: Choice)
    requires Inv(s) && Coming(s, t) && s.IsHart(h) && s.harts[h].pc.ColdFinalize?
    ensures GoOn(c) && Closer(s, ColdFinalizeStep(s, h, c), t)
  {
    assert PcOk(s, h) && ColdOk(s, h) && ColdOk(s, t);
    var todo := s.harts[h].pc.todo;
    c := PLAIN;
    if todo != {} {
      var target :| target in todo;
      c := c.(target := target);
      StartIsCloser(s, t, h, target);
    }
  }

  lemma StartIsCloser(s: State, t: nat, h: nat, target: nat)
    requires Inv(s) && Coming(s, t) && s.IsHart(h) && s.harts[h].pc.ColdFinalize? && s.IsHart(target)
    requires target in s.harts[h].pc.todo && target != h && s.harts[target].hsm == Stopped && s.cold == Some(h)
    ensures Closer(s, PutPc(StartCas(s, target), h, ColdKick(target, s.harts[h].pc.todo - {target})), t)
  {
    var todo := s.harts[h].pc.todo;
    var s' := PutPc(StartCas(s, target), h, ColdKick(target, todo - {target}));
    assert ColdOk(s, t);
    assert Coming(s', t);
    assert |todo - {target}| == |todo| - 1;
  }

  lemma SendIsCloser(s: State, t: nat, h: nat)
    requires Inv(s) && Coming(s, t) && s.IsHart(h) && s.harts[h].pc.ColdSend?
    ensures Closer(s, ColdSendStep(s, h), t)
  {
    assert ColdOk(s, h);
  }

  /** The cold hart never waits. */
  lemma ColdStepIsCloser(s: State, t: nat, h: nat) returns (c: Choice)
    requires Inv(s) && Coming(s, t) && s.IsHart(h) && s.harts[h].pc.Cold()
    ensures GoOn(c) && Closer(s, ColdStep(s, h, c), t)
  {
    assert PcOk(s, h) && ColdOk(s, h);
    c := PLAIN;
    match s.harts[h].pc
    case ColdInit => InitIsCloser(s, t, h, c);
    case ColdFinalize(_) => c := FinalizeIsCloser(s, t, h);
    case ColdSend(_) => SendIsCloser(s, t, h);
    case ColdLock => LockIsFree(s);
    case _ =>
  }

  /** Past cold boot, the wait for it ends: the lock is free, and a hart that sleeps has its interrupt. */
  lemma ArriveIsCloser(s: State, t: nat)
    requires Inv(s) && WakeInv(s) && Coming(s, t) && s.done && ColdWeight(s) == 0 && s.harts[t].pc.Arriving()
    ensures Closer(s, ArriveStep(s, t, PLAIN), t)
  {
    assert PcOk(s, t) && WakeOk(s, t);
    LockIsFree(s);
  }

  lemma WarmIsCloser(s: State, t: nat)
    requires Inv(s) && Coming(s, t) && ColdWeight(s) == 0 && InWarmBoot(s.harts[t].pc)
    requires !(s.harts[t].pc.StartSleep? && !s.harts[t].msip)
    ensures Closer(s, WarmStep(s, t, PLAIN), t)
  {
    assert PcOk(s, t);
  }

  /** Past cold boot, the hart itself can move unless it sleeps. */
  lemma OwnStepIsCloser(s: State, t: nat)
    requires Inv(s) && WakeInv(s) && Coming(s, t) && s.done && ColdWeight(s) == 0
    requires !(s.harts[t].pc.StartSleep? && !s.harts[t].msip)
    ensures Closer(s, Next(s, t, PLAIN), t)
  {
    assert PcOk(s, t) && ColdOk(s, t);
    if s.harts[t].pc.Arriving() {
      ArriveIsCloser(s, t);
    } else if InWarmBoot(s.harts[t].pc) {
      WarmIsCloser(s, t);
    }
  }

  /** A sleeping hart that has been started is about to be kicked. */
  lemma KickIsCloser(s: State, t: nat, h: nat)
    requires Inv(s) && Coming(s, t) && ColdWeight(s) == 0 && !s.harts[t].msip
    requires s.IsHart(h) && s.harts[h].pc == Kick(t)
    ensures Closer(s, Next(s, h, PLAIN), t)
  {
    assert PcOk(s, h);
  }

  lemma SomeStepIsCloser(s: State, t: nat) returns (h: nat, c: Choice)
    requires Inv(s) && WakeInv(s) && Coming(s, t)
    ensures s.IsHart(h) && GoOn(c) && s.harts[h].pc != Running && Closer(s, Next(s, h, c), t)
  {
    assert ColdOk(s, t);
    h := s.cold.value;
    if s.harts[h].pc.Cold() {
      c := ColdStepIsCloser(s, t, h);
    } else if s.harts[t].pc.StartSleep? && !s.harts[t].msip {
      assert PcOk(s, t) && WakeOk(s, t);
      h :| s.IsHart(h) && s.harts[h].pc.AboutToKick(t);
      assert ColdOk(s, h);
      KickIsCloser(s, t, h);
      c := PLAIN;
    } else {
      h := t;
      assert PcOk(s, t);
      OwnStepIsCloser(s, t);
      c := PLAIN;
    }
  }

  // ---------------------------------------------------------------------
  // Whole runs
  // ---------------------------------------------------------------------

  /** The second run goes on from the first without spurious wakeups and without calls of the supervisor. */
  ghost predicate GoesOn(states: seq<State>, schedule: seq<(nat, Choice)>,
                         states': seq<State>, schedule': seq<(nat, Choice)>)
  {
    && IsRun(states', schedule') && states <= states' && schedule <= schedule'
    && forall i :: |schedule| <= i < |schedule'| ==>
         GoOn(schedule'[i].1) && states'[i].IsHart(schedule'[i].0) && states'[i].harts[schedule'[i].0].pc != Running
  }

  /** Every run can go on until a hart that has won the lottery, been started or suspended itself runs. */
  lemma {:induction false} StartedHartRuns(states: seq<State>, schedule: seq<(nat, Choice)>, t: nat)
    returns (states': seq<State>, schedule': seq<(nat, Choice)>)
    requires IsRun(states, schedule) && Coming(states[|states| - 1], t)
    ensures GoesOn(states, schedule, states', schedule')
    ensures states'[|states'| - 1].IsHart(t) && states'[|states'| - 1].harts[t].pc == Running
    decreases ColdWeight(states[|states| - 1]), WarmWeight(states[|states| - 1], t)
  {
    var longer, plan := CloserRun(states, schedule, t);
    if longer[|longer| - 1].harts[t].pc == Running {
      return longer, plan;
    }
    states', schedule' := StartedHartRuns(longer, plan, t);
    GoesFurther(states, schedule, longer, plan, states', schedule');
  }

  lemma CloserRun(states: seq<State>, schedule: seq<(nat, Choice)>, t: nat)
    returns (longer: seq<State>, plan: seq<(nat, Choice)>)
    requires IsRun(states, schedule) && Coming(states[|states| - 1], t)
    ensures GoesOn(states, schedule, longer, plan) && Closer(states[|states| - 1], longer[|longer| - 1], t)
  {
    RunKeepsWakeInv(states, schedule, |states| - 1);
    var h, c := SomeStepIsCloser(states[|states| - 1], t);
    longer, plan := Extend(states, schedule, h, c);
  }

  lemma Extend(states: seq<State>, schedule: seq<(nat, Choice)>, h: nat, c: Choice)
    returns (states': seq<State>, schedule': seq<(nat, Choice)>)
    requires IsRun(states, schedule) && states[|states| - 1].IsHart(h) && GoOn(c)
    requires states[|states| - 1].harts[h].pc != Running
    ensures GoesOn(states, schedule, states', schedule') && |states'| == |states| + 1
    ensures states'[|states|] == Next(states[|states| - 1], h, c)
  {
    states', schedule' := states + [Next(states[|states| - 1], h, c)], schedule + [(h, c)];
  }

  lemma GoesFurther(states: seq<State>, schedule: seq<(nat, Choice)>, longer: seq<State>, plan: seq<(nat, Choice)>,
                    states': seq<State>, schedule': seq<(nat, Choice)>)
    requires GoesOn(states, schedule, longer, plan) && GoesOn(longer, plan, states', schedule')
    ensures GoesOn(states, schedule, states', schedule')
  {
    forall i | |schedule| <= i < |schedule'|
      ensures GoOn(schedule'[i].1) && states'[i].IsHart(schedule'[i].0) &&
              states'[i].harts[schedule'[i].0].pc != Running
    {
      if i < |plan| {
        assert schedule'[i] == plan[i] && states'[i] == longer[i];
      }
    }
  }

  /** In particular after hart_start of a stopped hart. */
  lemma StartCanFinish(states: seq<State>, schedule: seq<(nat, Choice)>, t: nat)
    returns (states': seq<State>, schedule': seq<(nat, Choice)>)
    requires IsRun(states, schedule) && schedule != []
    requires var i := |schedule| - 1;
             && states[i].IsHart(schedule[i].0) && states[i].harts[schedule[i].0].pc == Running
             && schedule[i].1.call == Start(t) && states[i].IsHart(t) && states[i].harts[t].hsm == Stopped
    ensures GoesOn(states, schedule, states', schedule')
    ensures states'[|states'| - 1].IsHart(t) && states'[|states'| - 1].harts[t].pc == Running
  {
    var i := |schedule| - 1;
    StartTakesEffect(states, schedule, i, t);
    RunKeepsInv(states, schedule, i);
    assert PcOk(states[i], schedule[i].0);
    RunKeepsInv(states, schedule, i + 1);
    assert PcOk(states[i + 1], schedule[i].0);
    states', schedule' := StartedHartRuns(states, schedule, t);
  }

  // ---------------------------------------------------------------------
  // The boot harts of the domains
  // ---------------------------------------------------------------------

  /** Of the boot harts, those that the cold hart has still to start are in its list, and the others were started. */
  ghost predicate BootOk(s: State, h: nat, boot: set<nat>)
  {
    && s.IsHart(h) && s.ready && s.harts[h].pc != ColdInit
    && forall t: nat :: t in boot && t < |s.harts| && t != h ==>
         || s.harts[t].starts > 0
         || (s.harts[h].pc.ColdFinalize? && t in s.harts[h].pc.todo)
         || (s.harts[h].pc.ColdKick? && t in s.harts[h].pc.todo)
  }

  lemma FinalizeKeepsBoot(s: State, h: nat, c: Choice, boot: set<nat>)
    requires Inv(s) && BootOk(s, h, boot) && s.harts[h].pc.ColdFinalize?
    ensures BootOk(ColdFinalizeStep(s, h, c), h, boot)
  {
    assert PcOk(s, h);
  }

  lemma StepKeepsBoot(s: State, k: nat, c: Choice, h: nat, boot: set<nat>)
    requires Inv(s) && s.IsHart(k) && BootOk(s, h, boot)
    ensures BootOk(Next(s, k, c), h, boot)
  {
    NextFollows(s, k, c);
    var s' := Next(s, k, c);
    assert forall t :: 0 <= t < |s.harts| ==> HartFollows(s.harts[t], s'.harts[t]);
    NextMovesOne(s, k, c);
    if k == h && s.harts[h].pc.ColdFinalize? {
      FinalizeKeepsBoot(s, h, c, boot);
    } else if k == h {
      LaterPc(s, h, c);
    }
  }

  /** The harts are as many as before, and all but hart k are where they were. */
  ghost predicate OthersStay(s: State, s': State, k: nat)
  {
    |s'.harts| == |s.harts| && forall t :: 0 <= t < |s.harts| && t != k ==> s'.harts[t].pc == s.harts[t].pc
  }

  lemma ColdMovesOne(s: State, k: nat, c: Choice)
    requires s.IsHart(k) && s.harts[k].pc.Cold()
    ensures OthersStay(s, ColdStep(s, k, c), k)
  {
  }

  lemma ArriveMovesOne(s: State, k: nat, c: Choice)
    requires s.IsHart(k) && s.harts[k].pc.Arriving()
    ensures OthersStay(s, ArriveStep(s, k, c), k)
  {
  }

  lemma WarmMovesOne(s: State, k: nat, c: Choice)
    requires s.IsHart(k) && InWarmBoot(s.harts[k].pc)
    ensures OthersStay(s, WarmStep(s, k, c), k)
  {
  }

  lemma ServiceMovesOne(s: State, k: nat, c: Choice)
    requires s.IsHart(k) && InService(s.harts[k].pc)
    ensures OthersStay(s, ServiceStep(s, k, c), k)
  {
  }

  /** A step moves only its own hart. */
  lemma NextMovesOne(s: State, k: nat, c: Choice)
    requires s.IsHart(k)
    ensures OthersStay(s, Next(s, k, c), k)
  {
    var pc := s.harts[k].pc;
    if pc.Cold() {
      ColdMovesOne(s, k, c);
    } else if pc.Arriving() {
      ArriveMovesOne(s, k, c);
    } else if InWarmBoot(pc) {
      WarmMovesOne(s, k, c);
    } else if InService(pc) {
      ServiceMovesOne(s, k, c);
    }
  }

  /** The list of boot harts is left only when it is empty, and not entered again. */
  lemma LaterPc(s: State, h: nat, c: Choice)
    requires Inv(s) && s.IsHart(h) && s.ready && !s.harts[h].pc.ColdFinalize? && s.harts[h].pc != ColdInit
    ensures var pc, pc' := s.harts[h].pc, Next(s, h, c).harts[h].pc;
            && pc' != ColdInit
            && (pc.ColdKick? ==> pc' == pc || pc' == ColdFinalize(pc.todo))
  {
    assert PcOk(s, h);
  }

  lemma {:induction false} BootHartsStay(states: seq<State>, schedule: seq<(nat, Choice)>, from: nat, i: nat, h: nat)
    requires IsRun(states, schedule) && from < i < |states| && schedule[from].0 == h
    requires states[from].IsHart(h) && states[from].harts[h].pc == ColdInit
    ensures BootOk(states[i], h, schedule[from].1.boot)
  {
    if from + 1 == i {
      assert states[i] == ColdInitStep(states[from], h, schedule[from].1);
    } else {
      BootHartsStay(states, schedule, from, i - 1, h);
      RunKeepsInv(states, schedule, i - 1);
      StepKeepsBoot(states[i - 1], schedule[i - 1].0, schedule[i - 1].1, h, schedule[from].1.boot);
    }
  }

  /**
    The cold hart starts every boot hart: once it has left sbi_domain_finalize, each
    of them has been started.
   */
  lemma BootHartsAreStarted(states: seq<State>, schedule: seq<(nat, Choice)>, from: nat, i: nat, h: nat, t: nat)
    requires IsRun(states, schedule) && from < i < |states| && schedule[from].0 == h
    requires states[from].IsHart(h) && states[from].harts[h].pc == ColdInit && states[i].IsHart(h)
    requires !states[i].harts[h].pc.ColdFinalize? && !states[i].harts[h].pc.ColdKick?
    requires t in schedule[from].1.boot && states[i].IsHart(t) && t != h
    ensures states[i].harts[t].starts > 0
  {
    BootHartsStay(states, schedule, from, i, h);
  }
}
