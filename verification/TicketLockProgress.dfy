/**
  Who gets the ticket lock (opensbi/lib/sbi/riscv_locks.c): spin_lock takes the next
  turn, a turn that has come is taken, spin_trylock succeeds exactly when nobody has a
  ticket, and every waiting hart can get the lock.
 */
module TicketLockProgress {
  import opened TicketLock

  /** The choices of a hart that only goes on. */
  const PLAIN := Choice(false, false)

  /** spin_lock takes the turn after all those handed out. */
  lemma LockTakesTurn(states: seq<State>, schedule: seq<(nat, Choice)>, i: nat)
    requires IsRun(states, schedule) && i < |schedule| && states[i].IsHart(schedule[i].0)
    requires states[i].pcs[schedule[i].0] == Idle && !schedule[i].1.try
    ensures HasTurn(states[i + 1], schedule[i].0, states[i].served + |states[i].queue|)
    ensures states[i + 1].served == states[i].served && states[i + 1].IsHart(schedule[i].0)
    ensures states[i + 1].pcs[schedule[i].0].Checking?
  {
    assert states[i + 1] == Step(states[i], schedule[i].0, schedule[i].1);
  }

  /**
    spin_trylock that is not interrupted by others, nor by a failing
    store-conditional, gets the lock if and only if nobody has a ticket; otherwise it
    returns and leaves the lock as it is.
   */
  lemma TryLockIff(states: seq<State>, schedule: seq<(nat, Choice)>, i: nat, h: nat)
    requires IsRun(states, schedule) && |states[0].pcs| < TICKETS && i + 1 < |schedule|
    requires states[i].IsHart(h) && states[i].pcs[h] == TryLoading
    requires schedule[i].0 == h && schedule[i + 1].0 == h && !schedule[i + 1].1.spurious
    ensures states[i + 1].IsHart(h) && states[i + 2].IsHart(h)
    ensures states[i].queue == [] ==> states[i + 2].pcs[h] == Critical
    ensures states[i].queue != [] ==> states[i + 1].pcs[h] == Idle && states[i + 1].word == states[i].word
  {
    RunKeepsInv(states, schedule, i);
    FreeIffEqual(states[i]);
    assert states[i + 1] == Step(states[i], h, schedule[i].1);
    assert states[i + 2] == Step(states[i + 1], h, schedule[i + 1].1);
  }

  // ---------------------------------------------------------------------
  // Every waiting hart can get the lock
  // ---------------------------------------------------------------------

  /** How many steps the first hart of the queue has left before it releases the lock. */
  function StepsLeft(pc: Pc): nat
  {
    match pc
    case Checking(ticket, seen) => if ticket == seen then 3 else 5
    case Loading(_) => 4
    case Critical => 2
    case Unlocking(_) => 1
    case _ => 0
  }

  /** The hart waits at the given place of the queue. */
  ghost predicate WaitsAt(s: State, h: nat, place: nat)
  {
    && place < |s.queue| && s.queue[place] == h && s.IsHart(h)
    && (s.pcs[h].Checking? || s.pcs[h].Loading?) && s.IsHart(s.queue[0])
  }

  ghost function Weight(s: State, place: nat): nat
    requires s.queue != [] && s.IsHart(s.queue[0])
  {
    6 * place + StepsLeft(s.pcs[s.queue[0]])
  }

  /** The hart has the lock, or waits with less before it. */
  ghost predicate Closer(s: State, place: nat, s': State, h: nat, place': nat)
    requires s.queue != [] && s.IsHart(s.queue[0])
  {
    && s'.IsHart(h)
    && (s'.pcs[h] == Critical || (WaitsAt(s', h, place') && Weight(s', place') < Weight(s, place)))
  }

  /** The first hart's next step, before it releases the lock. */
  lemma FirstGoesOn(s: State, h: nat, place: nat)
    requires Inv(s) && WaitsAt(s, h, place) && !s.pcs[s.queue[0]].Unlocking?
    ensures Closer(s, place, Step(s, s.queue[0], PLAIN), h, place)
  {
    assert TicketOk(s, 0);
  }

  lemma FirstReleases(s: State, h: nat, place: nat)
    requires Inv(s) && WaitsAt(s, h, place) && s.pcs[s.queue[0]].Unlocking?
    ensures place > 0 && Closer(s, place, Step(s, s.queue[0], PLAIN), h, place - 1)
  {
    var s' := Step(s, s.queue[0], PLAIN);
    assert TicketOk(s, 1) && s'.queue[0] == s.queue[1];
    assert s'.queue[place - 1] == s.queue[place];
  }

  /** The second run goes on from the first without new calls of spin_lock or spin_trylock. */
  ghost predicate GoesOn(states: seq<State>, schedule: seq<(nat, Choice)>,
                         states': seq<State>, schedule': seq<(nat, Choice)>)
  {
    && IsRun(states', schedule') && states <= states' && schedule <= schedule'
    && forall i :: |schedule| <= i < |schedule'| ==>
         schedule'[i].1 == PLAIN && states'[i].IsHart(schedule'[i].0) && states'[i].pcs[schedule'[i].0] != Idle
  }

  lemma CloserRun(states: seq<State>, schedule: seq<(nat, Choice)>, h: nat, place: nat)
    returns (longer: seq<State>, plan: seq<(nat, Choice)>, place': nat)
    requires IsRun(states, schedule) && |states[0].pcs| < TICKETS && WaitsAt(states[|states| - 1], h, place)
    ensures GoesOn(states, schedule, longer, plan)
    ensures Closer(states[|states| - 1], place, longer[|longer| - 1], h, place')
  {
    var s := states[|states| - 1];
    RunKeepsInv(states, schedule, |states| - 1);
    var first := s.queue[0];
    assert TicketOk(s, 0);
    longer, plan := states + [Step(s, first, PLAIN)], schedule + [(first, PLAIN)];
    if s.pcs[first].Unlocking? {
      FirstReleases(s, h, place);
      place' := place - 1;
    } else {
      FirstGoesOn(s, h, place);
      place' := place;
    }
  }

  /** Every run can go on, without new calls, until a hart that waits holds the lock. */
  lemma {:induction false} WaiterGetsLock(states: seq<State>, schedule: seq<(nat, Choice)>, h: nat, place: nat)
    returns (states': seq<State>, schedule': seq<(nat, Choice)>)
    requires IsRun(states, schedule) && |states[0].pcs| < TICKETS && WaitsAt(states[|states| - 1], h, place)
    ensures GoesOn(states, schedule, states', schedule')
    ensures states'[|states'| - 1].IsHart(h) && states'[|states'| - 1].pcs[h] == Critical
    decreases Weight(states[|states| - 1], place)
  {
    var longer, plan, place' := CloserRun(states, schedule, h, place);
    if longer[|longer| - 1].pcs[h] == Critical {
      return longer, plan;
    }
    states', schedule' := WaiterGetsLock(longer, plan, h, place');
    GoesFurther(states, schedule, longer, plan, states', schedule');
  }

  lemma GoesFurther(states: seq<State>, schedule: seq<(nat, Choice)>, longer: seq<State>, plan: seq<(nat, Choice)>,
                    states': seq<State>, schedule': seq<(nat, Choice)>)
    requires GoesOn(states, schedule, longer, plan) && GoesOn(longer, plan, states', schedule')
    ensures GoesOn(states, schedule, states', schedule')
  {
    forall i | |schedule| <= i < |schedule'|
      ensures schedule'[i].1 == PLAIN && states'[i].IsHart(schedule'[i].0) && states'[i].pcs[schedule'[i].0] != Idle
    {
      if i < |plan| {
        assert schedule'[i] == plan[i] && states'[i] == longer[i];
      }
    }
  }

  /** In particular after spin_lock has been called: the call can return with the lock. */
  lemma LockCanSucceed(states: seq<State>, schedule: seq<(nat, Choice)>)
    returns (states': seq<State>, schedule': seq<(nat, Choice)>)
    requires IsRun(states, schedule) && |states[0].pcs| < TICKETS && schedule != []
    requires var i := |schedule| - 1;
             states[i].IsHart(schedule[i].0) && states[i].pcs[schedule[i].0] == Idle && !schedule[i].1.try
    ensures GoesOn(states, schedule, states', schedule')
    ensures var h := schedule[|schedule| - 1].0;
            states'[|states'| - 1].IsHart(h) && states'[|states'| - 1].pcs[h] == Critical
  {
    var i := |schedule| - 1;
    LockTakesTurn(states, schedule, i);
    RunKeepsInv(states, schedule, i + 1);
    assert TicketOk(states[i + 1], 0);
    states', schedule' := WaiterGetsLock(states, schedule, schedule[i].0, |states[i].queue|);
  }
}
