/**
  OpenSBI's ticket spinlock (opensbi/lib/sbi/riscv_locks.c): one 32-bit word whose
  low half is the ticket being served and whose high half is the next ticket to
  hand out, both modulo 2^16. One step is one memory access or the branch after it.
 */
module TicketLock {

  const TICKETS: nat := 0x1_0000
  const WORD: nat := 0x1_0000_0000

  function Owner(word: nat): nat
  {
    word % TICKETS
  }

  function Next(word: nat): nat
  {
    word / TICKETS
  }

  datatype Pc =
    | Idle
    // spin_lock, after the atomic add
    | Checking(ticket: nat, seen: nat)
    | Loading(ticket: nat)
    // spin_trylock
    | TryLoading
    | TryStoring(loaded: nat)
    // the lock is held
    | Critical
    // spin_unlock, between its load and its store
    | Unlocking(owner: nat)
  {
    predicate Holds() { Critical? || Unlocking? }
    predicate HasTicket() { Checking? || Loading? || Holds() }
  }

  /** `queue` lists the harts with a ticket, oldest first, and `served` counts the releases so far; both are history. */
  datatype State = State(word: nat, pcs: seq<Pc>, queue: seq<nat>, served: nat)
  {
    predicate IsHart(h: nat) { h < |pcs| }
    function Put(h: nat, pc: Pc): State
      requires IsHart(h)
    {
      this.(pcs := pcs[h := pc])
    }
  }

  /** What an idle hart does next, and whether a store-conditional fails for no reason. */
  datatype Choice = Choice(try: bool, spurious: bool)

  /** The word after one more ticket has been handed out: a 32-bit add of 1 << 16. */
  function Issued(word: nat): nat
  {
    (word + TICKETS) % WORD
  }

  /** The word after a 16-bit store to its low half. */
  function Stored(word: nat, owner: nat): nat
  {
    word - Owner(word) + owner
  }

  function Step(s: State, h: nat, c: Choice): State
    requires s.IsHart(h)
  {
    match s.pcs[h]
    case Idle =>
      if c.try then s.Put(h, TryLoading)
      else s.(word := Issued(s.word), queue := s.queue + [h]).Put(h, Checking(Next(s.word), Owner(s.word)))
    case Checking(ticket, seen) => s.Put(h, if ticket == seen then Critical else Loading(ticket))
    case Loading(ticket) => s.Put(h, Checking(ticket, Owner(s.word)))
    case TryLoading => s.Put(h, if Next(s.word) == Owner(s.word) then TryStoring(s.word) else Idle)
    case TryStoring(loaded) =>
      if s.word == loaded && !c.spurious then s.(word := Issued(s.word), queue := s.queue + [h]).Put(h, Critical)
      else s.Put(h, TryLoading)
    case Critical => s.Put(h, Unlocking(Owner(s.word)))
    case Unlocking(owner) =>
      s.(word := Stored(s.word, (owner + 1) % TICKETS), served := s.served + 1,
         queue := if s.queue == [] then [] else s.queue[1..]).Put(h, Idle)
  }

  ghost predicate Init(s: State)
  {
    s.word == 0 && s.queue == [] && s.served == 0 && forall h :: 0 <= h < |s.pcs| ==> s.pcs[h] == Idle
  }

  ghost predicate IsRun(states: seq<State>, schedule: seq<(nat, Choice)>)
  {
    && |states| == |schedule| + 1 && Init(states[0])
    && forall i :: 0 <= i < |schedule| ==>
         states[i].IsHart(schedule[i].0) && states[i + 1] == Step(states[i], schedule[i].0, schedule[i].1)
  }

  // ---------------------------------------------------------------------
  // The invariant
  // ---------------------------------------------------------------------

  /**
    The hart at position i of the queue has the i-th ticket from the one being
    served; only the first may have seen its turn.
   */
  ghost predicate TicketOk(s: State, i: nat)
    requires i < |s.queue|
  {
    && s.IsHart(s.queue[i]) && s.pcs[s.queue[i]].HasTicket()
    && match s.pcs[s.queue[i]]
       case Checking(ticket, seen) => ticket == (s.served + i) % TICKETS && (ticket == seen ==> i == 0)
       case Loading(ticket) => ticket == (s.served + i) % TICKETS
       case Unlocking(owner) => i == 0 && owner == Owner(s.word)
       case _ => i == 0
  }

  ghost predicate Inv(s: State)
  {
    && s.word < WORD
    && Owner(s.word) == s.served % TICKETS && Next(s.word) == (s.served + |s.queue|) % TICKETS
    && (forall i :: 0 <= i < |s.queue| ==> TicketOk(s, i))
    && (forall i, j :: 0 <= i < j < |s.queue| ==> s.queue[i] != s.queue[j])
    && (forall h :: 0 <= h < |s.pcs| && s.pcs[h].HasTicket() ==> h in s.queue)
    && (forall h :: 0 <= h < |s.pcs| && s.pcs[h].TryStoring? ==> Next(s.pcs[h].loaded) == Owner(s.pcs[h].loaded))
  }

  lemma InQueue(s: State)
    requires Inv(s)
    ensures forall i :: 0 <= i < |s.queue| ==> s.IsHart(s.queue[i]) && s.pcs[s.queue[i]].HasTicket()
  {
    forall i | 0 <= i < |s.queue|
      ensures s.IsHart(s.queue[i]) && s.pcs[s.queue[i]].HasTicket()
    {
      assert TicketOk(s, i);
    }
  }

  // ---------------------------------------------------------------------
  // Words
  // ---------------------------------------------------------------------

  lemma IssuedWord(word: nat)
    requires word < WORD
    ensures Issued(word) < WORD && Owner(Issued(word)) == Owner(word) &&
            Next(Issued(word)) == (Next(word) + 1) % TICKETS
  {
  }

  lemma StoredWord(word: nat, owner: nat)
    requires word < WORD && owner < TICKETS
    ensures 0 <= Stored(word, owner) < WORD && Owner(Stored(word, owner)) == owner &&
            Next(Stored(word, owner)) == Next(word)
  {
  }

  lemma ModNext(x: nat)
    ensures (x + 1) % TICKETS == (x % TICKETS + 1) % TICKETS
  {
  }

  /** Fewer than 2^16 consecutive numbers have different remainders. */
  lemma ModDistinct(x: nat, i: nat)
    requires 0 < i < TICKETS
    ensures (x + i) % TICKETS != x % TICKETS
  {
  }

  /** Different numbers below n: there are at most n. */
  lemma {:induction false} Pigeonhole(q: seq<nat>, n: nat)
    requires forall i :: 0 <= i < |q| ==> q[i] < n
    requires forall i, j :: 0 <= i < j < |q| ==> q[i] != q[j]
    ensures |q| <= n
  {
    assert q == [] || q[0] < n;
    if n > 0 && exists i :: 0 <= i < |q| && q[i] == n - 1 {
      var i :| 0 <= i < |q| && q[i] == n - 1;
      Pigeonhole(q[..i] + q[i + 1..], n - 1);
    } else if n > 0 {
      Pigeonhole(q, n - 1);
    }
  }

  /** With fewer than 2^16 harts the counters agree exactly when no ticket is outstanding. */
  lemma FreeIffEqual(s: State)
    requires Inv(s) && |s.pcs| < TICKETS
    ensures |s.queue| < TICKETS && (Next(s.word) == Owner(s.word) <==> s.queue == [])
  {
    InQueue(s);
    Pigeonhole(s.queue, |s.pcs|);
    if s.queue != [] {
      ModDistinct(s.served, |s.queue|);
    }
  }

  // ---------------------------------------------------------------------
  // Steps
  // ---------------------------------------------------------------------

  lemma IssueKeepsInv(s: State, h: nat, pc: Pc)
    requires Inv(s) && s.IsHart(h) && !s.pcs[h].HasTicket()
    requires pc == Checking(Next(s.word), Owner(s.word)) || (pc == Critical && s.queue == [])
    requires Next(s.word) == Owner(s.word) ==> s.queue == []
    ensures Inv(s.(word := Issued(s.word), queue := s.queue + [h]).Put(h, pc))
  {
    var s' := s.(word := Issued(s.word), queue := s.queue + [h]).Put(h, pc);
    InQueue(s);
    IssuedWord(s.word);
    ModNext(s.served + |s.queue|);
    forall i | 0 <= i < |s'.queue|
      ensures TicketOk(s', i)
    {
      if i < |s.queue| {
        assert TicketOk(s, i);
      }
    }
  }

  lemma ReleaseTicketOk(s: State, s': State, h: nat, i: nat)
    requires s.queue != [] && s.queue[0] == h && s'.queue == s.queue[1..] && s'.served == s.served + 1
    requires |s'.pcs| == |s.pcs| && forall k :: 0 <= k < |s.pcs| && k != h ==> s'.pcs[k] == s.pcs[k]
    requires i < |s'.queue| && TicketOk(s, i + 1) && s.queue[i + 1] != h
    ensures TicketOk(s', i)
  {
    assert s'.queue[i] == s.queue[i + 1];
    assert s'.served + i == s.served + (i + 1);
  }

  /** The words after the release of the turn being served. */
  lemma ReleasedWord(word: nat, served: nat, waiting: nat)
    requires word < WORD && Owner(word) == served % TICKETS && Next(word) == (served + waiting) % TICKETS && waiting > 0
    ensures var word' := Stored(word, (Owner(word) + 1) % TICKETS);
            && 0 <= word' < WORD && Owner(word') == (served + 1) % TICKETS
            && Next(word') == (served + 1 + (waiting - 1)) % TICKETS
  {
    StoredWord(word, (Owner(word) + 1) % TICKETS);
    ModNext(served);
  }

  lemma ReleaseKeepsInv(s: State, h: nat)
    requires Inv(s) && s.IsHart(h) && s.pcs[h].Unlocking?
    ensures Inv(Step(s, h, Choice(false, false)))
  {
    var s' := Step(s, h, Choice(false, false));
    HolderIsFirst(s, h);
    assert TicketOk(s, 0);
    ReleasedWord(s.word, s.served, |s.queue|);
    forall i | 0 <= i < |s'.queue|
      ensures TicketOk(s', i)
    {
      assert TicketOk(s, i + 1);
      ReleaseTicketOk(s, s', h, i);
    }
  }

  /** A step of a hart with a ticket that keeps it. */
  lemma OwnKeepsInv(s: State, h: nat, pc: Pc)
    requires Inv(s) && s.IsHart(h) && s.pcs[h].HasTicket() == pc.HasTicket()
    requires pc.TryStoring? ==> Next(pc.loaded) == Owner(pc.loaded)
    requires forall i :: 0 <= i < |s.queue| && s.queue[i] == h ==> TicketOk(s, i) ==> TicketOk(s.Put(h, pc), i)
    ensures Inv(s.Put(h, pc))
  {
    var s' := s.Put(h, pc);
    forall i | 0 <= i < |s'.queue|
      ensures TicketOk(s', i)
    {
      assert TicketOk(s, i);
    }
  }

  lemma StepKeepsInv(s: State, h: nat, c: Choice)
    requires Inv(s) && |s.pcs| < TICKETS && s.IsHart(h)
    ensures Inv(Step(s, h, c)) && |Step(s, h, c).pcs| == |s.pcs|
  {
    FreeIffEqual(s);
    match s.pcs[h]
    case Idle =>
      if c.try {
        OwnKeepsInv(s, h, TryLoading);
      } else {
        IssueKeepsInv(s, h, Checking(Next(s.word), Owner(s.word)));
      }
    case TryStoring(loaded) =>
      if s.word == loaded && !c.spurious {
        IssueKeepsInv(s, h, Critical);
      } else {
        OwnKeepsInv(s, h, TryLoading);
      }
    case Unlocking(owner) =>
      ReleaseKeepsInv(s, h);
    case TryLoading =>
      OwnKeepsInv(s, h, if Next(s.word) == Owner(s.word) then TryStoring(s.word) else Idle);
    case Checking(ticket, seen) =>
      OwnKeepsInv(s, h, if ticket == seen then Critical else Loading(ticket));
    case Loading(ticket) =>
      LoadSeesTurn(s, h);
      OwnKeepsInv(s, h, Checking(ticket, Owner(s.word)));
    case Critical =>
      OwnKeepsInv(s, h, Unlocking(Owner(s.word)));
  }

  /** A hart that reads its own ticket as the one being served is first in the queue. */
  lemma LoadSeesTurn(s: State, h: nat)
    requires Inv(s) && |s.queue| < TICKETS && s.IsHart(h) && s.pcs[h].Loading?
    ensures forall i :: 0 <= i < |s.queue| && s.queue[i] == h && s.pcs[h].ticket == Owner(s.word) ==> i == 0
  {
    forall i | 0 <= i < |s.queue| && s.queue[i] == h && s.pcs[h].ticket == Owner(s.word)
      ensures i == 0
    {
      assert TicketOk(s, i);
      if i > 0 {
        ModDistinct(s.served, i);
      }
    }
  }

  lemma {:induction false} RunKeepsInv(states: seq<State>, schedule: seq<(nat, Choice)>, i: nat)
    requires IsRun(states, schedule) && |states[0].pcs| < TICKETS && i < |states|
    ensures Inv(states[i]) && |states[i].pcs| == |states[0].pcs|
  {
    if i > 0 {
      RunKeepsInv(states, schedule, i - 1);
      StepKeepsInv(states[i - 1], schedule[i - 1].0, schedule[i - 1].1);
    }
  }

  /** At most one hart holds the lock. */
  lemma MutualExclusion(states: seq<State>, schedule: seq<(nat, Choice)>, i: nat, h: nat, k: nat)
    requires IsRun(states, schedule) && |states[0].pcs| < TICKETS && i < |states|
    requires states[i].IsHart(h) && states[i].pcs[h].Holds() && states[i].IsHart(k) && states[i].pcs[k].Holds()
    ensures h == k
  {
    RunKeepsInv(states, schedule, i);
    HolderIsFirst(states[i], h);
    HolderIsFirst(states[i], k);
  }

  lemma HolderIsFirst(s: State, h: nat)
    requires Inv(s) && s.IsHart(h) && s.pcs[h].Holds()
    ensures s.queue != [] && s.queue[0] == h
  {
    var i :| 0 <= i < |s.queue| && s.queue[i] == h;
    assert TicketOk(s, i);
  }

  /**
    The harts with a ticket are those of the queue, each once, and the holder is
    the first; their tickets are the consecutive numbers from owner to next, modulo
    2^16.
   */
  lemma TicketsAreAnInterval(states: seq<State>, schedule: seq<(nat, Choice)>, i: nat)
    requires IsRun(states, schedule) && |states[0].pcs| < TICKETS && i < |states|
    ensures var s := states[i];
            && |s.queue| < TICKETS && Next(s.word) == (Owner(s.word) + |s.queue|) % TICKETS
            && (forall k, l :: 0 <= k < l < |s.queue| ==> s.queue[k] != s.queue[l])
            && (forall h: nat :: s.IsHart(h) ==> (s.pcs[h].HasTicket() <==> h in s.queue))
            && (forall k :: 0 <= k < |s.queue| ==> s.IsHart(s.queue[k]) && (s.pcs[s.queue[k]].Holds() ==> k == 0))
            && forall k :: 0 <= k < |s.queue| && (s.pcs[s.queue[k]].Checking? || s.pcs[s.queue[k]].Loading?) ==>
                 s.pcs[s.queue[k]].ticket == (Owner(s.word) + k) % TICKETS
  {
    var s := states[i];
    RunKeepsInv(states, schedule, i);
    FreeIffEqual(s);
    InQueue(s);
    ModShift(s.served, |s.queue|);
    forall k | 0 <= k < |s.queue|
      ensures s.pcs[s.queue[k]].Holds() ==> k == 0
      ensures s.pcs[s.queue[k]].Checking? || s.pcs[s.queue[k]].Loading? ==>
                s.pcs[s.queue[k]].ticket == (Owner(s.word) + k) % TICKETS
    {
      assert TicketOk(s, k);
      ModShift(s.served, k);
    }
  }

  lemma ModShift(x: nat, k: nat)
    ensures (x + k) % TICKETS == (x % TICKETS + k) % TICKETS
  {
  }

  /** The turn of a hart in the queue: how many releases come before its own. */
  ghost predicate HasTurn(s: State, h: nat, turn: nat)
  {
    s.served <= turn < s.served + |s.queue| && s.queue[turn - s.served] == h
  }

  /** A hart keeps its turn until all turns up to it have been served. */
  lemma {:induction false} TurnIsKept(states: seq<State>, schedule: seq<(nat, Choice)>, i: nat, j: nat, h: nat,
      turn: nat)
    requires IsRun(states, schedule) && i <= j < |states|
    requires HasTurn(states[i], h, turn) && states[j].served <= turn
    ensures HasTurn(states[j], h, turn)
  {
    if i < j {
      ServedGrows(states, schedule, j - 1);
      TurnIsKept(states, schedule, i, j - 1, h, turn);
      TurnKeptOnce(states, schedule, j - 1, h, turn);
    }
  }

  lemma TurnKeptOnce(states: seq<State>, schedule: seq<(nat, Choice)>, i: nat, h: nat, turn: nat)
    requires IsRun(states, schedule) && i + 1 < |states|
    requires HasTurn(states[i], h, turn) && states[i + 1].served <= turn
    ensures HasTurn(states[i + 1], h, turn)
  {
    StepKeepsTurn(states[i], schedule[i].0, schedule[i].1, h, turn);
  }

  lemma StepKeepsTurn(s: State, k: nat, c: Choice, h: nat, turn: nat)
    requires s.IsHart(k) && HasTurn(s, h, turn) && Step(s, k, c).served <= turn
    ensures HasTurn(Step(s, k, c), h, turn)
  {
  }

  lemma ServedGrows(states: seq<State>, schedule: seq<(nat, Choice)>, i: nat)
    requires IsRun(states, schedule) && i + 1 < |states|
    ensures states[i].served <= states[i + 1].served
  {
    assert states[i + 1] == Step(states[i], schedule[i].0, schedule[i].1);
  }

  /**
    First come, first served: if a took its ticket before b, then whenever b holds
    the lock with that ticket, a's turn is over.
   */
  lemma FirstComeFirstServed(states: seq<State>, schedule: seq<(nat, Choice)>, i: nat, j: nat,
                             a: nat, turnA: nat, b: nat, turnB: nat)
    requires IsRun(states, schedule) && |states[0].pcs| < TICKETS && i <= j < |states|
    requires HasTurn(states[i], a, turnA) && HasTurn(states[i], b, turnB) && turnA < turnB
    requires states[j].IsHart(b) && states[j].pcs[b].Holds() && states[j].served <= turnB
    ensures turnA < states[j].served == turnB
  {
    RunKeepsInv(states, schedule, j);
    TurnIsKept(states, schedule, i, j, b, turnB);
    HolderIsFirst(states[j], b);
  }
}
