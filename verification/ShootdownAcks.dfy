/**
  Acknowledgements of the shootdown protocol are conserved.

  While hart s waits on hart r there is exactly one acknowledgement token for it:
  in one entry of r's FIFO, in the entry r has taken off its FIFO, or in s's sync
  word. A hart that is not waiting has none.
 */
module ShootdownAcks {
  import opened Fifo
  import opened Tlb
  import opened Shootdown

  /** s is to be acknowledged by the i-th entry of r's FIFO. */
  ghost predicate InFifo(st: State, r: nat, i: nat, s: nat)
  {
    st.IsHart(r) && i < |st.harts[r].fifo| && s in st.harts[r].fifo[i].smask
  }

  /** r has taken off the entry that acknowledges s, and has not acknowledged s yet. */
  ghost predicate Taken(st: State, r: nat, s: nat)
  {
    st.IsHart(r) && s in st.harts[r].work.Unacked()
  }

  ghost predicate Synced(st: State, s: nat)
  {
    st.IsHart(s) && st.harts[s].sync
  }

  ghost predicate WaitsOn(st: State, s: nat, r: nat)
  {
    st.IsHart(s) && st.harts[s].pc.WaitsOn(r)
  }

  /** Targets exist and differ from the hart itself; only processing harts hold taken-off entries. */
  ghost predicate HartOk(st: State, h: nat)
    requires st.IsHart(h)
  {
    var hart := st.harts[h];
    && (hart.pc.HasTarget() ==> st.IsHart(hart.pc.target) && hart.pc.target != h)
    && (hart.pc.EventSettingBit? || hart.pc.EventRaising? ==> st.IsHart(hart.pc.target))
    && (hart.pc.Requesting() ==> forall t <- hart.todo :: st.IsHart(t))
    && (hart.work != NoWork ==> hart.pc.Processing())
    && (hart.pc.Requesting() ==> hart.req.smask == {h})
    && |hart.fifo| <= FIFO_ENTRIES
  }

  ghost predicate Shaped(st: State)
  {
    forall h :: 0 <= h < |st.harts| ==> HartOk(st, h)
  }

  /** Every token belongs to a hart that waits for it, and lies in one place. */
  ghost predicate Conserved(st: State)
  {
    && (forall r: nat, i: nat, s: nat :: InFifo(st, r, i, s) ==>
       WaitsOn(st, s, r) && !Taken(st, r, s) && !Synced(st, s))
    && (forall r: nat, i: nat, j: nat, s: nat :: InFifo(st, r, i, s) && InFifo(st, r, j, s) ==> i == j)
    && (forall r: nat, s: nat :: Taken(st, r, s) ==> WaitsOn(st, s, r) && !Synced(st, s))
    && (forall s: nat :: Synced(st, s) ==> st.harts[s].pc.Waiting())
    && (forall r: nat, s: nat :: WaitsOn(st, s, r) ==>
       Synced(st, s) || Taken(st, r, s) || exists i: nat :: InFifo(st, r, i, s))
  }

  ghost predicate AckInv(st: State)
  {
    Shaped(st) && Conserved(st)
  }

  // ---------------------------------------------------------------------
  // Frames
  // ---------------------------------------------------------------------

  /** The step left queues, taken-off entries, sync words and waiting harts as they were. */
  ghost predicate SameTokens(st: State, st': State)
  {
    && |st'.harts| == |st.harts|
    && forall h :: 0 <= h < |st.harts| ==>
         && st'.harts[h].fifo == st.harts[h].fifo
         && st'.harts[h].work.Unacked() == st.harts[h].work.Unacked()
         && st'.harts[h].sync == st.harts[h].sync
         && (st'.harts[h].pc.Waiting() == st.harts[h].pc.Waiting())
         && (st.harts[h].pc.Waiting() ==> st'.harts[h].pc.target == st.harts[h].pc.target)
  }

  lemma SameTokensConserved(st: State, st': State)
    requires Conserved(st) && SameTokens(st, st')
    ensures Conserved(st')
  {
    assert forall r: nat, i: nat, s: nat :: InFifo(st', r, i, s) <==> InFifo(st, r, i, s);
    assert forall r: nat, s: nat :: Taken(st', r, s) <==> Taken(st, r, s);
    assert forall s: nat :: Synced(st', s) <==> Synced(st, s);
    assert forall r: nat, s: nat :: WaitsOn(st', s, r) <==> WaitsOn(st, s, r);
  }

  // ---------------------------------------------------------------------
  // The steps that move tokens
  // ---------------------------------------------------------------------

  /** A hart that is neither waiting nor synced has no token anywhere. */
  lemma NoTokenUnlessWaiting(st: State, h: nat)
    requires Conserved(st) && st.IsHart(h) && !st.harts[h].pc.Waiting()
    ensures forall r: nat, i: nat :: !InFifo(st, r, i, h)
    ensures forall r: nat :: !Taken(st, r, h)
    ensures !Synced(st, h)
  {
  }

  /** h's token appears in entry `at` of r's FIFO, everything else stays put. */
  lemma QueuedConserved(st: State, st': State, h: nat, r: nat, at: nat)
    requires Conserved(st) && st.IsHart(h) && st.IsHart(r) && h != r && !st.harts[h].pc.Waiting()
    requires |st'.harts| == |st.harts|
    requires st' == PutPc(Put(st, r, st.harts[r].(fifo := st'.harts[r].fifo)), h, SettingBit(r))
    requires |st.harts[r].fifo| <= |st'.harts[r].fifo| && at < |st'.harts[r].fifo|
    requires forall i: nat, s: nat :: InFifo(st', r, i, s) <==> InFifo(st, r, i, s) || (i == at && s == h)
    ensures Conserved(st')
  {
    NoTokenUnlessWaiting(st, h);
    assert forall q: nat, i: nat, s: nat :: InFifo(st', q, i, s) <==>
           InFifo(st, q, i, s) || (q == r && i == at && s == h);
    assert forall q: nat, s: nat :: Taken(st', q, s) <==> Taken(st, q, s);
    assert forall s: nat :: Synced(st', s) <==> Synced(st, s);
    assert forall q: nat, s: nat :: WaitsOn(st', s, q) <==> WaitsOn(st, s, q) || (s == h && q == r);
    assert InFifo(st', r, at, h);
  }

  /** Where and how the update callback changed the target's queue. */
  lemma MergeEffect(st: State, h: nat, r: nat) returns (at: nat)
    requires st.IsHart(h) && st.IsHart(r)
    ensures var fifo := st.harts[r].fifo;
            var (queue, verdict) := InplaceUpdated(fifo, st.harts[h].req, UpdateCallback);
            && (verdict == Unchanged <==> at == |fifo|)
            && (verdict == Unchanged ==> queue == fifo)
            && (verdict != Unchanged ==>
                  && at < |fifo|
                  && UpdateCallback(st.harts[h].req, fifo[at]).1 != Unchanged
                  && queue == fifo[at := UpdateCallback(st.harts[h].req, fifo[at]).0]
                  && queue[at].smask == fifo[at].smask + st.harts[h].req.smask)
  {
    at := InplaceUpdatedChangesOne(st.harts[r].fifo, st.harts[h].req, UpdateCallback);
  }

  lemma MergeConserved(st: State, h: nat, r: nat)
    requires AckInv(st) && st.IsHart(h) && st.harts[h].pc == Merging(r)
    requires HartOk(st, h)
    ensures Conserved(MergeStep(st, h, r))
  {
    var st' := MergeStep(st, h, r);
    var at := MergeEffect(st, h, r);
    if at == |st.harts[r].fifo| {
      assert SameTokens(st, st');
      SameTokensConserved(st, st');
    } else {
      assert forall i: nat, s: nat :: InFifo(st', r, i, s) <==> InFifo(st, r, i, s) || (i == at && s == h);
      QueuedConserved(st, st', h, r, at);
    }
  }

  lemma EnqueueConserved(st: State, h: nat, r: nat)
    requires AckInv(st) && st.IsHart(h) && st.harts[h].pc == Enqueuing(r)
    requires HartOk(st, h)
    ensures Conserved(EnqueueStep(st, h, r))
  {
    var st' := EnqueueStep(st, h, r);
    var at := |st.harts[r].fifo|;
    assert HartOk(st, r);
    if at == FIFO_ENTRIES {
      assert SameTokens(st, st');
      SameTokensConserved(st, st');
    } else {
      assert forall i: nat, s: nat :: InFifo(st', r, i, s) <==> InFifo(st, r, i, s) || (i == at && s == h);
      QueuedConserved(st, st', h, r, at);
    }
  }

  lemma SyncConserved(st: State, h: nat, r: nat)
    requires AckInv(st) && st.IsHart(h) && st.harts[h].pc == Syncing(r)
    ensures Conserved(SyncStep(st, h, r))
  {
    var st' := SyncStep(st, h, r);
    if !st.harts[h].sync {
      assert SameTokens(st, st');
      SameTokensConserved(st, st');
    } else {
      assert Synced(st, h);
      assert forall q: nat, i: nat, s: nat :: InFifo(st', q, i, s) <==> InFifo(st, q, i, s);
      assert forall q: nat, s: nat :: Taken(st', q, s) <==> Taken(st, q, s);
      assert forall s: nat :: Synced(st', s) <==> Synced(st, s) && s != h;
      assert forall q: nat, s: nat :: WaitsOn(st', s, q) <==> WaitsOn(st, s, q) && s != h;
    }
  }

  lemma TakeOffConserved(st: State, h: nat)
    requires AckInv(st) && st.IsHart(h) && st.harts[h].pc.Processing()
    requires st.harts[h].work == NoWork && st.harts[h].fifo != []
    ensures Conserved(ProcessStep(st, h))
  {
    var st' := ProcessStep(st, h);
    assert forall q: nat, i: nat, s: nat :: InFifo(st', q, i, s) <==> InFifo(st, q, if q == h then i + 1 else i, s);
    assert forall q: nat, s: nat :: Taken(st', q, s) <==> Taken(st, q, s) || (q == h && InFifo(st, h, 0, s));
    assert forall s: nat :: Synced(st', s) <==> Synced(st, s);
    assert forall q: nat, s: nat :: WaitsOn(st', s, q) <==> WaitsOn(st, s, q);
    forall r: nat, s: nat | WaitsOn(st', s, r)
      ensures Synced(st', s) || Taken(st', r, s) || exists i: nat :: InFifo(st', r, i, s)
    {
      if !Synced(st, s) && !Taken(st, r, s) {
        var i: nat :| InFifo(st, r, i, s);
        if r == h && i > 0 {
          assert InFifo(st', r, i - 1, s);
        } else if r != h {
          assert InFifo(st', r, i, s);
        }
      }
    }
  }

  lemma AckConserved(st: State, h: nat, s: nat)
    requires AckInv(st) && st.IsHart(h) && st.harts[h].work.Acking?
    requires s in st.harts[h].work.left
    ensures st.IsHart(s) && s != h && !st.harts[s].sync
    ensures Conserved(AckStep(st, h, st.harts[h].work.entry, st.harts[h].work.left, s))
  {
    assert Taken(st, h, s);
    assert HartOk(st, s);
    var st' := AckStep(st, h, st.harts[h].work.entry, st.harts[h].work.left, s);
    assert forall q: nat, i: nat, t: nat :: InFifo(st', q, i, t) <==> InFifo(st, q, i, t);
    assert forall q: nat, t: nat :: Taken(st', q, t) <==> Taken(st, q, t) && !(q == h && t == s);
    assert forall t: nat :: Synced(st', t) <==> Synced(st, t) || t == s;
    assert forall q: nat, t: nat :: WaitsOn(st', t, q) <==> WaitsOn(st, t, q);
  }

  // ---------------------------------------------------------------------
  // Every step, every run
  // ---------------------------------------------------------------------

  lemma ProcessConserved(st: State, h: nat)
    requires AckInv(st) && st.IsHart(h) && st.harts[h].pc.Processing()
    requires forall t <- st.harts[h].work.Unacked() :: st.IsHart(t)
    ensures Conserved(ProcessStep(st, h))
  {
    var st' := ProcessStep(st, h);
    var hart := st.harts[h];
    assert HartOk(st, h);
    if hart.work == NoWork && hart.fifo != [] {
      TakeOffConserved(st, h);
    } else if hart.work.Acking? && hart.work.left != {} {
      AckConserved(st, h, Least(hart.work.left));
    } else {
      assert SameTokens(st, st');
      SameTokensConserved(st, st');
    }
  }

  lemma SameHartOk(st: State, st': State, q: nat)
    requires st.IsHart(q) && HartOk(st, q) && |st'.harts| == |st.harts|
    requires var a, b := st.harts[q], st'.harts[q];
             b.pc == a.pc && b.todo == a.todo && b.work == a.work && b.req == a.req && b.fifo == a.fifo
    ensures HartOk(st', q)
  {
  }

  lemma ProcessKeepsShape(st: State, h: nat)
    requires AckInv(st) && st.IsHart(h) && st.harts[h].pc.Processing()
    requires forall t <- st.harts[h].work.Unacked() :: st.IsHart(t)
    ensures Shaped(ProcessStep(st, h))
  {
    var st' := ProcessStep(st, h);
    var hart := st.harts[h];
    assert HartOk(st, h);
    if hart.work.Acking? && hart.work.left != {} {
      AckConserved(st, h, Least(hart.work.left));
    }
    forall q | 0 <= q < |st'.harts|
      ensures HartOk(st', q)
    {
      assert HartOk(st, q);
      if q != h {
        SameHartOk(st, st', q);
      }
    }
  }

  lemma DispatchKeepsShape(st: State, h: nat)
    requires AckInv(st) && st.IsHart(h) && st.harts[h].pc.Dispatch?
    ensures Shaped(DispatchStep(st, h)) && SameTokens(st, DispatchStep(st, h))
  {
    var st' := DispatchStep(st, h);
    var todo := st.harts[h].todo;
    assert HartOk(st, h);
    if todo != [] {
      assert todo[0] in todo;
      assert forall t <- todo[1..] :: t in todo;
    }
    forall q | 0 <= q < |st'.harts|
      ensures HartOk(st', q)
    {
      assert HartOk(st, q);
      if q != h {
        SameHartOk(st, st', q);
      }
    }
  }

  /** Only the queue of r and the pc of h change. */
  lemma MergeKeepsShape(st: State, h: nat, r: nat)
    requires AckInv(st) && st.IsHart(h) && HartOk(st, h) && st.harts[h].pc == Merging(r)
    ensures Shaped(MergeStep(st, h, r))
  {
    var at := MergeEffect(st, h, r);
    forall q | 0 <= q < |st.harts|
      ensures HartOk(MergeStep(st, h, r), q)
    {
      assert HartOk(st, q);
    }
  }

  lemma EnqueueKeepsShape(st: State, h: nat, r: nat)
    requires AckInv(st) && st.IsHart(h) && HartOk(st, h) && st.harts[h].pc == Enqueuing(r)
    ensures Shaped(EnqueueStep(st, h, r))
  {
    forall q | 0 <= q < |st.harts|
      ensures HartOk(EnqueueStep(st, h, r), q)
    {
      assert HartOk(st, q);
    }
  }

  lemma SyncKeepsShape(st: State, h: nat, r: nat)
    requires AckInv(st) && st.IsHart(h) && HartOk(st, h) && st.harts[h].pc == Syncing(r)
    ensures Shaped(SyncStep(st, h, r))
  {
    forall q | 0 <= q < |st.harts|
      ensures HartOk(SyncStep(st, h, r), q)
    {
      assert HartOk(st, q);
    }
  }

  /** The remaining steps neither move tokens nor touch a queue. */
  predicate PlainStep(st: State, h: nat, action: Action)
  {
    && Enabled(st, h, action)
    && (action.Continue? ==>
          var pc := st.harts[h].pc;
          !pc.Processing() && !pc.Dispatch? && !pc.Merging? && !pc.Enqueuing? && !pc.Syncing?)
  }

  /** Queues, taken-off entries, sync words and logs are as before; only hart h moved. */
  ghost predicate Quiet(st: State, st': State, h: nat)
  {
    && |st'.harts| == |st.harts| && st.IsHart(h)
    && st'.limit == st.limit
    && (forall q :: 0 <= q < |st.harts| ==>
          && st'.harts[q].fifo == st.harts[q].fifo && st'.harts[q].work == st.harts[q].work
          && st'.harts[q].sync == st.harts[q].sync && st'.harts[q].log == st.harts[q].log)
    && (forall q :: 0 <= q < |st.harts| && q != h ==>
          && st'.harts[q].pc == st.harts[q].pc && st'.harts[q].todo == st.harts[q].todo &&
             st'.harts[q].req == st.harts[q].req
          && st'.harts[q].orig == st.harts[q].orig && st'.harts[q].targets == st.harts[q].targets
          && st'.harts[q].served == st.harts[q].served && st'.harts[q].issuedAt == st.harts[q].issuedAt)
  }

  lemma PutIsQuiet(st: State, h: nat, hart: Hart)
    requires st.IsHart(h)
    requires hart.fifo == st.harts[h].fifo && hart.work == st.harts[h].work
    requires hart.sync == st.harts[h].sync && hart.log == st.harts[h].log
    ensures Quiet(st, Put(st, h, hart), h)
  {
  }

  lemma SetBitIsQuiet(st: State, h: nat, r: nat, event: nat, then_: Pc)
    requires st.IsHart(h) && st.IsHart(r)
    ensures Quiet(st, SetBitStep(st, h, r, event, then_), h)
  {
  }

  lemma RaiseIsQuiet(st: State, h: nat, r: nat, then_: Pc)
    requires st.IsHart(h) && st.IsHart(r)
    ensures Quiet(st, RaiseStep(st, h, r, then_), h)
  {
  }

  lemma PlainStepIsQuiet(st: State, h: nat, action: Action)
    requires PlainStep(st, h, action)
    ensures Quiet(st, Next(st, h, action), h)
  {
    var pc := st.harts[h].pc;
    if !action.Continue? {
      PutIsQuiet(st, h, Next(st, h, action).harts[h]);
    } else if pc.SettingBit? {
      SetBitIsQuiet(st, h, pc.target, TLB_EVENT, Raising(pc.target));
    } else if pc.EventSettingBit? {
      SetBitIsQuiet(st, h, pc.target, pc.event, EventRaising(pc.target));
    } else if pc.Raising? || pc.EventRaising? {
      RaiseIsQuiet(st, h, pc.target, if pc.Raising? then Syncing(pc.target) else Idle);
    } else {
      PutIsQuiet(st, h, Next(st, h, action).harts[h]);
    }
  }

  lemma PlainStepKeepsAckInv(st: State, h: nat, action: Action)
    requires AckInv(st) && PlainStep(st, h, action)
    ensures AckInv(Next(st, h, action))
  {
    var st' := Next(st, h, action);
    PlainStepIsQuiet(st, h, action);
    PlainStepKeepsOwn(st, h, action);
    assert SameTokens(st, st');
    SameTokensConserved(st, st');
    QuietKeepsShape(st, st', h);
  }

  /** The hart that moves keeps its shape, and waits on the same target if it does. */
  lemma PlainStepKeepsOwn(st: State, h: nat, action: Action)
    requires AckInv(st) && PlainStep(st, h, action)
    ensures var st' := Next(st, h, action);
            && st'.IsHart(h) && HartOk(st', h)
            && st'.harts[h].pc.Waiting() == st.harts[h].pc.Waiting()
            && (st.harts[h].pc.Waiting() ==> st'.harts[h].pc.target == st.harts[h].pc.target)
  {
    PlainStepIsQuiet(st, h, action);
    assert HartOk(st, h);
  }

  lemma QuietKeepsShape(st: State, st': State, h: nat)
    requires Shaped(st) && Quiet(st, st', h) && HartOk(st', h)
    ensures Shaped(st')
  {
    forall q | 0 <= q < |st'.harts|
      ensures HartOk(st', q)
    {
      assert HartOk(st, q);
    }
  }

  lemma NextKeepsAckInv(st: State, h: nat, action: Action)
    requires AckInv(st) && Enabled(st, h, action)
    ensures AckInv(Next(st, h, action))
  {
    var pc := st.harts[h].pc;
    assert HartOk(st, h);
    if PlainStep(st, h, action) {
      PlainStepKeepsAckInv(st, h, action);
    } else if pc.Processing() {
      ProcessConserved(st, h);
      ProcessKeepsShape(st, h);
    } else if pc.Dispatch? {
      DispatchKeepsShape(st, h);
      SameTokensConserved(st, DispatchStep(st, h));
    } else if pc.Merging? {
      MergeConserved(st, h, pc.target);
      MergeKeepsShape(st, h, pc.target);
    } else if pc.Enqueuing? {
      EnqueueConserved(st, h, pc.target);
      EnqueueKeepsShape(st, h, pc.target);
    } else {
      SyncConserved(st, h, pc.target);
      SyncKeepsShape(st, h, pc.target);
    }
  }

  lemma InitAckInv(st: State)
    requires Init(st)
    ensures AckInv(st)
  {
  }

  lemma {:induction false} RunKeepsAckInv(states: seq<State>, schedule: Schedule, i: nat)
    requires IsRun(states, schedule) && i < |states|
    ensures AckInv(states[i])
  {
    if i == 0 {
      InitAckInv(states[0]);
    } else {
      RunKeepsAckInv(states, schedule, i - 1);
      NextKeepsAckInv(states[i - 1], schedule[i - 1].0, schedule[i - 1].1);
    }
  }

  /** The places where the acknowledgement of s by r can be. */
  datatype Place = QueuedAt(i: nat) | TakenOff | InSyncWord

  ghost predicate TokenAt(st: State, r: nat, s: nat, place: Place)
  {
    match place
    case QueuedAt(i) => InFifo(st, r, i, s)
    case TakenOff => Taken(st, r, s)
    case InSyncWord => Synced(st, s)
  }

  /**
    In every state of every run: while s waits on r there is exactly one
    acknowledgement for s at r, and none at any other hart.
   */
  lemma ExactlyOneAck(states: seq<State>, schedule: Schedule, i: nat, s: nat, r: nat)
    requires IsRun(states, schedule) && i < |states| && WaitsOn(states[i], s, r)
    ensures exists place :: TokenAt(states[i], r, s, place)
    ensures forall p1, p2 :: TokenAt(states[i], r, s, p1) && TokenAt(states[i], r, s, p2) ==> p1 == p2
    ensures forall q: nat, place :: TokenAt(states[i], q, s, place) && !place.InSyncWord? ==> q == r
  {
    RunKeepsAckInv(states, schedule, i);
    var st := states[i];
    if Synced(st, s) {
      assert TokenAt(st, r, s, InSyncWord);
    } else if Taken(st, r, s) {
      assert TokenAt(st, r, s, TakenOff);
    } else {
      var k: nat :| InFifo(st, r, k, s);
      assert TokenAt(st, r, s, QueuedAt(k));
    }
  }

  /** In every state of every run a hart that is not waiting has no acknowledgement anywhere. */
  lemma NoStrayAck(states: seq<State>, schedule: Schedule, i: nat, s: nat)
    requires IsRun(states, schedule) && i < |states| && states[i].IsHart(s) && !states[i].harts[s].pc.Waiting()
    ensures forall r: nat, place :: !TokenAt(states[i], r, s, place)
  {
    RunKeepsAckInv(states, schedule, i);
    NoTokenUnlessWaiting(states[i], s);
  }

  /** The exchange that acknowledges a hart never finds the word already set: it never spins. */
  lemma AckNeverSpins(states: seq<State>, schedule: Schedule, i: nat, r: nat, s: nat)
    requires IsRun(states, schedule) && i < |states| && states[i].IsHart(r)
    requires states[i].harts[r].work.Acking? && s in states[i].harts[r].work.left
    ensures states[i].IsHart(s) && !states[i].harts[s].sync
  {
    RunKeepsAckInv(states, schedule, i);
    AckConserved(states[i], r, s);
  }

  /** No step is ever blocked for want of a target: every hart that is not idle can move. */
  lemma BusyHartsCanMove(states: seq<State>, schedule: Schedule, i: nat, h: nat)
    requires IsRun(states, schedule) && i < |states| && states[i].IsHart(h) && !states[i].harts[h].pc.Idle?
    ensures Enabled(states[i], h, Continue)
  {
    RunKeepsAckInv(states, schedule, i);
    var st := states[i];
    assert HartOk(st, h);
    forall t | t in st.harts[h].work.Unacked()
      ensures st.IsHart(t)
    {
      assert Taken(st, h, t);
    }
  }
}
