/**
  What a finished remote fence guarantees: every target hart has run a local
  flush since the request was issued, and that flush invalidates everything the
  request asked for, whatever merges, skips, upgrades and full-FIFO retries
  happened on the way.

  All requests of the run must start on a page boundary; the promise is made to
  the well-formed ones.
 */
module ShootdownCoverage {
  import opened Basics
  import opened Fifo
  import opened Tlb
  import opened Shootdown
  import opened ShootdownAcks

  /** Some flush that hart r ran at or after log position `from` contains the asked range. */
  ghost predicate LogHas(st: State, r: nat, from: nat, asked: Info)
  {
    st.IsHart(r) && exists k :: from <= k < |st.harts[r].log| && Contains(st.harts[r].log[k], asked)
  }

  ghost predicate LogsGrow(st: State, st': State)
  {
    && |st'.harts| == |st.harts|
    && forall r :: 0 <= r < |st.harts| ==> st.harts[r].log <= st'.harts[r].log
  }

  lemma LogHasGrows(st: State, st': State, r: nat, from: nat, asked: Info)
    requires LogsGrow(st, st') && LogHas(st, r, from, asked)
    ensures LogHas(st', r, from, asked)
  {
    var k :| from <= k < |st.harts[r].log| && Contains(st.harts[r].log[k], asked);
    assert st'.harts[r].log[k] == st.harts[r].log[k];
  }

  /** Hart s has been promised coverage by hart r: its flush log already shows it. */
  ghost predicate Delivered(st: State, s: nat, r: nat)
    requires st.IsHart(s)
  {
    var hart := st.harts[s];
    st.IsHart(r) && r < |hart.issuedAt| && LogHas(st, r, hart.issuedAt[r], Upgraded(hart.orig, st.limit))
  }

  ghost predicate Promised(st: State, s: nat)
  {
    st.IsHart(s) && WellFormed(st.harts[s].orig, st.limit)
  }

  /** Bookkeeping of a hart inside a request. */
  ghost predicate RequestOk(st: State, h: nat)
    requires st.IsHart(h)
  {
    var hart := st.harts[h];
    hart.pc.Requesting() ==>
      && |hart.issuedAt| == |st.harts|
      && (forall r :: 0 <= r < |st.harts| ==> hart.issuedAt[r] <= |st.harts[r].log|)
      && hart.orig.PageAligned()
      && (hart.req == hart.orig || hart.req == Upgraded(hart.orig, st.limit))
      && (hart.pc.HasTarget() ==> hart.req == Upgraded(hart.orig, st.limit))
      && (forall t <- hart.targets ::
            t in hart.served || t in hart.todo || (hart.pc.HasTarget() && t == hart.pc.target))
      && (WellFormed(hart.orig, st.limit) ==> forall t <- hart.served :: Delivered(st, h, t))
  }

  /** Every queued entry contains what its waiting harts asked for. */
  ghost predicate QueueOk(st: State, r: nat)
    requires st.IsHart(r)
  {
    && (forall i :: 0 <= i < |st.harts[r].fifo| ==> st.harts[r].fifo[i].PageAligned())
    && (forall i: nat, s: nat :: InFifo(st, r, i, s) && Promised(st, s) ==>
       Contains(st.harts[r].fifo[i], st.harts[s].req))
  }

  /** So does the entry a hart has taken off; once it is flushed, the log shows it. */
  ghost predicate WorkOk(st: State, r: nat)
    requires st.IsHart(r)
  {
    match st.harts[r].work
    case NoWork => true
    case Flushing(entry) =>
      entry.PageAligned() && forall s: nat :: Taken(st, r, s) && Promised(st, s) ==> Contains(entry, st.harts[s].req)
    case Acking(entry, left) =>
      forall s: nat :: Taken(st, r, s) && Promised(st, s) ==> Delivered(st, s, r)
  }

  ghost predicate SyncOk(st: State, s: nat)
    requires st.IsHart(s)
  {
    st.harts[s].sync && st.harts[s].pc.Waiting() && Promised(st, s) ==> Delivered(st, s, st.harts[s].pc.target)
  }

  ghost predicate CoverInv(st: State)
  {
    && st.limit <= WORDS - PAGE_SIZE
    && forall h :: 0 <= h < |st.harts| ==> RequestOk(st, h) && QueueOk(st, h) && WorkOk(st, h) && SyncOk(st, h)
  }

  // ---------------------------------------------------------------------
  // Frames
  // ---------------------------------------------------------------------

  /** A hart whose request record, and hence promise, is as it was. */
  ghost predicate SameRequest(a: Hart, b: Hart)
  {
    a.req == b.req && a.orig == b.orig && a.issuedAt == b.issuedAt
  }

  predicate SameTarget(a: Pc, b: Pc)
  {
    a.HasTarget() == b.HasTarget() && (a.HasTarget() ==> a.target == b.target)
  }

  lemma DeliveredGrows(st: State, st': State, s: nat, r: nat)
    requires LogsGrow(st, st') && st'.limit == st.limit && st.IsHart(s)
    requires SameRequest(st.harts[s], st'.harts[s])
    requires Delivered(st, s, r)
    ensures Delivered(st', s, r)
  {
    LogHasGrows(st, st', r, st.harts[s].issuedAt[r], Upgraded(st.harts[s].orig, st.limit));
  }

  /** The record of a request survives while only logs grow. */
  lemma RequestGrows(st: State, st': State, h: nat)
    requires LogsGrow(st, st') && st'.limit == st.limit && st.IsHart(h) && RequestOk(st, h)
    requires st'.harts[h].pc.Requesting() ==> st.harts[h].pc.Requesting() && SameTarget(st.harts[h].pc, st'.harts[h].pc)
    requires st'.harts[h].todo == st.harts[h].todo
    requires SameRequest(st.harts[h], st'.harts[h])
    requires st'.harts[h].targets == st.harts[h].targets && st'.harts[h].served == st.harts[h].served
    ensures RequestOk(st', h)
  {
    if st.harts[h].pc.Requesting() && WellFormed(st.harts[h].orig, st.limit) {
      forall t | t in st.harts[h].served
        ensures Delivered(st', h, t)
      {
        DeliveredGrows(st, st', h, t);
      }
    }
  }

  /**
    Logs only grow, and harts that wait keep waiting on the same target with the
    same request, unless they consumed their acknowledgement.
   */
  ghost predicate WaitersKept(st: State, st': State)
  {
    && LogsGrow(st, st') && st'.limit == st.limit
    && forall q :: 0 <= q < |st.harts| && st.harts[q].pc.Waiting() && (st.harts[q].sync ==> st'.harts[q].sync) ==>
         && SameRequest(st.harts[q], st'.harts[q])
         && st'.harts[q].pc.Waiting() && st'.harts[q].pc.target == st.harts[q].pc.target
  }

  lemma QueueKept(st: State, st': State, r: nat)
    requires AckInv(st) && WaitersKept(st, st') && st.IsHart(r) && QueueOk(st, r)
    requires st'.harts[r].fifo == st.harts[r].fifo
    ensures QueueOk(st', r)
  {
    assert forall i: nat, s: nat :: InFifo(st', r, i, s) ==> InFifo(st, r, i, s);
  }

  lemma WorkKept(st: State, st': State, r: nat)
    requires AckInv(st) && WaitersKept(st, st') && st.IsHart(r) && WorkOk(st, r)
    requires st'.harts[r].work == st.harts[r].work
    ensures WorkOk(st', r)
  {
    forall s: nat | Taken(st', r, s) && Promised(st', s)
      ensures st.harts[r].work.Flushing? ==> Contains(st.harts[r].work.entry, st'.harts[s].req)
      ensures st.harts[r].work.Acking? ==> Delivered(st', s, r)
    {
      assert Taken(st, r, s);
      if st.harts[r].work.Acking? {
        DeliveredGrows(st, st', s, r);
      }
    }
  }

  lemma SyncKept(st: State, st': State, s: nat)
    requires AckInv(st) && WaitersKept(st, st') && st.IsHart(s) && SyncOk(st, s)
    requires st'.harts[s].sync ==> st.harts[s].sync
    ensures SyncOk(st', s)
  {
    if st'.harts[s].sync && Promised(st', s) {
      assert Synced(st, s);
      DeliveredGrows(st, st', s, st.harts[s].pc.target);
    }
  }

  lemma TokensKept(st: State, st': State, r: nat)
    requires AckInv(st) && CoverInv(st) && WaitersKept(st, st') && st.IsHart(r)
    requires st'.harts[r].fifo == st.harts[r].fifo && st'.harts[r].work == st.harts[r].work &&
             st'.harts[r].sync == st.harts[r].sync
    ensures QueueOk(st', r) && WorkOk(st', r) && SyncOk(st', r)
  {
    QueueKept(st, st', r);
    WorkKept(st, st', r);
    SyncKept(st, st', r);
  }

  // ---------------------------------------------------------------------
  // Steps
  // ---------------------------------------------------------------------

  /** Notifying a target keeps the request and its target. */
  lemma WaitingStepKeeps(st: State, h: nat)
    requires PlainStep(st, h, Continue) && st.harts[h].pc.Waiting()
    ensures var hart, hart' := st.harts[h], Next(st, h, Continue).harts[h];
            && SameRequest(hart, hart') && hart'.served == hart.served && hart'.targets == hart.targets &&
               hart'.todo == hart.todo
            && hart'.pc.Waiting() && hart'.pc.target == hart.pc.target
  {
  }

  lemma PlainStepKeepsRequest(st: State, h: nat, action: Action)
    requires AckInv(st) && CoverInv(st) && PlainStep(st, h, action)
    requires action.Issue? ==> action.info.PageAligned()
    ensures RequestOk(Next(st, h, action), h)
    ensures st.harts[h].pc.Waiting() ==>
              && SameRequest(st.harts[h], Next(st, h, action).harts[h])
              && Next(st, h, action).harts[h].pc.Waiting() &&
                 Next(st, h, action).harts[h].pc.target == st.harts[h].pc.target
  {
    var st' := Next(st, h, action);
    PlainStepIsQuiet(st, h, action);
    assert RequestOk(st, h);
    if st.harts[h].pc.Waiting() {
      WaitingStepKeeps(st, h);
      RequestGrows(st, st', h);
    }
  }

  lemma PlainStepKeepsCoverInv(st: State, h: nat, action: Action)
    requires AckInv(st) && CoverInv(st) && PlainStep(st, h, action)
    requires action.Issue? ==> action.info.PageAligned()
    ensures CoverInv(Next(st, h, action))
  {
    var st' := Next(st, h, action);
    PlainStepIsQuiet(st, h, action);
    PlainStepKeepsRequest(st, h, action);
    assert WaitersKept(st, st');
    forall q | 0 <= q < |st'.harts|
      ensures RequestOk(st', q) && QueueOk(st', q) && WorkOk(st', q) && SyncOk(st', q)
    {
      TokensKept(st, st', q);
      if q != h {
        RequestGrows(st, st', q);
      }
    }
  }

  lemma DispatchKeepsCoverInv(st: State, h: nat)
    requires AckInv(st) && CoverInv(st) && st.IsHart(h) && st.harts[h].pc.Dispatch?
    ensures CoverInv(DispatchStep(st, h))
  {
    var st' := DispatchStep(st, h);
    assert WaitersKept(st, st');
    forall q | 0 <= q < |st'.harts|
      ensures RequestOk(st', q) && QueueOk(st', q) && WorkOk(st', q) && SyncOk(st', q)
    {
      TokensKept(st, st', q);
      if q != h {
        RequestGrows(st, st', q);
      } else {
        DispatchKeepsRequest(st, h);
      }
    }
  }

  lemma DispatchKeepsRequest(st: State, h: nat)
    requires AckInv(st) && CoverInv(st) && st.IsHart(h) && st.harts[h].pc.Dispatch?
    ensures RequestOk(DispatchStep(st, h), h)
  {
    var st' := DispatchStep(st, h);
    var hart, hart' := st.harts[h], st'.harts[h];
    assert RequestOk(st, h);
    if hart.todo != [] {
      assert hart.todo == [hart.todo[0]] + hart.todo[1..];
      assert LogsGrow(st, st');
      if WellFormed(hart.orig, st.limit) {
        forall t | t in hart'.served
          ensures Delivered(st', h, t)
        {
          if t in hart.served {
            LogHasGrows(st, st', t, hart.issuedAt[t], Upgraded(hart.orig, st.limit));
          } else {
            UpgradedContainsItself(hart.orig, st.limit);
            assert hart'.log[|hart.log|] == Upgraded(hart.orig, st.limit);
          }
        }
      }
    }
  }

  /** A step that only puts h's request into entry `at` of r's queue keeps every promise. */
  lemma QueuedKeepsCoverInv(st: State, st': State, h: nat, r: nat, at: nat)
    requires AckInv(st) && CoverInv(st) && st.IsHart(h) && st.IsHart(r) && h != r
    requires (st.harts[h].pc.Merging? || st.harts[h].pc.Enqueuing?) && st.harts[h].pc.target == r
    requires |st'.harts| == |st.harts|
    requires st' == PutPc(Put(st, r, st.harts[r].(fifo := st'.harts[r].fifo)), h, SettingBit(r))
    requires at < |st'.harts[r].fifo|
    requires forall i :: 0 <= i < |st'.harts[r].fifo| && i != at ==>
             i < |st.harts[r].fifo| && st'.harts[r].fifo[i] == st.harts[r].fifo[i]
    requires st'.harts[r].fifo[at].PageAligned()
    requires Promised(st, h) ==> Contains(st'.harts[r].fifo[at], st.harts[h].req)
    requires forall s: nat :: InFifo(st', r, at, s) && s != h ==>
               InFifo(st, r, at, s) && (Promised(st, s) ==> Contains(st'.harts[r].fifo[at], st.harts[s].req))
    ensures CoverInv(st')
  {
    NoTokenUnlessWaiting(st, h);
    assert WaitersKept(st, st');
    forall i: nat, s: nat | InFifo(st', r, i, s) && Promised(st', s)
      ensures Contains(st'.harts[r].fifo[i], st'.harts[s].req)
    {
      assert QueueOk(st, r);
      assert i != at ==> InFifo(st, r, i, s);
    }
    forall q | 0 <= q < |st'.harts|
      ensures RequestOk(st', q) && QueueOk(st', q) && WorkOk(st', q) && SyncOk(st', q)
    {
      assert RequestOk(st, q) && QueueOk(st, q) && WorkOk(st, q) && SyncOk(st, q);
      RequestGrows(st, st', q);
      if q != r {
        QueueKept(st, st', q);
      }
      WorkKept(st, st', q);
      SyncKept(st, st', q);
    }
  }

  lemma MergeKeepsCoverInv(st: State, h: nat, r: nat)
    requires AckInv(st) && CoverInv(st) && st.IsHart(h) && st.harts[h].pc == Merging(r) && HartOk(st, h)
    ensures CoverInv(MergeStep(st, h, r))
  {
    var st' := MergeStep(st, h, r);
    var at := MergeEffect(st, h, r);
    var fifo, req := st.harts[r].fifo, st.harts[h].req;
    assert RequestOk(st, h) && QueueOk(st, r);
    if at == |fifo| {
      PcMoveKeepsCoverInv(st, st', h);
    } else {
      assert fifo[at].PageAligned();
      if Promised(st, h) {
        UpgradedContainsItself(st.harts[h].orig, st.limit);
        MergeKeepsBoth(fifo[at], req, req);
      }
      MergeKeepsBoth(fifo[at], req, req);
      forall s: nat | InFifo(st', r, at, s) && s != h
        ensures InFifo(st, r, at, s)
        ensures Promised(st, s) ==> Contains(st'.harts[r].fifo[at], st.harts[s].req)
      {
        assert InFifo(st, r, at, s);
        MergeKeepsBoth(fifo[at], req, st.harts[s].req);
      }
      QueuedKeepsCoverInv(st, st', h, r, at);
    }
  }

  lemma EnqueueKeepsCoverInv(st: State, h: nat, r: nat)
    requires AckInv(st) && CoverInv(st) && st.IsHart(h) && st.harts[h].pc == Enqueuing(r) && HartOk(st, h)
    ensures CoverInv(EnqueueStep(st, h, r))
  {
    var st' := EnqueueStep(st, h, r);
    assert RequestOk(st, h);
    if |st.harts[r].fifo| < FIFO_ENTRIES {
      if Promised(st, h) {
        UpgradedContainsItself(st.harts[h].orig, st.limit);
      }
      QueuedKeepsCoverInv(st, st', h, r, |st.harts[r].fifo|);
    } else {
      PcMoveKeepsCoverInv(st, st', h);
    }
  }

  /** A step that moves the pc of h, keeping its target, and may drop a fully acknowledged entry. */
  lemma PcMoveKeepsCoverInv(st: State, st': State, h: nat)
    requires AckInv(st) && CoverInv(st) && st.IsHart(h) && |st'.harts| == |st.harts|
    requires st' == Put(st, h, st.harts[h].(pc := st'.harts[h].pc, work := st'.harts[h].work))
    requires st'.harts[h].work == st.harts[h].work || st'.harts[h].work == NoWork
    requires st.harts[h].pc.Waiting() == st'.harts[h].pc.Waiting()
    requires st'.harts[h].pc.Requesting() == st.harts[h].pc.Requesting()
    requires SameTarget(st.harts[h].pc, st'.harts[h].pc)
    ensures CoverInv(st')
  {
    assert WaitersKept(st, st');
    forall q | 0 <= q < |st'.harts|
      ensures RequestOk(st', q) && QueueOk(st', q) && WorkOk(st', q) && SyncOk(st', q)
    {
      RequestGrows(st, st', q);
      QueueKept(st, st', q);
      if st'.harts[q].work == st.harts[q].work {
        WorkKept(st, st', q);
      }
      SyncKept(st, st', q);
    }
  }

  lemma SyncKeepsCoverInv(st: State, h: nat, r: nat)
    requires AckInv(st) && CoverInv(st) && st.IsHart(h) && st.harts[h].pc == Syncing(r)
    ensures st.harts[h].sync && WellFormed(st.harts[h].orig, st.limit) ==> Delivered(st, h, r)
    ensures CoverInv(SyncStep(st, h, r))
  {
    var st' := SyncStep(st, h, r);
    assert SyncOk(st, h);
    if !st.harts[h].sync {
      PcMoveKeepsCoverInv(st, st', h);
    } else {
      assert Synced(st, h);
      assert WaitersKept(st, st');
      forall q | 0 <= q < |st'.harts|
        ensures RequestOk(st', q) && QueueOk(st', q) && WorkOk(st', q) && SyncOk(st', q)
      {
        QueueKept(st, st', q);
        WorkKept(st, st', q);
        SyncKept(st, st', q);
        if q != h {
          RequestGrows(st, st', q);
        } else {
          ReturnKeepsRequest(st, h, r);
        }
      }
    }
  }

  lemma ReturnKeepsRequest(st: State, h: nat, r: nat)
    requires AckInv(st) && CoverInv(st) && st.IsHart(h) && st.harts[h].pc == Syncing(r) && st.harts[h].sync
    ensures RequestOk(SyncStep(st, h, r), h)
  {
    var st' := SyncStep(st, h, r);
    assert RequestOk(st, h) && SyncOk(st, h);
    if WellFormed(st.harts[h].orig, st.limit) {
      forall t | t in st'.harts[h].served
        ensures Delivered(st', h, t)
      {
        DeliveredGrows(st, st', h, t);
      }
    }
  }

  /** What the hart takes off contains what it contained in the queue, and so does what is left there. */
  lemma TakeOffKeepsOwn(st: State, h: nat)
    requires AckInv(st) && CoverInv(st) && st.IsHart(h) && st.harts[h].pc.Processing()
    requires st.harts[h].work == NoWork && st.harts[h].fifo != []
    ensures var st' := ProcessStep(st, h); st'.IsHart(h) && QueueOk(st', h) && WorkOk(st', h)
  {
    var st' := ProcessStep(st, h);
    assert QueueOk(st, h);
    assert forall i: nat, s: nat :: InFifo(st', h, i, s) ==> InFifo(st, h, i + 1, s);
    assert forall s: nat :: Taken(st', h, s) ==> InFifo(st, h, 0, s);
  }

  lemma TakeOffKeepsCoverInv(st: State, h: nat)
    requires AckInv(st) && CoverInv(st) && st.IsHart(h) && st.harts[h].pc.Processing()
    requires st.harts[h].work == NoWork && st.harts[h].fifo != []
    ensures CoverInv(ProcessStep(st, h))
  {
    var st' := ProcessStep(st, h);
    assert WaitersKept(st, st');
    TakeOffKeepsOwn(st, h);
    forall q | 0 <= q < |st'.harts|
      ensures RequestOk(st', q) && QueueOk(st', q) && WorkOk(st', q) && SyncOk(st', q)
    {
      RequestGrows(st, st', q);
      if q != h {
        QueueKept(st, st', q);
        WorkKept(st, st', q);
      }
      SyncKept(st, st', q);
    }
  }

  lemma FlushKeepsCoverInv(st: State, h: nat)
    requires AckInv(st) && CoverInv(st) && st.IsHart(h) && st.harts[h].pc.Processing() && st.harts[h].work.Flushing?
    requires forall t <- st.harts[h].work.Unacked() :: st.IsHart(t)
    ensures CoverInv(ProcessStep(st, h))
  {
    var st' := ProcessStep(st, h);
    var entry := st.harts[h].work.entry;
    assert WaitersKept(st, st');
    forall s: nat | Taken(st', h, s) && Promised(st', s)
      ensures Delivered(st', s, h)
    {
      assert Taken(st, h, s) && WorkOk(st, h) && RequestOk(st, s);
      assert st'.harts[h].log[|st.harts[h].log|] == entry;
    }
    forall q | 0 <= q < |st'.harts|
      ensures RequestOk(st', q) && QueueOk(st', q) && WorkOk(st', q) && SyncOk(st', q)
    {
      RequestGrows(st, st', q);
      QueueKept(st, st', q);
      if q != h {
        WorkKept(st, st', q);
      }
      SyncKept(st, st', q);
    }
  }

  lemma AckKeepsCoverInv(st: State, h: nat, s: nat)
    requires AckInv(st) && CoverInv(st) && st.IsHart(h) && st.harts[h].work.Acking?
    requires s in st.harts[h].work.left && st.IsHart(s)
    ensures CoverInv(AckStep(st, h, st.harts[h].work.entry, st.harts[h].work.left, s))
  {
    AckConserved(st, h, s);
    var st' := AckStep(st, h, st.harts[h].work.entry, st.harts[h].work.left, s);
    assert Taken(st, h, s) && WorkOk(st, h);
    assert WaitersKept(st, st');
    forall t: nat | (Taken(st', h, t) || t == s) && Promised(st', t)
      ensures Delivered(st', t, h)
    {
      assert Taken(st, h, t);
      DeliveredGrows(st, st', t, h);
    }
    forall q | 0 <= q < |st'.harts|
      ensures RequestOk(st', q) && QueueOk(st', q) && WorkOk(st', q) && SyncOk(st', q)
    {
      RequestGrows(st, st', q);
      QueueKept(st, st', q);
      if q != h {
        WorkKept(st, st', q);
      }
      if q != s {
        SyncKept(st, st', q);
      }
    }
  }

  lemma ProcessKeepsCoverInv(st: State, h: nat)
    requires AckInv(st) && CoverInv(st) && st.IsHart(h) && st.harts[h].pc.Processing()
    requires forall t <- st.harts[h].work.Unacked() :: st.IsHart(t)
    ensures CoverInv(ProcessStep(st, h))
  {
    var hart := st.harts[h];
    if hart.work == NoWork && hart.fifo != [] {
      TakeOffKeepsCoverInv(st, h);
    } else if hart.work.Flushing? {
      FlushKeepsCoverInv(st, h);
    } else if hart.work.Acking? && hart.work.left != {} {
      var s := Least(hart.work.left);
      AckConserved(st, h, s);
      AckKeepsCoverInv(st, h, s);
    } else {
      PcMoveKeepsCoverInv(st, ProcessStep(st, h), h);
    }
  }

  lemma NextKeepsCoverInv(st: State, h: nat, action: Action)
    requires AckInv(st) && CoverInv(st) && Enabled(st, h, action)
    requires action.Issue? ==> action.info.PageAligned()
    ensures CoverInv(Next(st, h, action))
  {
    var pc := st.harts[h].pc;
    assert HartOk(st, h);
    if PlainStep(st, h, action) {
      PlainStepKeepsCoverInv(st, h, action);
    } else if pc.Processing() {
      ProcessKeepsCoverInv(st, h);
    } else if pc.Dispatch? {
      DispatchKeepsCoverInv(st, h);
    } else if pc.Merging? {
      MergeKeepsCoverInv(st, h, pc.target);
    } else if pc.Enqueuing? {
      EnqueueKeepsCoverInv(st, h, pc.target);
    } else {
      SyncKeepsCoverInv(st, h, pc.target);
    }
  }

  lemma {:induction false} RunKeepsCoverInv(states: seq<State>, schedule: Schedule, i: nat)
    requires IsRun(states, schedule) && AlignedRequests(schedule) && i < |states|
    ensures AckInv(states[i]) && CoverInv(states[i])
  {
    RunKeepsAckInv(states, schedule, i);
    if i == 0 {
      assert forall h :: 0 <= h < |states[0].harts| ==> states[0].harts[h].pc == Idle;
    } else {
      RunKeepsCoverInv(states, schedule, i - 1);
      NextKeepsCoverInv(states[i - 1], schedule[i - 1].0, schedule[i - 1].1);
    }
  }

  // ---------------------------------------------------------------------
  // The guarantee
  // ---------------------------------------------------------------------

  /** Since log position `from`, hart r has run a local flush that does all that `asked` asks for. */
  ghost predicate HasFlushed(st: State, r: nat, from: nat, asked: Info)
  {
    st.IsHart(r) && exists k :: from <= k < |st.harts[r].log| && Satisfies(st.harts[r].log[k], asked)
  }

  lemma DeliveredHasFlushed(st: State, s: nat, r: nat)
    requires st.IsHart(s) && Delivered(st, s, r) && WellFormed(st.harts[s].orig, st.limit) &&
             st.limit <= WORDS - PAGE_SIZE
    ensures HasFlushed(st, r, st.harts[s].issuedAt[r], st.harts[s].orig)
  {
    var orig := st.harts[s].orig;
    var asked := Upgraded(orig, st.limit);
    var k :| st.harts[s].issuedAt[r] <= k < |st.harts[r].log| && Contains(st.harts[r].log[k], asked);
    var flush := st.harts[r].log[k];
    ContainsSatisfies(flush, asked);
    forall asid: Word, vmid: Word, page: nat | Asks(orig, asid, vmid, page)
      ensures Flushes(flush, asid, vmid, page)
    {
      UpgradedAsksMore(orig, st.limit, asid, vmid, page);
    }
    assert Satisfies(flush, orig);
  }

  /**
    When tlb_sync returns for target r, hart r has run a flush of the same kind
    since the request was issued, covering everything that was asked.
   */
  lemma SyncedTargetHasFlushed(states: seq<State>, schedule: Schedule, i: nat, h: nat, r: nat)
    requires IsRun(states, schedule) && AlignedRequests(schedule) && i < |schedule|
    requires schedule[i] == (h, Continue) && states[i].harts[h].pc == Syncing(r) && states[i].harts[h].sync
    requires WellFormed(states[i].harts[h].orig, states[i].limit)
    ensures r < |states[i].harts[h].issuedAt|
    ensures HasFlushed(states[i], r, states[i].harts[h].issuedAt[r], states[i].harts[h].orig)
  {
    RunKeepsCoverInv(states, schedule, i);
    SyncKeepsCoverInv(states[i], h, r);
    DeliveredHasFlushed(states[i], h, r);
  }

  // ---------------------------------------------------------------------
  // From the request to the return
  // ---------------------------------------------------------------------

  /** The request that a hart works on is the one given. */
  ghost predicate WorksOn(st: State, h: nat, info: Info, to: seq<nat>, issuedAt: seq<nat>)
  {
    && st.IsHart(h) && st.harts[h].pc.Requesting()
    && st.harts[h].orig == info && st.harts[h].targets == to && st.harts[h].issuedAt == issuedAt
  }

  /** The request records are as they were, only hart h has moved, and no other hart has lost an event. */
  ghost predicate RecordsKept(st: State, st': State, h: nat)
  {
    && |st'.harts| == |st.harts| && st'.limit == st.limit
    && forall q :: 0 <= q < |st.harts| ==>
         && st'.harts[q].orig == st.harts[q].orig && st'.harts[q].targets == st.harts[q].targets
         && st'.harts[q].issuedAt == st.harts[q].issuedAt
         && (q != h ==> st'.harts[q].pc == st.harts[q].pc && st.harts[q].ipiType <= st'.harts[q].ipiType)
  }

  lemma PutKeepsRecords(st: State, mid: State, h: nat, q: nat, hart: Hart)
    requires RecordsKept(st, mid, h) && st.IsHart(q) && (q != h ==> hart.pc == mid.harts[q].pc)
    requires mid.harts[q].ipiType <= hart.ipiType || q == h
    requires hart.orig == mid.harts[q].orig && hart.targets == mid.harts[q].targets
    requires hart.issuedAt == mid.harts[q].issuedAt
    ensures RecordsKept(st, Put(mid, q, hart), h)
  {
  }

  lemma ProcessKeepsRecords(st: State, h: nat)
    requires st.IsHart(h) && st.harts[h].pc.Processing() && forall t <- st.harts[h].work.Unacked() :: st.IsHart(t)
    ensures var st' := ProcessStep(st, h);
            RecordsKept(st, st', h) && st'.harts[h].pc.Requesting() == st.harts[h].pc.Requesting()
  {
    var hart := st.harts[h];
    if hart.work.Acking? && hart.work.left != {} {
      var s := Least(hart.work.left);
      assert s in hart.work.Unacked();
      if !st.harts[s].sync {
        AckKeepsRecords(st, h, hart.work.entry, hart.work.left, s);
      }
    } else {
      PutKeepsRecords(st, st, h, h, ProcessStep(st, h).harts[h]);
    }
  }

  lemma AckKeepsRecords(st: State, h: nat, entry: Info, left: set<nat>, s: nat)
    requires st.IsHart(h) && st.IsHart(s)
    ensures var st' := AckStep(st, h, entry, left, s);
            RecordsKept(st, st', h) && st'.harts[h].pc == st.harts[h].pc
  {
    var acked := Put(st, s, st.harts[s].(sync := true));
    PutKeepsRecords(st, st, h, s, st.harts[s].(sync := true));
    PutKeepsRecords(st, acked, h, h, acked.harts[h].(work := Acking(entry, left - {s})));
  }

  /** A step that changes hart r, and then the place of h. */
  lemma MoveKeepsRecords(st: State, r: nat, other: Hart, h: nat, pc: Pc)
    requires st.IsHart(h) && st.IsHart(r) && other.pc == st.harts[r].pc && other.orig == st.harts[r].orig
    requires other.targets == st.harts[r].targets && other.issuedAt == st.harts[r].issuedAt
    requires st.harts[r].ipiType <= other.ipiType
    ensures RecordsKept(st, PutPc(Put(st, r, other), h, pc), h)
  {
    var mid := Put(st, r, other);
    PutKeepsRecords(st, st, h, r, other);
    PutKeepsRecords(st, mid, h, h, mid.harts[h].(pc := pc));
  }

  lemma MergeKeepsRecords(st: State, h: nat, r: nat)
    requires st.IsHart(h) && st.IsHart(r)
    ensures var st' := MergeStep(st, h, r); RecordsKept(st, st', h) && st'.harts[h].pc.Requesting()
  {
    var (queue, verdict) := InplaceUpdated(st.harts[r].fifo, st.harts[h].req, UpdateCallback);
    MoveKeepsRecords(st, r, st.harts[r].(fifo := queue), h,
        if verdict != Unchanged then SettingBit(r) else Enqueuing(r));
  }

  lemma EnqueueKeepsRecords(st: State, h: nat, r: nat)
    requires st.IsHart(h) && st.IsHart(r)
    ensures var st' := EnqueueStep(st, h, r); RecordsKept(st, st', h) && st'.harts[h].pc.Requesting()
  {
    if |st.harts[r].fifo| < FIFO_ENTRIES {
      MoveKeepsRecords(st, r, st.harts[r].(fifo := st.harts[r].fifo + [st.harts[h].req]), h, SettingBit(r));
    }
  }

  lemma SetBitKeepsRecords(st: State, h: nat, r: nat, event: nat, then_: Pc)
    requires st.IsHart(h) && st.IsHart(r)
    ensures RecordsKept(st, SetBitStep(st, h, r, event, then_), h)
  {
    MoveKeepsRecords(st, r, st.harts[r].(ipiType := st.harts[r].ipiType + {event}), h, then_);
  }

  lemma RaiseKeepsRecords(st: State, h: nat, r: nat, then_: Pc)
    requires st.IsHart(h) && st.IsHart(r)
    ensures RecordsKept(st, RaiseStep(st, h, r, then_), h)
  {
    MoveKeepsRecords(st, r, st.harts[r].(msip := true), h, then_);
  }

  /** A step leaves the request records alone, unless its hart is given a new one. */
  lemma NextKeepsRecords(st: State, h: nat, action: Action)
    requires Enabled(st, h, action) && !action.Issue?
    ensures RecordsKept(st, Next(st, h, action), h)
  {
    var st' := Next(st, h, action);
    if !action.Continue? {
      return;
    }
    var pc := st.harts[h].pc;
    if pc.Processing() {
      ProcessKeepsRecords(st, h);
      return;
    }
    match pc
    case Merging(r) => MergeKeepsRecords(st, h, r);
    case Enqueuing(r) => EnqueueKeepsRecords(st, h, r);
    case SettingBit(r) => SetBitKeepsRecords(st, h, r, TLB_EVENT, Raising(r));
    case Raising(r) => RaiseKeepsRecords(st, h, r, Syncing(r));
    case EventSettingBit(r, event) => SetBitKeepsRecords(st, h, r, event, EventRaising(r));
    case EventRaising(r) => RaiseKeepsRecords(st, h, r, Idle);
    case Dispatch => PutKeepsRecords(st, st, h, h, st'.harts[h]);
    case Syncing(_) => PutKeepsRecords(st, st, h, h, st'.harts[h]);
    case Exchanging => PutKeepsRecords(st, st, h, h, st'.harts[h]);
    case Handling(_) => PutKeepsRecords(st, st, h, h, st'.harts[h]);
    case _ =>
  }

  /** A hart that works on a request goes on with it until it has no target left. */
  lemma RequestGoesOn(st: State, h: nat)
    requires Enabled(st, h, Continue) && st.harts[h].pc.Requesting()
    requires !(st.harts[h].pc == Dispatch && st.harts[h].todo == [])
    ensures var st' := Next(st, h, Continue); st'.IsHart(h) && st'.harts[h].pc.Requesting()
  {
    match st.harts[h].pc
    case Merging(r) => MergeKeepsRecords(st, h, r);
    case Enqueuing(r) => EnqueueKeepsRecords(st, h, r);
    case HelpingEnqueue(_, _) => ProcessKeepsRecords(st, h);
    case HelpingSync(_, _) => ProcessKeepsRecords(st, h);
    case _ =>
  }

  lemma {:induction false} StillWorksOn(states: seq<State>, schedule: Schedule, from: nat, i: nat, h: nat,
                                        info: Info, to: seq<nat>)
    requires IsRun(states, schedule) && from < i < |states| && schedule[from] == (h, Issue(info, to))
    requires forall j :: from < j <= i ==> states[j].IsHart(h) && states[j].harts[h].pc != Idle
    ensures |states[i].harts| == |states[from].harts| && states[i].limit == states[from].limit
    ensures WorksOn(states[i], h, info, to, LogLengths(states[from]))
  {
    if from + 1 == i {
      assert states[i] == Next(states[from], h, Issue(info, to));
    } else {
      StillWorksOn(states, schedule, from, i - 1, h, info, to);
      var st, q, action := states[i - 1], schedule[i - 1].0, schedule[i - 1].1;
      OtherStepWorksOn(st, q, action, h, info, to, LogLengths(states[from]));
    }
  }

  lemma OtherStepWorksOn(st: State, q: nat, action: Action, h: nat, info: Info, to: seq<nat>, issuedAt: seq<nat>)
    requires Enabled(st, q, action) && WorksOn(st, h, info, to, issuedAt)
    ensures var st' := Next(st, q, action);
            && |st'.harts| == |st.harts| && st'.limit == st.limit
            && (WorksOn(st', h, info, to, issuedAt) || st'.harts[h].pc == Idle)
  {
    if q == h && !(st.harts[h].pc == Dispatch && st.harts[h].todo == []) {
      RequestGoesOn(st, h);
    }
    if !action.Issue? {
      NextKeepsRecords(st, q, action);
    }
  }

  /** A hart that works on a request returns only when no target is left. */
  lemma OnlyDoneReturns(st: State, q: nat, action: Action, h: nat)
    requires Enabled(st, q, action) && st.IsHart(h) && st.harts[h].pc.Requesting()
    requires h < |Next(st, q, action).harts| && Next(st, q, action).harts[h].pc == Idle
    ensures q == h && st.harts[h].pc == Dispatch && st.harts[h].todo == []
  {
    if q != h && !action.Issue? {
      NextKeepsRecords(st, q, action);
    }
    if q == h && !(st.harts[h].pc == Dispatch && st.harts[h].todo == []) {
      RequestGoesOn(st, h);
    }
  }

  /** How many flushes each hart has run. */
  ghost function LogLengths(st: State): (n: seq<nat>)
    ensures |n| == |st.harts| && forall r :: 0 <= r < |n| ==> n[r] == |st.harts[r].log|
  {
    seq(|st.harts|, r requires 0 <= r < |st.harts| => |st.harts[r].log|)
  }

  /**
    When a remote fence that was requested at `from` returns to its caller, every
    hart it was sent to, the caller included, has since run a local flush that does
    all that was asked.
   */
  lemma RemoteFenceCompletes(states: seq<State>, schedule: Schedule, from: nat, i: nat, h: nat,
                             info: Info, to: seq<nat>, t: nat)
    requires IsRun(states, schedule) && AlignedRequests(schedule) && from < i < |schedule|
    requires schedule[from] == (h, Issue(info, to)) && t in to && WellFormed(info, states[from].limit)
    requires forall j :: from < j <= i ==> states[j].IsHart(h) && states[j].harts[h].pc != Idle
    requires states[i + 1].IsHart(h) && states[i + 1].harts[h].pc == Idle
    ensures states[from].IsHart(t) && HasFlushed(states[i], t, |states[from].harts[t].log|, info)
  {
    RunKeepsCoverInv(states, schedule, i);
    StillWorksOn(states, schedule, from, i, h, info, to);
    OnlyDoneReturns(states[i], schedule[i].0, schedule[i].1, h);
    assert RequestOk(states[i], h);
    DeliveredHasFlushed(states[i], h, t);
  }
}
