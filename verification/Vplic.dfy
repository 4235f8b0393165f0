/**
  Bao's virtual PLIC (bao-hypervisor/src/arch/riscv/vplic.c): priority arbitration
  among pending interrupts, claim and complete (the "Interrupt Claim Process" and
  "Interrupt Completion" sections of the RISC-V PLIC Specification), and the line
  to the virtual hart.
 */
module Vplic {

  /** PLIC_MAX_INTERRUPTS: the size of all tables. */
  const IDS: nat := 1024

  // ---------------------------------------------------------------------
  // Arbitration
  // ---------------------------------------------------------------------

  /** What one context sees. */
  datatype View = View(pend: seq<bool>, act: seq<bool>, enbl: seq<bool>, prio: seq<nat>, threshold: nat)
  {
    predicate Ok() { |pend| == IDS && |act| == IDS && |enbl| == IDS && |prio| == IDS && !pend[0] }
    predicate Eligible(i: nat)
      requires Ok() && i < IDS
    {
      pend[i] && !act[i] && enbl[i]
    }
  }

  /** Some interrupt asks for the hart's attention. */
  ghost predicate Raised(v: View)
    requires v.Ok()
  {
    exists i: nat :: i < IDS && v.Eligible(i) && v.threshold < v.prio[i]
  }

  /**
    The id is the eligible one of highest priority, the lowest among equals, if its
    priority is above the threshold; otherwise 0.
   */
  ghost predicate IsNext(v: View, id: nat)
    requires v.Ok()
  {
    if id == 0 then !Raised(v)
    else
      && id < IDS && v.Eligible(id) && v.threshold < v.prio[id]
      && forall i: nat :: i < IDS && v.Eligible(i) ==> v.prio[i] < v.prio[id] || (v.prio[i] == v.prio[id] && id <= i)
  }

  /**
    What the search finds at id 1024, one past its tables: whether the bits it reads
    there make that id look eligible, and the priority it reads.
   */
  datatype Beyond = Beyond(eligible: bool, prio: nat)

  /** The reading past the tables beats every interrupt and the threshold. */
  ghost predicate Overrides(v: View, b: Beyond)
    requires v.Ok()
  {
    b.eligible && v.threshold < b.prio && forall i: nat :: i < IDS && v.Eligible(i) ==> v.prio[i] < b.prio
  }

  /** The value of an enable word of 32 bits, lowest first. */
  function WordOf(bits: seq<bool>): nat
  {
    if bits == [] then 0 else (if bits[0] then 1 else 0) + 2 * WordOf(bits[1..])
  }

  lemma {:induction false} WordIsZeroIff(bits: seq<bool>)
    ensures WordOf(bits) == 0 <==> forall i :: 0 <= i < |bits| ==> !bits[i]
  {
    if bits != [] {
      WordIsZeroIff(bits[1..]);
      assert forall i :: 1 <= i < |bits| ==> bits[i] == bits[1..][i - 1];
    }
  }

  /** There is exactly one answer. */
  lemma NextIsUnique(v: View, id: nat, id': nat)
    requires v.Ok() && IsNext(v, id) && IsNext(v, id')
    ensures id == id' && (id != 0 <==> Raised(v))
  {
    if id != 0 {
      assert Raised(v);
    }
    if id' != 0 {
      assert Raised(v);
    }
  }

  /** Two views that agree on what is above the threshold raise the line alike. */
  lemma SameRaised(v: View, w: View)
    requires v.Ok() && w.Ok()
    requires forall i: nat :: i < IDS ==>
               (v.Eligible(i) && v.threshold < v.prio[i] <==> w.Eligible(i) && w.threshold < w.prio[i])
    ensures Raised(v) == Raised(w)
  {
    if Raised(v) {
      var i: nat :| i < IDS && v.Eligible(i) && v.threshold < v.prio[i];
      assert w.Eligible(i) && w.threshold < w.prio[i];
    }
    if Raised(w) {
      var i: nat :| i < IDS && w.Eligible(i) && w.threshold < w.prio[i];
      assert v.Eligible(i) && v.threshold < v.prio[i];
    }
  }

  // ---------------------------------------------------------------------
  // History
  // ---------------------------------------------------------------------

  datatype Event = Injected(id: nat) | Claimed(id: nat) | Completed(id: nat)

  function CountOf(log: seq<Event>, e: Event): nat
  {
    if log == [] then 0 else CountOf(log[..|log| - 1], e) + (if log[|log| - 1] == e then 1 else 0)
  }

  /** Claimed, and not completed since. */
  function InService(log: seq<Event>, id: nat): bool
  {
    if log == [] then false
    else if log[|log| - 1] == Claimed(id) then true
    else if log[|log| - 1] == Completed(id) then false
    else InService(log[..|log| - 1], id)
  }

  /** Between two claims of one interrupt it is completed. */
  ghost predicate NoDoubleClaim(log: seq<Event>)
  {
    forall i, j :: 0 <= i < j < |log| && log[i].Claimed? && log[i] == log[j] ==>
      exists k :: i < k < j && log[k] == Completed(log[i].id)
  }

  /** A claim with no completion after it leaves the interrupt in service. */
  lemma {:induction false} OpenClaim(log: seq<Event>, i: nat, id: nat)
    requires i < |log| && log[i] == Claimed(id) && !InService(log, id)
    ensures exists k :: i < k < |log| && log[k] == Completed(id)
  {
    var n := |log| - 1;
    if log[n] != Completed(id) {
      OpenClaim(log[..n], i, id);
      var k :| i < k < n && log[..n][k] == Completed(id);
      assert log[k] == Completed(id);
    }
  }

  /** An event keeps the rule, if a claim is only of an interrupt that is not in service. */
  lemma ExtendLog(log: seq<Event>, e: Event)
    requires NoDoubleClaim(log) && (e.Claimed? ==> !InService(log, e.id))
    ensures NoDoubleClaim(log + [e])
  {
    var log' := log + [e];
    forall i, j | 0 <= i < j < |log'| && log'[i].Claimed? && log'[i] == log'[j]
      ensures exists k :: i < k < j && log'[k] == Completed(log'[i].id)
    {
      if j == |log| {
        OpenClaim(log, i, e.id);
        var k :| i < k < |log| && log[k] == Completed(e.id);
        assert log'[k] == Completed(e.id);
      } else {
        var k :| i < k < j && log[k] == Completed(log[i].id);
        assert log'[k] == Completed(log'[i].id);
      }
    }
  }

  lemma CountExtend(log: seq<Event>, e: Event, f: Event, id: nat)
    ensures CountOf(log + [e], f) == CountOf(log, f) + (if e == f then 1 else 0)
    ensures InService(log + [e], id) == (e == Claimed(id) || (e != Completed(id) && InService(log, id)))
  {
    assert (log + [e])[..|log|] == log;
  }

  /** Pending bits count accepted injections minus claims, active bits mark claims without completion. */
  ghost predicate Accounted(log: seq<Event>, pend: seq<bool>, act: seq<bool>)
    requires |pend| == IDS && |act| == IDS
  {
    && NoDoubleClaim(log)
    && forall id :: 1 <= id < IDS ==>
         && CountOf(log, Injected(id)) == CountOf(log, Claimed(id)) + (if pend[id] then 1 else 0)
         && act[id] == InService(log, id)
  }

  lemma InjectAccounted(log: seq<Event>, pend: seq<bool>, act: seq<bool>, id: nat)
    requires |pend| == IDS && |act| == IDS && Accounted(log, pend, act) && 1 <= id < IDS && !pend[id]
    ensures Accounted(log + [Injected(id)], pend[id := true], act)
  {
    ExtendLog(log, Injected(id));
    forall i | 1 <= i < IDS
      ensures CountOf(log + [Injected(id)], Injected(i)) == CountOf(log + [Injected(id)], Claimed(i)) +
              (if pend[id := true][i] then 1 else 0)
      ensures act[i] == InService(log + [Injected(id)], i)
    {
      CountExtend(log, Injected(id), Injected(i), i);
      CountExtend(log, Injected(id), Claimed(i), i);
    }
  }

  lemma ClaimAccounted(log: seq<Event>, pend: seq<bool>, act: seq<bool>, id: nat)
    requires |pend| == IDS && |act| == IDS && Accounted(log, pend, act) && 1 <= id < IDS && pend[id] && !act[id]
    ensures Accounted(log + [Claimed(id)], pend[id := false], act[id := true])
  {
    ExtendLog(log, Claimed(id));
    forall i | 1 <= i < IDS
      ensures CountOf(log + [Claimed(id)], Injected(i)) == CountOf(log + [Claimed(id)], Claimed(i)) +
              (if pend[id := false][i] then 1 else 0)
      ensures act[id := true][i] == InService(log + [Claimed(id)], i)
    {
      CountExtend(log, Claimed(id), Injected(i), i);
      CountExtend(log, Claimed(id), Claimed(i), i);
    }
  }

  lemma CompleteAccounted(log: seq<Event>, pend: seq<bool>, act: seq<bool>, id: nat)
    requires |pend| == IDS && |act| == IDS && Accounted(log, pend, act) && id < IDS
    ensures Accounted(log + [Completed(id)], pend, act[id := false])
  {
    ExtendLog(log, Completed(id));
    forall i | 1 <= i < IDS
      ensures CountOf(log + [Completed(id)], Injected(i)) == CountOf(log + [Completed(id)], Claimed(i)) +
              (if pend[i] then 1 else 0)
      ensures act[id := false][i] == InService(log + [Completed(id)], i)
    {
      CountExtend(log, Completed(id), Injected(i), i);
      CountExtend(log, Completed(id), Claimed(i), i);
    }
  }
}
