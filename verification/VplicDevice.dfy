/**
  The virtual PLIC as a device: the registers of all contexts and the operations
  on them (bao-hypervisor/src/arch/riscv/vplic.c). The line of a context is the
  pending bit of its virtual hart; a refresh of a remote hart's line happens at
  once. Writes through to the physical PLIC are not part of the model.

  The source's search goes one id past its tables. What it reads there are the
  tables that follow in memory (bao-hypervisor/src/arch/riscv/inc/arch/vplic.h):
  active bit 0 for the pending bit, the low bit of priority 0 for the active bit,
  enable bit 0 of the next context (or the low bit of the first threshold) for the
  enable bit, and the first enable word of context 0 for the priority.
 */
module VplicDevice {
  import opened Bits
  import opened Vplic

  class Device {
    const pend: array<bool>
    const act: array<bool>
    const hw: array<bool>
    const prio: array<nat>
    /** Enable bits, by context and id. */
    const enbl: array2<bool>
    const threshold: array<nat>
    const line: array<bool>
    /** Which contexts are S-mode contexts. */
    const smode: seq<bool>
    /** All events so far; history. */
    ghost var log: seq<Event>

    /** A cleared device. */
    constructor (contexts: seq<bool>)
      ensures Valid() && smode == contexts && log == []
      ensures fresh(pend) && fresh(act) && fresh(hw) && fresh(prio) && fresh(enbl) && fresh(threshold) && fresh(line)
      ensures forall c :: 0 <= c < |smode| ==> Exact(c)
      ensures forall i :: 0 <= i < IDS ==> !pend[i] && !act[i] && !hw[i] && prio[i] == 0
      ensures forall c :: 0 <= c < |smode| ==> threshold[c] == 0 && forall i :: 0 <= i < IDS ==> !enbl[c, i]
    {
      pend := new bool[IDS](_ => false);
      act := new bool[IDS](_ => false);
      hw := new bool[IDS](_ => false);
      prio := new nat[IDS](_ => 0);
      enbl := new bool[|contexts|, IDS]((_, _) => false);
      threshold := new nat[|contexts|](_ => 0);
      line := new bool[|contexts|](_ => false);
      smode := contexts;
      log := [];
    }

    predicate Shape()
      reads this
    {
      && pend.Length == IDS && act.Length == IDS && hw.Length == IDS && prio.Length == IDS
      && enbl.Length0 == |smode| && enbl.Length1 == IDS && threshold.Length == |smode| && line.Length == |smode|
      && pend != act && pend != hw && act != hw && line != pend && line != act && line != hw && prio != threshold
    }

    /** The guest only reaches S-mode contexts, so the enable bits of another context 0 stay clear. */
    ghost predicate Valid()
      reads this, pend, act, enbl
    {
      && Shape() && !pend[0] && Accounted(log, pend[..], act[..])
      && (|smode| > 0 && !smode[0] ==> forall i :: 0 <= i < IDS ==> !enbl[0, i])
    }

    /** The first enable word of context 0. */
    function FirstWord(): nat
      requires enbl.Length0 > 0 && enbl.Length1 == IDS
      reads this, enbl
    {
      WordOf(FirstBits())
    }

    function FirstBits(): (bits: seq<bool>)
      requires enbl.Length0 > 0 && enbl.Length1 == IDS
      reads this, enbl
      ensures |bits| == 32 && forall i :: 0 <= i < 32 ==> bits[i] == enbl[0, i]
    {
      seq(32, i requires 0 <= i < 32 reads this, enbl => enbl[0, i])
    }

    /** What a context reads at id 1024. */
    function BeyondOf(c: nat): Beyond
      requires Shape() && c < |smode|
      reads this, act, prio, enbl, threshold
    {
      Beyond(act[0] && prio[0] % 2 == 0 && (if c + 1 < |smode| then enbl[c + 1, 0] else threshold[0] % 2 == 1),
          FirstWord())
    }

    ghost predicate Overridden(c: nat)
      requires Valid() && c < |smode|
      reads this, pend, act, prio, enbl, threshold
    {
      Overrides(ViewOf(c), BeyondOf(c))
    }

    ghost function ViewOf(c: nat): (v: View)
      requires Valid() && c < |smode|
      reads this, pend, act, prio, enbl, threshold
      ensures v.Ok()
    {
      View(pend[..], act[..], seq(IDS, i requires 0 <= i < IDS reads this, enbl => enbl[c, i]), prio[..], threshold[c])
    }

    /** The line of the context shows whether an interrupt asks for attention. */
    ghost predicate Exact(c: nat)
      requires Valid() && c < |smode|
      reads this, pend, act, prio, enbl, threshold, line
    {
      line[c] == Raised(ViewOf(c))
    }

    /** There is one S-mode context and no interrupt is passed through from the physical PLIC. */
    ghost predicate Simple(c: nat)
      requires Valid() && c < |smode|
      reads this, pend, act, enbl, hw
    {
      (forall d :: 0 <= d < |smode| ==> smode[d] == (d == c)) && forall i :: 0 <= i < IDS ==> !hw[i]
    }

    /** The layout of all platforms here: each hart has an M-mode context and then an S-mode one. */
    predicate DefaultLayout()
    {
      forall d :: 0 <= d < |smode| ==> smode[d] == (d % 2 == 1)
    }

    /**
      vplic_next_pending. The answer is the right one if and only if the reading
      past the tables does not beat it; otherwise it is the id 1024.
     */
    method NextPending(c: nat) returns (id: nat)
      requires Valid() && c < |smode|
      ensures id == IDS <==> Overridden(c)
      ensures id != IDS ==> id < IDS && IsNext(ViewOf(c), id)
      ensures id != 0 <==> Raised(ViewOf(c)) || Overridden(c)
      ensures DefaultLayout() ==> id < IDS && IsNext(ViewOf(c), id)
    {
      if DefaultLayout() {
        NeverOverridden(c);
      }
      ghost var v := ViewOf(c);
      var maxPrio := 0;
      id := 0;
      var i := 0;
      while i < IDS
        invariant 0 <= i <= IDS && 0 <= id < IDS && id <= i
        invariant if id == 0 then maxPrio == 0 else v.Eligible(id) && maxPrio == v.prio[id] > 0
        invariant forall k: nat :: k < i && v.Eligible(k) ==> v.prio[k] < maxPrio || (v.prio[k] == maxPrio && id <= k)
      {
        if pend[i] && !act[i] && enbl[c, i] {
          if prio[i] > maxPrio {
            maxPrio := prio[i];
            id := i;
          }
        }
        i := i + 1;
      }
      var beyond := BeyondOf(c);
      if beyond.eligible && beyond.prio > maxPrio {
        maxPrio := beyond.prio;
        id := IDS;
      }
      if maxPrio <= threshold[c] {
        id := 0;
      }
    }

    /** The arbitration's answer in terms of the registers. */
    lemma NextMeans(c: nat, id: nat)
      requires Valid() && c < |smode| && id < IDS
      ensures IsNext(ViewOf(c), id)
              <==> if id == 0
                   then forall i: nat :: i < IDS && pend[i] && !act[i] && enbl[c, i] ==> prio[i] <= threshold[c]
                   else && pend[id] && !act[id] && enbl[c, id] && threshold[c] < prio[id]
                        && forall i: nat :: i < IDS && pend[i] && !act[i] && enbl[c, i] ==>
                             prio[i] < prio[id] || (prio[i] == prio[id] && id <= i)
    {
      var v := ViewOf(c);
      assert forall i: nat :: i < IDS ==>
               (v.Eligible(i) <==> pend[i] && !act[i] && enbl[c, i]) && v.prio[i] == prio[i];
    }

    /**
      An exact line is up if and only if some interrupt is pending, not in service,
      enabled and above the threshold.
     */
    lemma ExactMeans(c: nat)
      requires Valid() && c < |smode|
      ensures Exact(c) <==>
              (line[c] <==> exists i: nat :: i < IDS && pend[i] && !act[i] && enbl[c, i] && threshold[c] < prio[i])
    {
      var v := ViewOf(c);
      assert forall i: nat :: i < IDS ==>
               (v.Eligible(i) <==> pend[i] && !act[i] && enbl[c, i]) && v.prio[i] == prio[i];
      if i: nat :| i < IDS && pend[i] && !act[i] && enbl[c, i] && threshold[c] < prio[i] {
        assert v.Eligible(i);
      }
    }

    /** Where context 0 is not an S-mode context, the reading never beats anything. */
    lemma NeverOverridden(c: nat)
      requires Valid() && c < |smode| && !smode[0]
      ensures !Overridden(c)
    {
      WordIsZeroIff(FirstBits());
    }

    /** vplic_update_hart_line */
    method UpdateLine(c: nat)
      requires Valid() && c < |smode|
      modifies line
      ensures Valid() && line[c] == (Raised(ViewOf(c)) || Overridden(c))
      ensures forall d :: 0 <= d < |smode| && d != c ==> line[d] == old(line[d])
    {
      var id := NextPending(c);
      line[c] := id != 0;
    }

    /** vplic_set_threshold */
    method SetThreshold(c: nat, value: nat)
      requires Valid() && c < |smode| && smode[c]
      modifies threshold, line
      ensures Valid() && threshold[..] == old(threshold[..])[c := value]
      ensures Exact(c) <==> Raised(ViewOf(c)) || !Overridden(c)
    {
      threshold[c] := value;
      UpdateLine(c);
    }

    /**
      vplic_claim: hands out the next interrupt, which moves from pending to in
      service. The id 1024 instead clears the active bit of id 0 and sets the low bit
      of its priority.
     */
    method Claim(c: nat) returns (id: nat)
      requires Valid() && c < |smode| && smode[c]
      modifies pend, act, prio, line, this`log
      ensures Valid() && (Exact(c) <==> Raised(ViewOf(c)) || !Overridden(c))
      ensures id == IDS <==> old(Overridden(c))
      ensures DefaultLayout() ==> id < IDS && old(IsNext(ViewOf(c), id)) && Exact(c)
      ensures id != IDS ==>
                && id < IDS && old(IsNext(ViewOf(c), id)) && prio[..] == old(prio[..])
                && pend[..] == old(pend[..])[id := false] && act[..] == old(act[..])[id := true]
      ensures id == IDS ==>
                && pend[..] == old(pend[..]) && act[..] == old(act[..])[0 := false]
                && prio[..] == old(prio[..])[0 := old(prio[0]) + 1]
      ensures log == if 0 < id < IDS then old(log) + [Claimed(id)] else old(log)
    {
      id := NextPending(c);
      if id < IDS {
        HandOut(id);
      } else {
        HandOutBeyond(c);
      }
      UpdateLine(c);
      if DefaultLayout() {
        NeverOverridden(c);
      }
    }

    /** What clearing the pending bit and setting the active bit of id 1024 does. */
    method HandOutBeyond(c: nat)
      requires Valid() && c < |smode| && Overridden(c)
      modifies act, prio
      ensures Valid() && act[..] == old(act[..])[0 := false] && prio[..] == old(prio[..])[0 := old(prio[0]) + 1]
    {
      act[0] := false;
      prio[0] := prio[0] + 1;
    }

    /** An interrupt moves from pending to in service; id 0 stands for none. */
    method HandOut(id: nat)
      requires Valid() && id < IDS && (id != 0 ==> pend[id] && !act[id])
      modifies pend, act, this`log
      ensures Valid() && log == if id > 0 then old(log) + [Claimed(id)] else old(log)
      ensures pend[..] == old(pend[..])[id := false] && act[..] == old(act[..])[id := true]
    {
      if id > 0 {
        ClaimAccounted(log, pend[..], act[..], id);
        log := log + [Claimed(id)];
      }
      pend[id] := false;
      act[id] := true;
    }

    /**
      vplic_complete: ends the service of an interrupt. The id is not checked: one
      past the active bits clears a bit of whatever follows them in memory, first
      the priorities, then the enable bits, then the thresholds.
     */
    method Complete(c: nat, id: nat)
      requires Valid() && c < |smode| && smode[c] && id < EndOfTables()
      modifies act, prio, enbl, threshold, line, this`log
      ensures Valid() && (Exact(c) <==> Raised(ViewOf(c)) || !Overridden(c))
      ensures log == if id < IDS then old(log) + [Completed(id)] else old(log)
      ensures act[..] == if id < IDS then old(act[..])[id := false] else old(act[..])
      ensures prio[..] == if IDS <= id < EndOfPriorities()
                          then old(prio[..])[(id - IDS) / 32 := WithoutBit(old(prio[(id - IDS) / 32]), id % 32)]
                          else old(prio[..])
      ensures forall d, i :: 0 <= d < |smode| && 0 <= i < IDS ==>
                enbl[d, i] == (old(enbl[d, i]) && id != EndOfPriorities() + d * IDS + i)
      ensures threshold[..] == if id < EndOfEnables() then old(threshold[..])
                               else old(threshold[..])[(id - EndOfEnables()) / 32 :=
                                      WithoutBit(old(threshold[(id - EndOfEnables()) / 32]), id % 32)]
    {
      if id < IDS {
        CompleteAccounted(log, pend[..], act[..], id);
        log := log + [Completed(id)];
        act[id] := false;
      } else if id < EndOfPriorities() {
        prio[(id - IDS) / 32] := WithoutBit(prio[(id - IDS) / 32], id % 32);
      } else if id < EndOfEnables() {
        var k := id - EndOfPriorities();
        enbl[k / IDS, k % IDS] := false;
      } else {
        var k := id - EndOfEnables();
        threshold[k / 32] := WithoutBit(threshold[k / 32], id % 32);
      }
      UpdateLine(c);
    }

    /** One past the last bit number, counted from active bit 0, of each table that follows. */
    function EndOfPriorities(): nat
    {
      IDS + 32 * IDS
    }

    function EndOfEnables(): nat
    {
      EndOfPriorities() + |smode| * IDS
    }

    function EndOfTables(): nat
    {
      EndOfEnables() + 32 * |smode|
    }

    /** vplic_set_enbl: the line is refreshed, except for an interrupt that the physical PLIC delivers. */
    method SetEnable(c: nat, id: nat, value: bool)
      requires Valid() && c < |smode| && smode[c] && id < IDS
      modifies enbl, line
      ensures Valid()
      ensures forall d, i :: 0 <= d < |smode| && 0 <= i < IDS ==>
                enbl[d, i] == if d == c && i == id then value else old(enbl[d, i])
      ensures old(Simple(c) && Exact(c)) && (Raised(ViewOf(c)) || !Overridden(c)) ==> Exact(c)
    {
      if enbl[c, id] != value {
        enbl[c, id] := value;
        if !hw[id] {
          UpdateLine(c);
        }
      } else {
        assert ViewOf(c) == old(ViewOf(c));
      }
    }

    /** Refresh the lines of the S-mode contexts for which `relevant` holds. */
    method UpdateLines(relevant: seq<bool>)
      requires Valid() && |relevant| == |smode|
      modifies line
      ensures Valid()
      ensures forall c :: 0 <= c < |smode| ==>
                line[c] == if smode[c] && relevant[c] then Raised(ViewOf(c)) || Overridden(c) else old(line[c])
    {
      var i := 0;
      while i < |smode|
        invariant 0 <= i <= |smode| && Valid()
        invariant forall c :: 0 <= c < i ==>
                    line[c] == if smode[c] && relevant[c] then Raised(ViewOf(c)) || Overridden(c) else old(line[c])
        invariant forall c :: i <= c < |smode| ==> line[c] == old(line[c])
      {
        if smode[i] && relevant[i] {
          UpdateLine(i);
        }
        i := i + 1;
      }
    }

    /** vplic_set_prio: only the contexts that enable the interrupt are refreshed. */
    method SetPriority(id: nat, value: nat)
      requires Valid() && id < IDS
      modifies prio, line
      ensures Valid() && prio[..] == old(prio[..])[id := value]
      ensures forall c :: 0 <= c < |smode| && old(Simple(c) && Exact(c)) && (Raised(ViewOf(c)) || !Overridden(c)) ==>
              Exact(c)
    {
      if prio[id] != value {
        prio[id] := value;
        if !hw[id] {
          UpdateLines(seq(|smode|, c requires 0 <= c < |smode| reads this, enbl => enbl[c, id]));
          forall c | 0 <= c < |smode| && old(Simple(c) && Exact(c)) && (Raised(ViewOf(c)) || !Overridden(c))
            ensures Exact(c)
          {
            if !enbl[c, id] {
              SameRaised(old(ViewOf(c)), ViewOf(c));
            }
          }
        }
      } else {
        assert forall c :: 0 <= c < |smode| ==> ViewOf(c) == old(ViewOf(c));
      }
    }

    /**
      vplic_inject: an interrupt that is not pending becomes pending; only the
      contexts that enable it, with a threshold below its priority, are refreshed.
      `own` is the context of the calling virtual CPU. The id 1024 sets the active
      bit of id 0 instead.
     */
    method Inject(id: nat, own: nat)
      requires Valid() && own < |smode|
      modifies pend, act, line, this`log
      ensures Valid()
      ensures if 0 < id < IDS && !old(pend[id])
              then pend[..] == old(pend[..])[id := true] && log == old(log) + [Injected(id)]
              else pend[..] == old(pend[..]) && log == old(log)
      ensures act[..] == if id == IDS then old(act[..])[0 := true] else old(act[..])
      ensures forall c :: 0 <= c < |smode| && old(Simple(c) && Exact(c)) && (Raised(ViewOf(c)) || !Overridden(c)) ==>
              Exact(c)
    {
      if 0 < id < IDS && !pend[id] {
        InjectNew(id, own);
      } else if id == IDS && !act[0] {
        InjectBeyond();
      } else {
        assert forall c :: 0 <= c < |smode| ==> ViewOf(c) == old(ViewOf(c));
      }
    }

    method InjectNew(id: nat, own: nat)
      requires Valid() && own < |smode| && 0 < id < IDS && !pend[id]
      modifies pend, line, this`log
      ensures Valid() && pend[..] == old(pend[..])[id := true] && log == old(log) + [Injected(id)]
      ensures forall c :: 0 <= c < |smode| && old(Simple(c) && Exact(c)) && (Raised(ViewOf(c)) || !Overridden(c)) ==>
                Exact(c)
    {
      InjectAccounted(log, pend[..], act[..], id);
      log := log + [Injected(id)];
      pend[id] := true;
      if hw[id] {
        UpdateLine(own);
      } else {
        UpdateLines(seq(|smode|, c requires 0 <= c < |smode| reads this, enbl, prio, threshold =>
          enbl[c, id] && prio[id] > threshold[c]));
        forall c | 0 <= c < |smode| && old(Simple(c) && Exact(c)) && (Raised(ViewOf(c)) || !Overridden(c))
          ensures Exact(c)
        {
          if !enbl[c, id] || prio[id] <= threshold[c] {
            SameRaised(old(ViewOf(c)), ViewOf(c));
          }
        }
      }
    }

    method InjectBeyond()
      requires Valid() && |smode| > 0 && !act[0]
      modifies act, line
      ensures Valid() && act[..] == old(act[..])[0 := true]
      ensures forall c :: 0 <= c < |smode| && old(Simple(c) && Exact(c)) && (Raised(ViewOf(c)) || !Overridden(c)) ==>
                Exact(c)
    {
      act[0] := true;
      UpdateLines(seq(|smode|, c requires 0 <= c < |smode| reads this, act, prio, enbl, threshold =>
        (if c + 1 < |smode| then enbl[c + 1, 0] else threshold[0] % 2 == 1) && FirstWord() > threshold[c]));
      forall c | 0 <= c < |smode| && old(Simple(c) && Exact(c)) && (Raised(ViewOf(c)) || !Overridden(c))
        ensures Exact(c)
      {
        SameRaised(old(ViewOf(c)), ViewOf(c));
      }
    }
  }

  /** A word with bit b cleared. */
  function WithoutBit(x: nat, b: nat): (y: nat)
    ensures y <= x
  {
    if x / Pow2(b) % 2 == 1 then
      Quotients(x, Pow2(b));
      x - Pow2(b)
    else x
  }

  lemma Quotients(x: nat, d: nat)
    requires d > 0 && x / d > 0
    ensures d <= x
  {
  }

  /** Two S-mode contexts and nothing pending: the first enables interrupt 5, the second id 0. */
  method TwoContexts() returns (device: Device)
    ensures device.Valid() && |device.smode| == 2 && device.smode[0] && device.enbl[1, 0] && device.FirstWord() > 0
    ensures fresh(device.pend) && fresh(device.act) && fresh(device.prio) && fresh(device.line) && fresh(device)
    ensures !device.act[0] && device.prio[0] == 0 && device.threshold[0] == 0
    ensures forall i :: 0 <= i < IDS ==> !device.pend[i]
  {
    device := new Device([true, true]);
    device.SetEnable(0, 5, true);
    device.SetEnable(1, 0, true);
    WordIsZeroIff(device.FirstBits());
    assert device.FirstBits()[5];
  }

  /**
    Two claims on such a device: the first is answered 0, the second 1024. It takes
    a platform whose context 0 is an S-mode context.
   */
  method SecondClaimIsSpurious() returns (first: nat, second: nat)
    ensures first == 0 && second == IDS
  {
    var device := TwoContexts();
    assert !device.Overridden(0) && !Raised(device.ViewOf(0));
    first := device.Claim(0);
    assert device.Overridden(0);
    second := device.Claim(0);
  }
}
