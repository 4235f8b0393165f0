/**
  Bao's assignment of CPUs to virtual machines (bao-hypervisor/src/core/vmm.c) and
  the barrier that separates its phases (bao-hypervisor/src/core/inc/cpu.h).

  All CPUs run the same program. One step is one critical section of a lock, or
  one evaluation of the barrier's wait condition.
 */
module VmAssign {
  import opened Basics
  import opened Bits

  /** What the configuration says about a virtual machine: preferred CPUs and how many it wants. */
  datatype Config = Config(affinity: set<nat>, cpuNum: nat)

  /** struct vm_assignment */
  datatype Assignment = Assignment(master: bool, ncpus: nat, cpus: set<nat>)

  datatype Pc =
    | Start
    | Enter(k: nat)
    | Wait(k: nat, target: nat)
    | Phase1(next: nat)
    | Phase2(next: nat)
    | Done
  {
    /** How many barriers of this program the CPU has entered. */
    function Entered(): nat
    {
      match this
      case Start => 0
      case Enter(k) => k
      case Wait(k, _) => k + 1
      case Phase1(_) => 1
      case Phase2(_) => 2
      case Done => 3
    }
    /** How many of them it has left. */
    function Passed(): nat
    {
      match this
      case Wait(k, _) => k
      case _ => Entered()
    }
  }

  /** A CPU, with the virtual machine it got and whether it is the master there. */
  datatype Cpu = Cpu(pc: Pc, vm: Option<nat>, master: bool)

  /** `count` is the barrier token's counter; `before` is how many rounds it had completed earlier (history). */
  datatype State = State(configs: seq<Config>, cpus: seq<Cpu>, vms: seq<Assignment>, count: nat, before: nat)
  {
    predicate IsCpu(c: nat) { c < |cpus| }
    function Put(c: nat, cpu: Cpu): State
      requires IsCpu(c)
    {
      this.(cpus := cpus[c := cpu])
    }
    function PutPc(c: nat, pc: Pc): State
      requires IsCpu(c)
    {
      Put(c, cpus[c].(pc := pc))
    }
  }

  const CPU_MASTER: nat := 0

  /** ALIGN */
  function Align(x: nat, to: nat): nat
    requires to > 0
  {
    (x + to - 1) / to * to
  }

  /** Where a CPU continues after barrier k. */
  function After(k: nat): Pc
  {
    if k == 0 then Phase1(0) else if k == 1 then Phase2(0) else Done
  }

  /** The assignment record after CPU c has been added. */
  function Joined(a: Assignment, c: nat): Assignment
  {
    Assignment(true, a.ncpus + 1, a.cpus + {c})
  }

  function Join(s: State, c: nat, v: nat, pc: Pc): State
    requires s.IsCpu(c) && v < |s.vms|
  {
    s.(vms := s.vms[v := Joined(s.vms[v], c)]).Put(c, Cpu(pc, Some(v), !s.vms[v].master))
  }

  /** One step of the loop that assigns by affinity. The first CPU to come becomes master without a look at cpu_num. */
  function Phase1Step(s: State, c: nat, v: nat): State
    requires s.IsCpu(c)
  {
    if v >= |s.configs| || v >= |s.vms| || s.cpus[c].vm.Some? then s.PutPc(c, Enter(1))
    else if c in s.configs[v].affinity && (!s.vms[v].master || s.vms[v].ncpus < s.configs[v].cpuNum)
    then Join(s, c, v, Phase1(v + 1))
    else s.PutPc(c, Phase1(v + 1))
  }

  /** One step of the loop that assigns the remaining CPUs. */
  function Phase2Step(s: State, c: nat, v: nat): State
    requires s.IsCpu(c)
  {
    if v >= |s.configs| || v >= |s.vms| || s.cpus[c].vm.Some? then s.PutPc(c, Enter(2))
    else if s.vms[v].ncpus < s.configs[v].cpuNum then Join(s, c, v, Phase2(v + 1))
    else s.PutPc(c, Phase2(v + 1))
  }

  function Step(s: State, c: nat): (s': State)
    requires s.IsCpu(c)
    ensures s'.configs == s.configs && |s'.cpus| == |s.cpus| && s'.before == s.before
  {
    match s.cpus[c].pc
    case Start =>
      var s' := if c == CPU_MASTER then s.(vms := seq(|s.configs|, _ => Assignment(false, 0, {}))) else s;
      s'.PutPc(c, Enter(0))
    case Enter(k) => s.(count := s.count + 1).PutPc(c, Wait(k, Align(s.count + 1, |s.cpus|)))
    case Wait(k, target) => if s.count < target then s else s.PutPc(c, After(k))
    case Phase1(v) => Phase1Step(s, c, v)
    case Phase2(v) => Phase2Step(s, c, v)
    case Done => s
  }

  /** All CPUs are about to start, the barrier is between rounds, and the assignment records hold anything. */
  ghost predicate Init(s: State)
  {
    && s.count == s.before * |s.cpus|
    && forall c :: 0 <= c < |s.cpus| ==> s.cpus[c] == Cpu(Start, None, false)
  }

  ghost predicate IsRun(states: seq<State>, schedule: seq<nat>)
  {
    && |states| == |schedule| + 1 && Init(states[0])
    && forall i :: 0 <= i < |schedule| ==> states[i].IsCpu(schedule[i]) && states[i + 1] == Step(states[i], schedule[i])
  }

  // ---------------------------------------------------------------------
  // The barrier
  // ---------------------------------------------------------------------

  ghost function TotalEntered(cpus: seq<Cpu>): nat
  {
    if cpus == [] then 0 else TotalEntered(cpus[..|cpus| - 1]) + cpus[|cpus| - 1].pc.Entered()
  }

  lemma {:induction false} TotalUpdate(cpus: seq<Cpu>, c: nat, cpu: Cpu)
    requires c < |cpus|
    ensures TotalEntered(cpus[c := cpu]) == TotalEntered(cpus) - cpus[c].pc.Entered() + cpu.pc.Entered()
  {
    var n := |cpus| - 1;
    if c == n {
      assert cpus[c := cpu][..n] == cpus[..n];
    } else {
      assert cpus[c := cpu][..n] == cpus[..n][c := cpu];
      TotalUpdate(cpus[..n], c, cpu);
    }
  }

  /** A total over CPUs that are all at least at k is at least k each; if it is no more than that, all are at k. */
  lemma {:induction false} TotalLow(cpus: seq<Cpu>, k: nat)
    requires forall c :: 0 <= c < |cpus| ==> k <= cpus[c].pc.Entered()
    ensures |cpus| * k <= TotalEntered(cpus)
    ensures TotalEntered(cpus) <= |cpus| * k ==> forall c :: 0 <= c < |cpus| ==> cpus[c].pc.Entered() == k
  {
    if cpus != [] {
      TotalLow(cpus[..|cpus| - 1], k);
      assert |cpus| * k == (|cpus| - 1) * k + k;
    }
  }

  lemma {:induction false} TotalHigh(cpus: seq<Cpu>, k: nat)
    requires forall c :: 0 <= c < |cpus| ==> cpus[c].pc.Entered() <= k
    ensures TotalEntered(cpus) <= |cpus| * k
    ensures |cpus| * k <= TotalEntered(cpus) ==> forall c :: 0 <= c < |cpus| ==> cpus[c].pc.Entered() == k
  {
    if cpus != [] {
      TotalHigh(cpus[..|cpus| - 1], k);
      assert |cpus| * k == (|cpus| - 1) * k + k;
    }
  }

  /** No CPU has left more barriers than every CPU has entered, and every waiter waits for the end of its own round. */
  ghost predicate BarrierInv(s: State)
  {
    && s.count == s.before * |s.cpus| + TotalEntered(s.cpus)
    && (forall c, d :: 0 <= c < |s.cpus| && 0 <= d < |s.cpus| ==> s.cpus[c].pc.Passed() <= s.cpus[d].pc.Entered())
    && (forall c :: 0 <= c < |s.cpus| ==> s.cpus[c].pc.Entered() <= 3 && (s.cpus[c].pc.Enter? ==> s.cpus[c].pc.k <= 2))
    && (forall c :: 0 <= c < |s.cpus| && s.cpus[c].pc.Wait? ==>
       s.cpus[c].pc.target == (s.before + s.cpus[c].pc.k + 1) * |s.cpus|)
  }

  lemma AlignRound(x: nat, n: nat, m: nat)
    requires n > 0 && m * n < x <= m * n + n
    ensures Align(x, n) == (m + 1) * n
  {
    assert x + n - 1 == (m + 1) * n + (x - m * n - 1);
    Quotient(x + n - 1, n, m + 1, x - m * n - 1);
  }

  /** While one CPU is about to enter barrier k, all others are at k or k + 1. */
  lemma EnterBounds(s: State, c: nat)
    requires BarrierInv(s) && s.IsCpu(c) && s.cpus[c].pc.Enter?
    ensures var k := s.cpus[c].pc.k; |s.cpus| * k <= TotalEntered(s.cpus) < |s.cpus| * (k + 1)
  {
    var k := s.cpus[c].pc.k;
    var moved := s.cpus[c := s.cpus[c].(pc := Wait(k, 0))];
    TotalLow(s.cpus, k);
    TotalUpdate(s.cpus, c, s.cpus[c].(pc := Wait(k, 0)));
    forall d | 0 <= d < |s.cpus|
      ensures moved[d].pc.Entered() <= k + 1
    {
      assert s.cpus[d].pc.Passed() <= s.cpus[c].pc.Entered();
    }
    TotalHigh(moved, k + 1);
  }

  /** So the count is within the round, and the target is the end of the round. */
  lemma RoundTarget(before: nat, k: nat, n: nat, total: nat)
    requires n > 0 && n * k <= total < n * (k + 1)
    ensures Align(before * n + total + 1, n) == (before + k + 1) * n
  {
    assert (before + k) * n == before * n + n * k;
    assert n * (k + 1) == n * k + n;
    AlignRound(before * n + total + 1, n, before + k);
  }

  /** When the wait for barrier k ends, every CPU has entered it. */
  lemma LeaveReady(s: State, c: nat, d: nat)
    requires BarrierInv(s) && s.IsCpu(c) && s.cpus[c].pc.Wait? && s.cpus[c].pc.target <= s.count && s.IsCpu(d)
    ensures s.cpus[c].pc.k + 1 <= s.cpus[d].pc.Entered()
  {
    var k, n := s.cpus[c].pc.k, |s.cpus|;
    if exists e :: 0 <= e < n && k + 1 <= s.cpus[e].pc.Passed() {
      var e :| 0 <= e < n && k + 1 <= s.cpus[e].pc.Passed();
    } else {
      forall e | 0 <= e < n
        ensures s.cpus[e].pc.Entered() <= k + 1
      {
        assert s.cpus[e].pc.Passed() <= k;
      }
      assert (s.before + k + 1) * n == s.before * n + n * (k + 1);
      TotalHigh(s.cpus, k + 1);
    }
  }

  /** A CPU that enters at most one more barrier, or leaves one that all have entered. */
  lemma MoveKeepsBarrierInv(s: State, s': State, c: nat, cpu: Cpu)
    requires BarrierInv(s) && s.IsCpu(c) && s'.cpus == s.cpus[c := cpu] && s'.before == s.before
    requires s.cpus[c].pc.Entered() <= cpu.pc.Entered() &&
             s'.count == s.count + cpu.pc.Entered() - s.cpus[c].pc.Entered()
    requires forall d :: 0 <= d < |s.cpus| ==> cpu.pc.Passed() <= s.cpus[d].pc.Entered()
    requires cpu.pc.Entered() <= 3 && (cpu.pc.Enter? ==> cpu.pc.k <= 2)
    requires cpu.pc.Wait? ==> cpu.pc.target == (s.before + cpu.pc.k + 1) * |s.cpus|
    ensures BarrierInv(s')
  {
    TotalUpdate(s.cpus, c, cpu);
    assert |s'.cpus| == |s.cpus|;
    forall d | 0 <= d < |s'.cpus| && s'.cpus[d].pc.Wait?
      ensures s'.cpus[d].pc.target == (s'.before + s'.cpus[d].pc.k + 1) * |s'.cpus|
    {
    }
  }

  lemma EnterKeepsBarrierInv(s: State, c: nat)
    requires BarrierInv(s) && s.IsCpu(c) && s.cpus[c].pc.Enter?
    ensures BarrierInv(Step(s, c))
  {
    var s', k := Step(s, c), s.cpus[c].pc.k;
    EnterBounds(s, c);
    RoundTarget(s.before, k, |s.cpus|, TotalEntered(s.cpus));
    MoveKeepsBarrierInv(s, s', c, s'.cpus[c]);
  }

  lemma LeaveKeepsBarrierInv(s: State, c: nat)
    requires BarrierInv(s) && s.IsCpu(c) && s.cpus[c].pc.Wait? && s.cpus[c].pc.target <= s.count
    ensures BarrierInv(Step(s, c))
  {
    var s', k := Step(s, c), s.cpus[c].pc.k;
    forall d | 0 <= d < |s.cpus|
      ensures k + 1 <= s.cpus[d].pc.Entered()
    {
      LeaveReady(s, c, d);
    }
    MoveKeepsBarrierInv(s, s', c, s'.cpus[c]);
  }

  lemma StepKeepsBarrierInv(s: State, c: nat)
    requires BarrierInv(s) && s.IsCpu(c)
    ensures BarrierInv(Step(s, c))
  {
    var s', pc := Step(s, c), s.cpus[c].pc;
    if pc.Enter? {
      EnterKeepsBarrierInv(s, c);
    } else if pc.Wait? && pc.target <= s.count {
      LeaveKeepsBarrierInv(s, c);
    } else {
      MoveKeepsBarrierInv(s, s', c, s'.cpus[c]);
    }
  }
}
