/**
  What the assignment of CPUs to virtual machines guarantees in every
  interleaving: disjoint CPU sets, one master each, no more CPUs than asked for,
  affinity first, and full machines when there are enough CPUs.
 */
module VmAssignSafety {
  import opened Basics
  import opened VmAssign

  // ---------------------------------------------------------------------
  // The invariant
  // ---------------------------------------------------------------------

  /** The master CPU has cleared the assignment records. */
  ghost predicate Ready(s: State)
  {
    s.IsCpu(CPU_MASTER) && s.cpus[CPU_MASTER].pc != Start
  }

  ghost function Members(s: State, v: nat): set<nat>
  {
    set c: nat | c < |s.cpus| && s.cpus[c].vm == Some(v)
  }

  ghost predicate HasMaster(s: State, v: nat)
  {
    exists c: nat :: s.IsCpu(c) && s.cpus[c].vm == Some(v) && s.cpus[c].master
  }

  /** The record of a virtual machine says what the CPUs think. */
  ghost predicate VmOk(s: State, v: nat)
    requires v < |s.vms| && v < |s.configs|
  {
    var a := s.vms[v];
    && a.cpus == Members(s, v) && a.ncpus == |a.cpus|
    && (a.master <==> a.cpus != {})
    && (a.master ==> HasMaster(s, v))
    && a.ncpus <= (if s.configs[v].cpuNum == 0 then 1 else s.configs[v].cpuNum)
    && (s.configs[v].cpuNum == 0 ==> a.cpus <= s.configs[v].affinity)
  }

  ghost predicate Full(s: State, v: nat)
  {
    v < |s.vms| && v < |s.configs| && s.configs[v].cpuNum <= s.vms[v].ncpus
  }

  /** How many virtual machines the CPU has been through by affinity. */
  ghost function Tried1(s: State, pc: Pc): nat
  {
    match pc
    case Phase1(v) => v
    case Enter(k) => if k >= 1 then |s.configs| else 0
    case Wait(k, _) => if k >= 1 then |s.configs| else 0
    case Start => 0
    case _ => |s.configs|
  }

  /** And how many in the second round. */
  ghost function Tried2(s: State, pc: Pc): nat
  {
    match pc
    case Phase2(v) => v
    case Enter(k) => if k >= 2 then |s.configs| else 0
    case Wait(k, _) => if k >= 2 then |s.configs| else 0
    case Done => |s.configs|
    case _ => 0
  }

  /** A CPU without a machine has found every machine full that it has been through. */
  ghost predicate CpuOk(s: State, c: nat)
    requires s.IsCpu(c)
  {
    var cpu := s.cpus[c];
    && (cpu.vm.Some? ==> cpu.vm.value < |s.configs|)
    && (cpu.pc.Passed() == 0 ==> cpu.vm == None)
    && (cpu.vm == None ==> !cpu.master)
    && (cpu.vm == None ==> PreferredFull(s, c, Tried1(s, cpu.pc)) && AllFull(s, Tried2(s, cpu.pc)))
    && (cpu.vm.Some? && cpu.vm.value < |s.configs| && c !in s.configs[cpu.vm.value].affinity ==>
          cpu.pc.Passed() >= 2 && PreferredFull(s, c, |s.configs|))
  }

  /** Of the first n machines, those that prefer CPU c are full. */
  ghost predicate PreferredFull(s: State, c: nat, n: nat)
  {
    forall v :: 0 <= v < |s.configs| && v < n && c in s.configs[v].affinity ==> Full(s, v)
  }

  ghost predicate AllFull(s: State, n: nat)
  {
    forall v :: 0 <= v < |s.configs| && v < n ==> Full(s, v)
  }

  lemma FullKept(s: State, s': State, c: nat, n: nat, m: nat)
    requires s'.configs == s.configs && forall v :: Full(s, v) ==> Full(s', v)
    ensures PreferredFull(s, c, n) ==> PreferredFull(s', c, n)
    ensures AllFull(s, m) ==> AllFull(s', m)
  {
  }

  ghost predicate OneMaster(s: State)
  {
    forall c, d :: 0 <= c < |s.cpus| && 0 <= d < |s.cpus| && s.cpus[c].master && s.cpus[d].master ==>
      s.cpus[c].vm == s.cpus[d].vm ==> c == d
  }

  ghost predicate AssignInv(s: State)
  {
    && BarrierInv(s)
    && (Ready(s) ==> |s.vms| == |s.configs| && forall v :: 0 <= v < |s.vms| ==> VmOk(s, v))
    && (forall c :: 0 <= c < |s.cpus| ==> CpuOk(s, c))
    && OneMaster(s)
  }

  // ---------------------------------------------------------------------
  // Steps
  // ---------------------------------------------------------------------

  /** Past the first barrier the records have been cleared. */
  lemma PassedReady(s: State, c: nat)
    requires BarrierInv(s) && s.IsCpu(c) && s.cpus[c].pc.Passed() > 0
    ensures Ready(s)
  {
    assert s.cpus[c].pc.Passed() <= s.cpus[CPU_MASTER].pc.Entered();
  }

  lemma StartKeepsInv(s: State, c: nat)
    requires AssignInv(s) && s.IsCpu(c) && s.cpus[c].pc.Start?
    ensures AssignInv(Step(s, c))
  {
    var s' := Step(s, c);
    StepKeepsBarrierInv(s, c);
    forall d | 0 <= d < |s'.cpus|
      ensures CpuOk(s', d) && (c == CPU_MASTER ==> s'.cpus[d].vm == None)
    {
      assert CpuOk(s, d);
      assert s.cpus[d].pc.Passed() <= s.cpus[c].pc.Entered();
    }
    if Ready(s') {
      forall v | 0 <= v < |s'.vms|
        ensures v < |s'.configs| && VmOk(s', v)
      {
        if c == CPU_MASTER {
          assert Members(s', v) == {};
        } else {
          assert VmOk(s, v);
          SameMembers(s, s', v);
        }
      }
    }
  }

  /** A step that moves only a program counter. */
  lemma SameMembers(s: State, s': State, v: nat)
    requires |s'.cpus| == |s.cpus| && forall c :: 0 <= c < |s.cpus| ==>
             s'.cpus[c].vm == s.cpus[c].vm && s'.cpus[c].master == s.cpus[c].master
    ensures Members(s', v) == Members(s, v) && HasMaster(s', v) == HasMaster(s, v)
  {
    if HasMaster(s, v) {
      var c: nat :| s.IsCpu(c) && s.cpus[c].vm == Some(v) && s.cpus[c].master;
      assert s'.IsCpu(c) && s'.cpus[c].vm == Some(v) && s'.cpus[c].master;
    }
    if HasMaster(s', v) {
      var c: nat :| s'.IsCpu(c) && s'.cpus[c].vm == Some(v) && s'.cpus[c].master;
      assert s.IsCpu(c) && s.cpus[c].vm == Some(v) && s.cpus[c].master;
    }
  }

  lemma MoveKeepsInv(s: State, s': State, c: nat)
    requires AssignInv(s) && s.IsCpu(c) && |s'.cpus| == |s.cpus| && BarrierInv(s') && !s.cpus[c].pc.Start? &&
             !s'.cpus[c].pc.Start?
    requires s'.vms == s.vms && s'.configs == s.configs && s'.cpus == s.cpus[c := s.cpus[c].(pc := s'.cpus[c].pc)]
    requires CpuOk(s', c)
    ensures AssignInv(s')
  {
    if Ready(s') {
      assert Ready(s);
      forall v | 0 <= v < |s'.vms|
        ensures VmOk(s', v)
      {
        assert VmOk(s, v);
        SameMembers(s, s', v);
      }
    }
    forall d | 0 <= d < |s'.cpus|
      ensures CpuOk(s', d)
    {
      assert CpuOk(s, d);
      FullKept(s, s', d, Tried1(s, s.cpus[d].pc), Tried2(s, s.cpus[d].pc));
      FullKept(s, s', d, |s.configs|, 0);
    }
  }

  /** What either loop checks before it gives CPU c to machine v. */
  ghost predicate CanJoin(s: State, c: nat, v: nat)
  {
    && s.IsCpu(c) && v < |s.vms| == |s.configs|
    && (s.vms[v].ncpus < s.configs[v].cpuNum || (!s.vms[v].master && c in s.configs[v].affinity))
  }

  lemma JoinMembers(s: State, c: nat, v: nat, pc: Pc, w: nat)
    requires s.IsCpu(c) && v < |s.vms| && s.cpus[c].vm == None
    ensures Members(Join(s, c, v, pc), w) == if w == v then Members(s, w) + {c} else Members(s, w)
    ensures c !in Members(s, w)
  {
  }

  lemma JoinHasMaster(s: State, c: nat, v: nat, pc: Pc, w: nat)
    requires s.IsCpu(c) && v < |s.vms| && s.cpus[c].vm == None && !s.cpus[c].master
    ensures HasMaster(s, w) || (w == v && !s.vms[v].master) ==> HasMaster(Join(s, c, v, pc), w)
  {
    var s' := Join(s, c, v, pc);
    if HasMaster(s, w) {
      var d: nat :| s.IsCpu(d) && s.cpus[d].vm == Some(w) && s.cpus[d].master;
      assert s'.IsCpu(d) && s'.cpus[d].vm == Some(w) && s'.cpus[d].master;
    } else if w == v && !s.vms[v].master {
      assert s'.IsCpu(c) && s'.cpus[c].vm == Some(w) && s'.cpus[c].master;
    }
  }

  lemma JoinVmOk(s: State, c: nat, v: nat, pc: Pc, w: nat)
    requires CanJoin(s, c, v) && w < |s.vms| && VmOk(s, w) && s.cpus[c].vm == None && !s.cpus[c].master
    ensures VmOk(Join(s, c, v, pc), w)
  {
    JoinMembers(s, c, v, pc, w);
    JoinHasMaster(s, c, v, pc, w);
    assert w == v ==> |s.vms[v].cpus + {c}| == |s.vms[v].cpus| + 1;
  }

  lemma JoinOneMaster(s: State, c: nat, v: nat, pc: Pc)
    requires OneMaster(s) && s.IsCpu(c) && v < |s.vms| == |s.configs| && VmOk(s, v)
    ensures OneMaster(Join(s, c, v, pc))
  {
    assert !s.vms[v].master ==> forall d: nat :: s.IsCpu(d) && s.cpus[d].vm == Some(v) ==> d in Members(s, v);
  }

  lemma JoinKeepsInv(s: State, c: nat, v: nat, pc: Pc)
    requires AssignInv(s) && Ready(s) && CanJoin(s, c, v) && s.cpus[c].vm == None
    requires c !in s.configs[v].affinity ==> pc.Passed() >= 2 && PreferredFull(s, c, |s.configs|)
    requires BarrierInv(Join(s, c, v, pc)) && pc.Passed() > 0
    ensures AssignInv(Join(s, c, v, pc))
  {
    var s' := Join(s, c, v, pc);
    assert CpuOk(s, c) && VmOk(s, v);
    forall w | 0 <= w < |s'.vms|
      ensures VmOk(s', w)
    {
      assert VmOk(s, w);
      JoinVmOk(s, c, v, pc, w);
    }
    forall d | 0 <= d < |s'.cpus|
      ensures CpuOk(s', d)
    {
      assert CpuOk(s, d);
      JoinCpuOk(s, c, v, pc, d);
    }
    JoinOneMaster(s, c, v, pc);
  }

  lemma JoinCpuOk(s: State, c: nat, v: nat, pc: Pc, d: nat)
    requires CanJoin(s, c, v) && s.cpus[c].vm == None && s.IsCpu(d) && CpuOk(s, d) && pc.Passed() > 0
    requires c !in s.configs[v].affinity ==> pc.Passed() >= 2 && PreferredFull(s, c, |s.configs|)
    ensures CpuOk(Join(s, c, v, pc), d)
  {
    var s' := Join(s, c, v, pc);
    assert forall w :: Full(s, w) ==> Full(s', w);
    FullKept(s, s', d, Tried1(s, s.cpus[d].pc), Tried2(s, s.cpus[d].pc));
    FullKept(s, s', d, |s.configs|, 0);
  }

  /** What a CPU knows after a step that does not give it a machine. */
  lemma StepCpuOk(s: State, c: nat)
    requires AssignInv(s) && s.IsCpu(c) && !s.cpus[c].pc.Start? && Step(s, c).cpus[c].vm == s.cpus[c].vm
    ensures CpuOk(Step(s, c), c)
  {
    var s' := Step(s, c);
    var pc := s.cpus[c].pc;
    assert CpuOk(s, c);
    if s.cpus[c].vm == None {
      if pc.Phase1? || pc.Phase2? {
        PassedReady(s, c);
        assert pc.next < |s.vms| ==> VmOk(s, pc.next);
      }
      FullKept(s, s', c, Tried1(s, pc), Tried2(s, pc));
      assert PreferredFull(s', c, Tried1(s', s'.cpus[c].pc));
      assert AllFull(s', Tried2(s', s'.cpus[c].pc));
    }
  }

  /** A step that changes the CPU's machine gives one to a CPU that had none. */
  lemma JoiningStep(s: State, c: nat)
    requires AssignInv(s) && s.IsCpu(c) && Ready(s) && Step(s, c).cpus[c].vm != s.cpus[c].vm
    ensures var pc, pc' := s.cpus[c].pc, Step(s, c).cpus[c].pc;
            && (pc.Phase1? || pc.Phase2?) && CanJoin(s, c, pc.next) && s.cpus[c].vm == None
            && Step(s, c) == Join(s, c, pc.next, pc') && pc'.Passed() > 0
            && (c !in s.configs[pc.next].affinity ==> pc'.Passed() >= 2 && PreferredFull(s, c, |s.configs|))
  {
    assert CpuOk(s, c);
  }

  /** Any other step moves the program counter, and the barrier's counter perhaps. */
  lemma MovingStep(s: State, c: nat)
    requires s.IsCpu(c) && !s.cpus[c].pc.Start? && Step(s, c).cpus[c].vm == s.cpus[c].vm
    ensures var s' := Step(s, c);
            && s'.vms == s.vms && s'.configs == s.configs && |s'.cpus| == |s.cpus| && !s'.cpus[c].pc.Start?
            && s'.cpus == s.cpus[c := s.cpus[c].(pc := s'.cpus[c].pc)]
  {
  }

  lemma StepKeepsInv(s: State, c: nat)
    requires AssignInv(s) && s.IsCpu(c)
    ensures AssignInv(Step(s, c))
  {
    var s' := Step(s, c);
    var pc := s.cpus[c].pc;
    StepKeepsBarrierInv(s, c);
    if pc.Start? {
      StartKeepsInv(s, c);
    } else if s'.cpus[c].vm != s.cpus[c].vm {
      PassedReady(s, c);
      JoiningStep(s, c);
      JoinKeepsInv(s, c, pc.next, s'.cpus[c].pc);
    } else {
      MovingStep(s, c);
      StepCpuOk(s, c);
      MoveKeepsInv(s, s', c);
    }
  }

  // ---------------------------------------------------------------------
  // Whole runs
  // ---------------------------------------------------------------------

  lemma {:induction false} TotalStart(cpus: seq<Cpu>)
    requires forall c :: 0 <= c < |cpus| ==> cpus[c].pc == Start
    ensures TotalEntered(cpus) == 0
  {
    if cpus != [] {
      TotalStart(cpus[..|cpus| - 1]);
    }
  }

  lemma {:induction false} RunKeepsInv(states: seq<State>, schedule: seq<nat>, i: nat)
    requires IsRun(states, schedule) && i < |states|
    ensures AssignInv(states[i]) && states[i].configs == states[0].configs && |states[i].cpus| == |states[0].cpus|
  {
    if i == 0 {
      TotalStart(states[0].cpus);
    } else {
      RunKeepsInv(states, schedule, i - 1);
      StepKeepsInv(states[i - 1], schedule[i - 1]);
    }
  }

  /** No CPU leaves its k-th barrier before every CPU has entered its own. */
  lemma BarrierHolds(states: seq<State>, schedule: seq<nat>, i: nat, c: nat, d: nat)
    requires IsRun(states, schedule) && i < |states| && states[i].IsCpu(c) && states[i].IsCpu(d)
    ensures states[i].cpus[c].pc.Passed() <= states[i].cpus[d].pc.Entered()
  {
    RunKeepsInv(states, schedule, i);
  }

  /**
    Once a CPU has passed the first barrier: the machines' CPU sets are disjoint,
    each non-empty one has exactly one master, and the count is the size of the
    set and no more than asked for, except that a machine that asks for none may
    still get one CPU, which it must prefer.
   */
  lemma MachinesAreWellFormed(states: seq<State>, schedule: seq<nat>, i: nat, c: nat, v: nat, w: nat)
    requires IsRun(states, schedule) && i < |states| && states[i].IsCpu(c) && states[i].cpus[c].pc.Passed() > 0
    requires v < |states[i].configs| && w < |states[i].configs|
    ensures var s := states[i];
            && |s.vms| == |s.configs|
            && (v != w ==> s.vms[v].cpus !! s.vms[w].cpus)
            && s.vms[v].ncpus == |s.vms[v].cpus| <= (if s.configs[v].cpuNum == 0 then 1 else s.configs[v].cpuNum)
            && (s.configs[v].cpuNum == 0 ==> s.vms[v].cpus <= s.configs[v].affinity)
            && (s.vms[v].cpus != {} ==>
                  exists m: nat :: m in s.vms[v].cpus && s.IsCpu(m) && s.cpus[m].master
                    && forall d: nat :: d in s.vms[v].cpus && s.IsCpu(d) && s.cpus[d].master ==> d == m)
  {
    var s := states[i];
    RunKeepsInv(states, schedule, i);
    PassedReady(s, c);
    assert VmOk(s, v) && VmOk(s, w);
    if s.vms[v].cpus != {} {
      var m: nat :| s.IsCpu(m) && s.cpus[m].vm == Some(v) && s.cpus[m].master;
      assert m in Members(s, v);
    }
  }

  /** A machine that asks for no CPU gets one all the same when a CPU prefers it: a run of a single CPU that ends so. */
  lemma MachineWithoutDemandGetsCpu() returns (states: seq<State>, schedule: seq<nat>)
    ensures IsRun(states, schedule) && |states| == 5
    ensures |states[4].configs| == 1 == |states[4].vms| && states[4].configs[0].cpuNum == 0 &&
            states[4].vms[0].ncpus == 1
  {
    var s0 := State([Config({0}, 0)], [Cpu(Start, None, false)], [], 0, 0);
    var s1 := Step(s0, 0);
    assert s1.cpus[0].pc == Enter(0) && s1.vms == [Assignment(false, 0, {})];
    var s2 := Step(s1, 0);
    assert Align(1, 1) == 1;
    assert s2.cpus[0].pc == Wait(0, 1) && s2.count == 1;
    var s3 := Step(s2, 0);
    var s4 := Step(s3, 0);
    assert s4 == Phase1Step(s3, 0, 0);
    states, schedule := [s0, s1, s2, s3, s4], [0, 0, 0, 0];
  }

  /**
    Affinity comes first. Until a CPU is past the second barrier, it is given to a
    machine only if the machine prefers it. In every state, a CPU given to a machine
    that does not prefer it has found all machines full that do; and once any CPU is
    past the second barrier, so has every CPU without a machine.
   */
  lemma AffinityFirst(states: seq<State>, schedule: seq<nat>, i: nat, d: nat, v: nat)
    requires IsRun(states, schedule) && i < |states| && states[i].IsCpu(d) && v < |states[i].configs|
    ensures states[i].cpus[d].vm == Some(v) && states[i].cpus[d].pc.Passed() <= 1 ==>
              d in states[i].configs[v].affinity
    ensures forall w: nat :: states[i].cpus[d].vm == Some(w) && w < |states[i].configs| ==>
              d in states[i].configs[v].affinity && d !in states[i].configs[w].affinity ==> Full(states[i], v)
    ensures d in states[i].configs[v].affinity && states[i].cpus[d].vm == None ==>
              forall c: nat :: states[i].IsCpu(c) && states[i].cpus[c].pc.Passed() >= 2 ==> Full(states[i], v)
  {
    var s := states[i];
    RunKeepsInv(states, schedule, i);
    assert CpuOk(s, d);
    if c: nat :| s.IsCpu(c) && s.cpus[c].pc.Passed() >= 2 {
      assert s.cpus[c].pc.Passed() <= s.cpus[d].pc.Entered();
    }
  }

  // ---------------------------------------------------------------------
  // Enough CPUs
  // ---------------------------------------------------------------------

  ghost function TotalWanted(configs: seq<Config>): nat
  {
    if configs == [] then 0 else TotalWanted(configs[..|configs| - 1]) + configs[|configs| - 1].cpuNum
  }

  ghost function TotalTaken(vms: seq<Assignment>): nat
  {
    if vms == [] then 0 else TotalTaken(vms[..|vms| - 1]) + vms[|vms| - 1].ncpus
  }

  /** The CPUs of the first m machines. */
  ghost function Union(s: State, m: nat): set<nat>
  {
    set c: nat | c < |s.cpus| && s.cpus[c].vm.Some? && s.cpus[c].vm.value < m
  }

  lemma {:induction false} TakenIsUnion(s: State, m: nat)
    requires m <= |s.vms| == |s.configs| && forall v :: 0 <= v < |s.vms| ==> VmOk(s, v)
    ensures TotalTaken(s.vms[..m]) == |Union(s, m)|
  {
    if m > 0 {
      TakenIsUnion(s, m - 1);
      assert VmOk(s, m - 1);
      assert Union(s, m) == Union(s, m - 1) + Members(s, m - 1);
      assert s.vms[..m][..m - 1] == s.vms[..m - 1];
    } else {
      assert Union(s, 0) == {};
    }
  }

  lemma {:induction false} RangeSize(u: set<nat>, n: nat)
    requires forall c: nat :: c in u <==> c < n
    ensures |u| == n
  {
    if n > 0 {
      assert n - 1 in u;
      RangeSize(u - {n - 1}, n - 1);
    } else {
      assert u == {};
    }
  }

  lemma {:induction false} TakenBelowWanted(vms: seq<Assignment>, configs: seq<Config>, v: nat)
    requires |vms| == |configs| && forall w :: 0 <= w < |vms| ==> vms[w].ncpus <= configs[w].cpuNum
    ensures TotalTaken(vms) <= TotalWanted(configs)
    ensures v < |vms| && vms[v].ncpus < configs[v].cpuNum ==> TotalTaken(vms) < TotalWanted(configs)
  {
    if vms != [] {
      TakenBelowWanted(vms[..|vms| - 1], configs[..|configs| - 1], v);
    }
  }

  /**
    If there are as many CPUs as the machines ask for together, every machine ends
    up with exactly what it asked for, provided that a machine that asks for none
    prefers none.
   */
  lemma EnoughCpusFillAllMachines(states: seq<State>, schedule: seq<nat>, i: nat, v: nat)
    requires IsRun(states, schedule) && i < |states| && v < |states[i].configs|
    requires |states[i].cpus| > 0 && forall c :: 0 <= c < |states[i].cpus| ==> states[i].cpus[c].pc == Done
    requires forall w :: 0 <= w < |states[i].configs| && states[i].configs[w].cpuNum == 0 ==>
               forall c :: 0 <= c < |states[i].cpus| ==> c !in states[i].configs[w].affinity
    requires TotalWanted(states[i].configs) <= |states[i].cpus|
    ensures v < |states[i].vms| && states[i].vms[v].ncpus == states[i].configs[v].cpuNum
  {
    var s := states[i];
    RunKeepsInv(states, schedule, i);
    assert s.cpus[CPU_MASTER].pc == Done;
    forall w | 0 <= w < |s.vms|
      ensures s.vms[w].ncpus <= s.configs[w].cpuNum
    {
      assert VmOk(s, w);
      assert s.configs[w].cpuNum == 0 ==> Members(s, w) == {};
    }
    if s.vms[v].ncpus < s.configs[v].cpuNum {
      AllAssigned(s, v);
      TakenIsUnion(s, |s.vms|);
      assert s.vms[..|s.vms|] == s.vms;
      TakenBelowWanted(s.vms, s.configs, v);
    }
  }

  /** A machine that is not full at the end has left no CPU without a machine. */
  lemma AllAssigned(s: State, v: nat)
    requires AssignInv(s) && v < |s.vms| == |s.configs| && !Full(s, v)
    requires forall c :: 0 <= c < |s.cpus| ==> s.cpus[c].pc == Done
    ensures |Union(s, |s.vms|)| == |s.cpus|
  {
    forall c: nat | c < |s.cpus|
      ensures c in Union(s, |s.vms|)
    {
      assert CpuOk(s, c);
    }
    RangeSize(Union(s, |s.vms|), |s.cpus|);
  }

  // ---------------------------------------------------------------------
  // Nobody is stuck at a barrier
  // ---------------------------------------------------------------------

  ghost predicate AllDone(s: State)
  {
    forall c :: 0 <= c < |s.cpus| ==> s.cpus[c].pc == Done
  }

  /** How many steps a CPU has left, not counting those in which it waits; n is the number of machines. */
  function StepsLeft(pc: Pc, n: nat): nat
  {
    match pc
    case Start => 9 + 2 * n
    case Enter(k) => if k == 0 then 8 + 2 * n else if k == 1 then 5 + n else 2
    case Wait(k, _) => if k == 0 then 7 + 2 * n else if k == 1 then 4 + n else 1
    case Phase1(v) => 6 + n + (if v < n then n - v else 0)
    case Phase2(v) => 3 + (if v < n then n - v else 0)
    case Done => 0
  }

  ghost function TotalLeft(cpus: seq<Cpu>, n: nat): nat
  {
    if cpus == [] then 0 else TotalLeft(cpus[..|cpus| - 1], n) + StepsLeft(cpus[|cpus| - 1].pc, n)
  }

  lemma {:induction false} TotalLeftUpdate(cpus: seq<Cpu>, n: nat, c: nat, cpu: Cpu)
    requires c < |cpus|
    ensures TotalLeft(cpus[c := cpu], n) == TotalLeft(cpus, n) - StepsLeft(cpus[c].pc, n) + StepsLeft(cpu.pc, n)
  {
    var last := |cpus| - 1;
    if c == last {
      assert cpus[c := cpu][..last] == cpus[..last];
    } else {
      assert cpus[c := cpu][..last] == cpus[..last][c := cpu];
      TotalLeftUpdate(cpus[..last], n, c, cpu);
    }
  }

  /** The CPU is done, or waits at a barrier that not all have reached. */
  predicate Waits(s: State, c: nat)
    requires s.IsCpu(c)
  {
    s.cpus[c].pc == Done || (s.cpus[c].pc.Wait? && s.count < s.cpus[c].pc.target)
  }

  lemma StepMakesProgress(s: State, c: nat)
    requires BarrierInv(s) && s.IsCpu(c) && !Waits(s, c)
    ensures TotalLeft(Step(s, c).cpus, |s.configs|) < TotalLeft(s.cpus, |s.configs|)
  {
    var cpu := Step(s, c).cpus[c];
    StepLeaves(s, c);
    assert Step(s, c).cpus == s.cpus[c := cpu];
    TotalLeftUpdate(s.cpus, |s.configs|, c, cpu);
  }

  lemma StepLeaves(s: State, c: nat)
    requires BarrierInv(s) && s.IsCpu(c) && !Waits(s, c)
    ensures StepsLeft(Step(s, c).cpus[c].pc, |s.configs|) < StepsLeft(s.cpus[c].pc, |s.configs|)
  {
  }

  /** A CPU at the barrier that is behind all others does not wait there. */
  lemma LastToArriveGoesOn(s: State, c: nat)
    requires BarrierInv(s) && s.IsCpu(c) && s.cpus[c].pc.Wait?
    requires forall d :: 0 <= d < |s.cpus| ==> s.cpus[c].pc.k + 1 <= s.cpus[d].pc.Entered()
    ensures s.cpus[c].pc.target <= s.count
  {
    var k, n := s.cpus[c].pc.k, |s.cpus|;
    TotalLow(s.cpus, k + 1);
    assert (s.before + k + 1) * n == s.before * n + n * (k + 1);
  }

  /** A CPU that is not done and has entered no more barriers than any other. */
  lemma LeastAdvanced(s: State) returns (c: nat)
    requires BarrierInv(s) && !AllDone(s)
    ensures s.IsCpu(c) && s.cpus[c].pc != Done
    ensures forall d :: 0 <= d < |s.cpus| ==> s.cpus[c].pc.Entered() <= s.cpus[d].pc.Entered()
  {
    if b :| 0 <= b < |s.cpus| && s.cpus[b].pc != Done && s.cpus[b].pc.Entered() == 0 {
      c := b;
    } else if b :| 0 <= b < |s.cpus| && s.cpus[b].pc != Done && s.cpus[b].pc.Entered() == 1 {
      c := b;
    } else if b :| 0 <= b < |s.cpus| && s.cpus[b].pc != Done && s.cpus[b].pc.Entered() == 2 {
      c := b;
    } else {
      c :| 0 <= c < |s.cpus| && s.cpus[c].pc != Done;
    }
  }

  /** Until all are done, some CPU can go on. */
  lemma SomebodyGoesOn(s: State) returns (c: nat)
    requires BarrierInv(s) && !AllDone(s)
    ensures s.IsCpu(c) && !Waits(s, c)
  {
    c := LeastAdvanced(s);
    if s.cpus[c].pc.Wait? {
      LastToArriveGoesOn(s, c);
    }
  }

  /** Every run can go on until all CPUs are done: no barrier holds anyone for ever. */
  lemma {:induction false} AllCanFinish(states: seq<State>, schedule: seq<nat>)
    returns (states': seq<State>, schedule': seq<nat>)
    requires IsRun(states, schedule)
    ensures IsRun(states', schedule') && states <= states' && schedule <= schedule' && AllDone(states'[|states'| - 1])
    decreases TotalLeft(states[|states| - 1].cpus, |states[0].configs|)
  {
    var s := states[|states| - 1];
    RunKeepsInv(states, schedule, |states| - 1);
    if AllDone(s) {
      return states, schedule;
    }
    var c := SomebodyGoesOn(s);
    StepMakesProgress(s, c);
    var longer, plan := Extend(states, schedule, c);
    states', schedule' := AllCanFinish(longer, plan);
  }

  lemma Extend(states: seq<State>, schedule: seq<nat>, c: nat) returns (longer: seq<State>, plan: seq<nat>)
    requires IsRun(states, schedule) && states[|states| - 1].IsCpu(c)
    ensures IsRun(longer, plan) && states <= longer && schedule <= plan && |longer| == |states| + 1
    ensures longer[|states|] == Step(states[|states| - 1], c)
  {
    longer, plan := states + [Step(states[|states| - 1], c)], schedule + [c];
  }
}
