/**
  sanitize_domain, and the loop of sbi_domain_root_add_memregion that sanitizes and
  merges until nothing merges (opensbi/lib/sbi/sbi_domain.c), on lists.
 */
module Sanitize {
  import opened Basics
  import opened Bits
  import opened Domain
  import opened RegionSort
  import opened ConflictCheck

  /** Which check of sanitize_domain failed; the source answers SBI_EINVAL for all of them. */
  datatype Verdict = Sane | BadHarts | InvalidRegion | NoFirmware | Conflicting | BadMode | NotExecutable

  /** What sanitize_domain looks at beside the regions. */
  datatype Checks = Checks(hartsValid: bool, firmware: Region, nextAddr: Word, nextMode: Mode)

  datatype Checked = Checked(list: seq<Region>, verdict: Verdict)

  const EXECUTE := Access(false, false, true, false)

  /** sanitize_domain */
  function Sanitized(s: seq<Region>, checks: Checks): (r: Checked)
    ensures |r.list| == |s|
  {
    if !checks.hartsValid then Checked(s, BadHarts)
    else if exists r <- s :: !IsRegionValid(r) then Checked(s, InvalidRegion)
    else if checks.firmware !in s then Checked(s, NoFirmware)
    else
      var sorting := SortFrom(s, 0);
      Checked(sorting.list,
              if !sorting.sane then Conflicting
              else if checks.nextMode != S && checks.nextMode != U then BadMode
              else if !Allowed(sorting.list, checks.nextMode, checks.nextAddr, EXECUTE) then NotExecutable
              else Sane)
  }

  /** Whatever the verdict, the regions are only permuted; a sane domain is sorted and can execute its next stage. */
  lemma SanitizedKeeps(s: seq<Region>, checks: Checks)
    ensures var r := Sanitized(s, checks);
            && multiset(r.list) == multiset(s)
            && (r.verdict == Conflicting ==> HasConflict(r.list))
            && (r.verdict in {BadMode, NotExecutable, Sane} ==> Sorted(r.list))
            && (r.verdict == Sane ==>
                  && AllValid(r.list) && checks.firmware in r.list && checks.nextMode != M
                  && Allowed(r.list, checks.nextMode, checks.nextAddr, EXECUTE))
  {
    SortKeeps(s, 0);
    var r := Sanitized(s, checks);
    if r.verdict == Sane {
      forall q | q in r.list
        ensures IsRegionValid(q)
      {
        assert q in multiset(s);
      }
      assert checks.firmware in multiset(s);
    }
  }

  /** A sorted list is left as it is, and is sane exactly if all it is checked for holds, conflicts included. */
  lemma SanitizedSorted(s: seq<Region>, checks: Checks)
    requires Sorted(s)
    ensures Sanitized(s, checks).list == s
    ensures Sanitized(s, checks).verdict == Sane
            <==> && checks.hartsValid && AllValid(s) && checks.firmware in s && !HasConflict(s)
                 && (checks.nextMode == S || checks.nextMode == U)
                 && Allowed(s, checks.nextMode, checks.nextAddr, EXECUTE)
  {
    SortSorted(s);
  }

  /**
    A list without equal keys is sane if and only if all it is checked for holds and
    every conflict in it is hidden from the sort; t is its one sorted order.
   */
  lemma SanitizedIff(s: seq<Region>, t: seq<Region>, checks: Checks)
    requires DistinctKeys(s) && Sorted(t) && multiset(t) == multiset(s)
    ensures Sanitized(s, checks).verdict == Sane
            <==> && checks.hartsValid && AllValid(s) && checks.firmware in s && ConflictsHidden(s)
                 && (checks.nextMode == S || checks.nextMode == U)
                 && Allowed(t, checks.nextMode, checks.nextAddr, EXECUTE)
    ensures Sanitized(s, checks).verdict == Conflicting
            <==> checks.hartsValid && AllValid(s) && checks.firmware in s && !ConflictsHidden(s)
  {
    SaneIffConflictsHidden(s);
    SortKeeps(s, 0);
    if SortFrom(s, 0).sane {
      PermutationDistinctKeys(s, t);
      SortedUnique(t, SortFrom(s, 0).list);
    }
  }

  /**
    In any list, a hidden conflict is never reported, and one of a region with a
    later one that does not belong before it always is.
   */
  lemma SanitizedHalves(s: seq<Region>, checks: Checks)
    ensures ConflictsHidden(s) ==> Sanitized(s, checks).verdict != Conflicting
    ensures (exists p: nat, q: nat :: p < q < |s| && IsRegionConflict(s[q], s[p]) && !IsRegionBefore(s[q], s[p])) ==>
              Sanitized(s, checks).verdict in {BadHarts, InvalidRegion, NoFirmware, Conflicting}
  {
    if ConflictsHidden(s) {
      HiddenConflictsPass(s);
    }
    if p: nat, q: nat :| p < q < |s| && IsRegionConflict(s[q], s[p]) && !IsRegionBefore(s[q], s[p]) {
      OrderedConflictsAreSeen(s, p, q);
    }
  }

  // ---------------------------------------------------------------------
  // Sanitize and merge until nothing merges
  // ---------------------------------------------------------------------

  /** The loop of root_add_memregion. */
  function Settling(s: seq<Region>, checks: Checks): Checked
    decreases |s|
  {
    var r := Sanitized(s, checks);
    var merged := MergePass(r.list);
    if r.verdict != Sane || |merged| == |r.list| then r else Settling(merged, checks)
  }

  /** The sorted lists it goes through. */
  ghost function Trace(s: seq<Region>, checks: Checks): (trace: seq<seq<Region>>)
    ensures trace != [] && trace[0] == Sanitized(s, checks).list
    decreases |s|
  {
    var r := Sanitized(s, checks);
    var merged := MergePass(r.list);
    [r.list] + if r.verdict != Sane || |merged| == |r.list| then [] else Trace(merged, checks)
  }

  lemma {:induction false} RoundsPrepend(s: seq<Region>, trace: seq<seq<Region>>)
    requires Sorted(s) && Rounds(trace) && IsRound(s, trace[0])
    ensures Rounds([s] + trace)
  {
    var n := |trace| - 1;
    assert ([s] + trace)[..n + 1] == [s] + trace[..n];
    if n > 0 {
      RoundsPrepend(s, trace[..n]);
    } else {
      assert Rounds([s]);
    }
  }

  /** When the loop ends well, its trace is a run of rounds to a list without anything to merge. */
  ghost predicate Settled(all: seq<Region>, trace: seq<seq<Region>>, final: seq<Region>)
  {
    && Rounds(trace) && multiset(trace[0]) == multiset(all)
    && trace[|trace| - 1] == final && MergePass(final) == final
  }

  lemma {:induction false} SettlingSettles(s: seq<Region>, checks: Checks)
    requires Settling(s, checks).verdict == Sane
    ensures Settled(s, Trace(s, checks), Settling(s, checks).list)
    decreases |s|
  {
    var r := Sanitized(s, checks);
    var merged := MergePass(r.list);
    SanitizedKeeps(s, checks);
    if r.verdict == Sane && |merged| < |r.list| {
      SettlingSettles(merged, checks);
      SanitizedKeeps(merged, checks);
      RoundsPrepend(r.list, Trace(merged, checks));
    } else {
      assert Trace(s, checks)[..0] == [];
    }
  }

  /**
    The final table decides every access as the unmerged sorted one, if no two
    regions ever share order and base; separated regions never do.
   */
  lemma SettledKeepsDecisions(all: seq<Region>, trace: seq<seq<Region>>, final: seq<Region>)
    requires Settled(all, trace, final)
    ensures AllAligned(all) && NeverEqualKeys(trace) ==> SameDecisions(trace[0], final)
    ensures Separated(all) ==> NeverEqualKeys(trace)
  {
    if Separated(all) {
      PermutationSeparated(all, trace[0]);
      SeparatedSuffices(trace);
    }
    if AllAligned(all) && NeverEqualKeys(trace) {
      PermutationAligned(all, trace[0]);
      RoundsKeepDecisions(trace);
    }
  }

  /** A table whose sorted order t holds nothing to merge, and passes the checks, settles at once. */
  lemma SettlesAtOnce(s: seq<Region>, t: seq<Region>, checks: Checks)
    requires DistinctKeys(s) && Sorted(t) && multiset(t) == multiset(s) && MergePass(t) == t
    requires checks.hartsValid && AllValid(s) && checks.firmware in s && ConflictsHidden(s)
    requires (checks.nextMode == S || checks.nextMode == U) && Allowed(t, checks.nextMode, checks.nextAddr, EXECUTE)
    ensures Settling(s, checks) == Checked(t, Sane)
  {
    SanitizedIff(s, t, checks);
    SanitizedKeeps(s, checks);
    PermutationDistinctKeys(s, t);
    SortedUnique(t, Sanitized(s, checks).list);
  }

  // ---------------------------------------------------------------------
  // What an added region does
  // ---------------------------------------------------------------------

  /** Where the new region is the smallest that S-mode or U-mode sees, it alone decides. */
  ghost predicate NewDecides(s: seq<Region>, reg: Region, final: seq<Region>)
  {
    forall mode: Mode, a: Word, access: Access ::
      mode != M && reg.base <= a < reg.base + Pow2(reg.order) &&
      (forall q <- s :: q.base <= a < q.base + Pow2(q.order) ==> reg.order < q.order) ==>
        (Allowed(final, mode, a, access)
         <==> && access.mmio == reg.flags.mmio && (access.read ==> reg.flags.readable)
              && (access.write ==> reg.flags.writeable) && (access.execute ==> reg.flags.executable))
  }

  /** Outside the new region, and for M-mode unless it is marked for it, all is decided as before. */
  ghost predicate OthersStay(s: seq<Region>, reg: Region, final: seq<Region>)
  {
    forall mode: Mode, a: Word, access: Access ::
      !(reg.base <= a < reg.base + Pow2(reg.order)) || (mode == M && !reg.flags.mmode) ==>
        Allowed(final, mode, a, access) == Allowed(s, mode, a, access)
  }

  lemma NewAnswers(s: seq<Region>, reg: Region, t: seq<Region>, mode: Mode, a: Word)
    requires Sorted(t) && multiset(t) == multiset(s + [reg]) && AllAligned(t) && DistinctKeys(t)
    requires Matches(reg, mode, a) && forall q <- s :: Matches(q, mode, a) ==> reg.order < q.order
    ensures Answer(t, mode, a) == Some(reg.flags)
  {
    assert reg in multiset(s + [reg]);
    forall q | q in t && Matches(q, mode, a)
      ensures reg.order <= q.order
    {
      assert q in multiset(s + [reg]);
    }
    SmallestAnswers(t, mode, a, reg);
  }

  lemma OldAnswers(s: seq<Region>, reg: Region, t: seq<Region>, mode: Mode, a: Word)
    requires Sorted(t) && multiset(t) == multiset(s + [reg]) && AllAligned(t) && DistinctKeys(t)
    requires Sorted(s) && !Matches(reg, mode, a)
    ensures Answer(t, mode, a) == Answer(s, mode, a)
  {
    var i := First(s, mode, a);
    forall q | q in t && Matches(q, mode, a)
      ensures i < |s| && s[i].order <= q.order
    {
      assert q in multiset(s + [reg]);
      var j :| 0 <= j < |s| && s[j] == q;
      assert i == j || !IsRegionBefore(s[j], s[i]);
    }
    if i < |s| {
      assert s[i] in multiset(s + [reg]);
      SmallestAnswers(t, mode, a, s[i]);
    } else {
      NoneAnswers(t, mode, a);
    }
  }

  lemma SortedWithNewDecides(s: seq<Region>, reg: Region, t: seq<Region>)
    requires Sorted(t) && multiset(t) == multiset(s + [reg]) && AllAligned(s + [reg]) && DistinctKeys(s + [reg])
    ensures NewDecides(s, reg, t)
    ensures Sorted(s) ==> OthersStay(s, reg, t)
  {
    PermutationAligned(s + [reg], t);
    PermutationDistinctKeys(s + [reg], t);
    assert reg in s + [reg];
    forall mode: Mode, a: Word, access: Access |
      mode != M && reg.base <= a < reg.base + Pow2(reg.order) &&
      (forall q <- s :: q.base <= a < q.base + Pow2(q.order) ==> reg.order < q.order)
      ensures Allowed(t, mode, a, access)
              <==> && access.mmio == reg.flags.mmio && (access.read ==> reg.flags.readable)
                   && (access.write ==> reg.flags.writeable) && (access.execute ==> reg.flags.executable)
    {
      ContainsAligned(reg, a);
      ContainedIn(s, reg, a);
      NewAnswers(s, reg, t, mode, a);
    }
    if Sorted(s) {
      forall mode: Mode, a: Word, access: Access |
        !(reg.base <= a < reg.base + Pow2(reg.order)) || (mode == M && !reg.flags.mmode)
        ensures Allowed(t, mode, a, access) == Allowed(s, mode, a, access)
      {
        ContainsAligned(reg, a);
        OldAnswers(s, reg, t, mode, a);
      }
    }
  }

  lemma ContainedIn(s: seq<Region>, reg: Region, a: Word)
    requires AllAligned(s + [reg])
    ensures forall q <- s :: Contains(q, a) <==> q.base <= a < q.base + Pow2(q.order)
  {
    forall q | q in s
      ensures Contains(q, a) <==> q.base <= a < q.base + Pow2(q.order)
    {
      assert q in s + [reg];
      ContainsAligned(q, a);
    }
  }

  /** All that settling a table with a new region does to decisions, for separated regions. */
  lemma SettledWithNew(s: seq<Region>, reg: Region, trace: seq<seq<Region>>, final: seq<Region>)
    requires Settled(s + [reg], trace, final) && AllAligned(s + [reg]) && Separated(s + [reg])
    ensures Sorted(trace[0]) && SameDecisions(trace[0], final)
    ensures NewDecides(s, reg, final) && (Sorted(s) ==> OthersStay(s, reg, final))
  {
    SettledKeepsDecisions(s + [reg], trace, final);
    FirstRoundSorted(trace);
    SortedWithNewDecides(s, reg, trace[0]);
  }

  lemma {:induction false} FirstRoundSorted(trace: seq<seq<Region>>)
    requires Rounds(trace)
    ensures Sorted(trace[0])
  {
    if |trace| > 1 {
      FirstRoundSorted(trace[..|trace| - 1]);
    }
  }

  /** A settled table holds no two neighbours that are the halves of an aligned region with the same flags. */
  ghost predicate NoHalves(s: seq<Region>)
  {
    forall i, j :: 0 <= i < |s| - 1 && j == i + 1 ==> !Halves(s[i], s[j])
  }

  lemma NothingMergesIff(s: seq<Region>)
    requires Sorted(s) && AllAligned(s)
    ensures MergePass(s) == s <==> NoHalves(s)
  {
    forall i, j | 0 <= i < |s| - 1 && j == i + 1
      ensures Mergeable(s[i], s[j]) <==> Halves(s[i], s[j])
    {
      assert s[i] in s && s[j] in s;
      MergeableIff(s[i], s[j]);
    }
    NothingMerges(s);
  }

  ghost predicate NoneMerge(s: seq<Region>)
  {
    forall i, j :: 0 <= i < |s| - 1 && j == i + 1 ==> !Mergeable(s[i], s[j])
  }

  lemma NoneMergeTail(s: seq<Region>)
    requires |s| >= 2
    ensures NoneMerge(s) <==> !Mergeable(s[0], s[1]) && NoneMerge(s[1..])
  {
    var t := s[1..];
    assert forall i :: 0 <= i < |t| ==> t[i] == s[i + 1];
    if !Mergeable(s[0], s[1]) && NoneMerge(t) {
      forall i, j | 0 <= i < |s| - 1 && j == i + 1
        ensures !Mergeable(s[i], s[j])
      {
        if i > 0 {
          assert !Mergeable(t[i - 1], t[j - 1]);
        }
      }
    }
  }

  lemma {:induction false} NothingMerges(s: seq<Region>)
    ensures MergePass(s) == s <==> NoneMerge(s)
  {
    if |s| >= 2 {
      NoneMergeTail(s);
      MergePassStep(s);
      if !Mergeable(s[0], s[1]) {
        NothingMerges(s[1..]);
        assert s == [s[0]] + s[1..] && MergePass(s)[1..] == MergePass(s[1..]);
      }
    }
  }

  lemma PermutationAligned(s: seq<Region>, t: seq<Region>)
    requires AllAligned(s) && multiset(s) == multiset(t)
    ensures AllAligned(t)
  {
    forall r | r in t
      ensures Aligned(r)
    {
      assert r in multiset(s);
    }
  }
}
