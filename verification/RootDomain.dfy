/**
  The root domain's region table (opensbi/lib/sbi/sbi_domain.c): an array that
  ends with a region of order zero, sorted and merged in place.
 */
module RootDomain {
  import opened Basics
  import opened Domain
  import opened RegionSort
  import opened Sanitize

  const ROOT_REGION_MAX := 16

  datatype Outcome = Added | Refused | Insane(verdict: Verdict)

  class Root {
    /** The table; the entry after the last region has order zero. */
    const regions: array<Region>
    /** root_memregs_count: the slot that the next region is written to. */
    var count: nat
    /** How many regions come before the first of order zero. */
    ghost var len: nat
    var finalized: bool
    /** root.regions no longer points to this table. */
    var replaced: bool
    const checks: Checks

    ghost predicate Valid()
      reads this, regions
    {
      && regions.Length == ROOT_REGION_MAX + 1 && len <= count <= ROOT_REGION_MAX
      && regions[len].order == 0
      && forall i :: 0 <= i < len ==> regions[i].order != 0
    }

    /** The next region is written right behind the others, so that it becomes one of them. */
    ghost predicate Intact()
      reads this
    {
      len == count
    }

    ghost function List(): seq<Region>
      requires Valid()
      reads this, regions
    {
      regions[..len]
    }

    /** sbi_domain_check_addr */
    method CheckAddr(a: Word, mode: Mode, access: Access) returns (allowed: bool)
      requires Valid()
      ensures allowed == Allowed(List(), mode, a, access)
      ensures AllAligned(List()) ==> (allowed <==> Granted(List(), mode, a, access))
    {
      allowed := Scan(a, mode, access);
      if AllAligned(List()) {
        AllowedIff(List(), mode, a, access);
      }
    }

    /** Its loop over the regions. */
    method Scan(a: Word, mode: Mode, access: Access) returns (allowed: bool)
      requires Valid()
      ensures allowed == Allowed(List(), mode, a, access)
    {
      var i := 0;
      while regions[i].order != 0
        invariant 0 <= i <= len
        invariant forall j :: 0 <= j < i ==> !Matches(List()[j], mode, a)
        decreases len - i
      {
        var flags := regions[i].flags;
        if mode == M && !flags.mmode {
          i := i + 1;
          continue;
        }
        if regions[i].base <= a <= Last(regions[i]) {
          assert First(List(), mode, a) == i;
          if (access.mmio && !flags.mmio) || (!access.mmio && flags.mmio) {
            return false;
          }
          return (access.read ==> flags.readable) && (access.write ==> flags.writeable) &&
              (access.execute ==> flags.executable);
        }
        i := i + 1;
      }
      return mode == M;
    }

    /** The sort of sanitize_domain. */
    method SortRegions(n: nat) returns (sane: bool)
      requires Valid() && n == len > 0
      modifies regions
      ensures Valid() && Sorting(List(), sane) == SortFrom(old(List()), 0)
    {
      var i := 0;
      while i < n - 1
        invariant 0 <= i < n
        invariant Valid() && SortFrom(List(), i) == SortFrom(old(List()), 0)
      {
        var conflict := SelectLeast(n, i);
        if conflict {
          return false;
        }
        i := i + 1;
      }
      return true;
    }

    /** Its inner loop. */
    method SelectLeast(n: nat, i: nat) returns (conflict: bool)
      requires Valid() && n == len && i < n - 1
      modifies regions
      ensures Valid() && Sorting(List(), !conflict) == SelectFrom(old(List()), i, i + 1)
    {
      var j := i + 1;
      while j < n
        invariant i < j <= n
        invariant Valid() && SelectFrom(List(), i, j) == SelectFrom(old(List()), i, i + 1)
      {
        if IsRegionConflict(regions[j], regions[i]) {
          return true;
        }
        if IsRegionBefore(regions[j], regions[i]) {
          Exchange(i, j);
        }
        j := j + 1;
      }
      return false;
    }

    method Exchange(i: nat, j: nat)
      requires Valid() && i < j < len
      modifies regions
      ensures Valid() && List() == Swapped(old(List()), i, j)
    {
      var treg := regions[j];
      regions[j] := regions[i];
      regions[i] := treg;
    }

    /** The checks on regions that precede the sort. */
    method CheckRegions() returns (verdict: Verdict, n: nat)
      requires Valid()
      ensures verdict == if exists r <- List() :: !IsRegionValid(r) then InvalidRegion
                         else if checks.firmware !in List() then NoFirmware else Sane
      ensures verdict == Sane ==> n == len
    {
      var i := 0;
      while regions[i].order != 0
        invariant 0 <= i <= len && forall j :: 0 <= j < i ==> IsRegionValid(List()[j])
        decreases len - i
      {
        if !IsRegionValid(regions[i]) {
          assert List()[i] in List();
          return InvalidRegion, 0;
        }
        i := i + 1;
      }
      n := 0;
      var haveFirmware := false;
      while regions[n].order != 0
        invariant 0 <= n <= len && haveFirmware == (checks.firmware in List()[..n])
        decreases len - n
      {
        assert List()[..n + 1] == List()[..n] + [List()[n]];
        if regions[n] == checks.firmware {
          haveFirmware := true;
        }
        n := n + 1;
      }
      assert List()[..n] == List();
      verdict := if haveFirmware then Sane else NoFirmware;
    }

    /** sanitize_domain */
    method SanitizeRegions() returns (verdict: Verdict)
      requires Valid()
      modifies regions
      ensures Valid() && Checked(List(), verdict) == Sanitized(old(List()), checks)
    {
      if !checks.hartsValid {
        return BadHarts;
      }
      var n;
      verdict, n := CheckRegions();
      if verdict != Sane {
        return;
      }
      var sane := SortRegions(n);
      if !sane {
        return Conflicting;
      }
      if checks.nextMode != S && checks.nextMode != U {
        return BadMode;
      }
      var executable := CheckAddr(checks.nextAddr, checks.nextMode, EXECUTE);
      verdict := if executable then Sane else NotExecutable;
    }

    /** The copy loop of the merge: remove the region at position k. */
    method RemoveAt(k: nat)
      requires Valid() && k < len
      modifies regions, this`count, this`len
      ensures Valid() && List() == old(List()[..k] + List()[k + 1..]) && count == old(count) - 1 && len == old(len) - 1
    {
      var i := k;
      while regions[i].order != 0
        invariant k <= i <= len && len == old(len) && count == old(count) && regions.Length == ROOT_REGION_MAX + 1
        invariant forall j :: 0 <= j < k ==> regions[j] == old(regions[j])
        invariant forall j :: k <= j < i ==> regions[j] == old(regions[j + 1])
        invariant forall j :: i <= j <= len ==> regions[j] == old(regions[j])
        decreases len - i
      {
        regions[i] := regions[i + 1];
        i := i + 1;
      }
      count := count - 1;
      len := len - 1;
    }

    /** The body of the merge loop: merge the region at position i with the next one if they fit. */
    method MergeAt(i: nat) returns (merged: bool)
      requires Valid() && i < len
      modifies regions, this`count, this`len
      ensures Valid() && List() == MergedAt(old(List()), i)
      ensures (merged <==> len < old(len)) && count - len == old(count - len)
    {
      if regions[i + 1].order != 0 && Mergeable(regions[i], regions[i + 1]) {
        regions[i] := Merged(regions[i]);
        assert List() == old(List())[i := Merged(old(List())[i])];
        RemoveAt(i + 1);
        return true;
      }
      return false;
    }

    /** The merge loop: one pass over the table. */
    method MergeRegions() returns (merged: bool)
      requires Valid()
      modifies regions, this`count, this`len
      ensures Valid() && List() == MergePass(old(List()))
      ensures (merged <==> len < old(len)) && count - len == old(count - len)
    {
      merged := false;
      var i := 0;
      ghost var pass := MergePass(List());
      while regions[i].order != 0
        invariant Valid() && 0 <= i <= len
        invariant List()[..i] + MergePass(List()[i..]) == pass
        invariant len <= old(len) && (merged <==> len < old(len)) && count - len == old(count - len)
        decreases len - i
      {
        MergeOne(List(), i);
        var here := MergeAt(i);
        merged := merged || here;
        i := i + 1;
      }
    }

    /** The loop of root_add_memregion: sanitize and merge until nothing merges. */
    method Settle() returns (verdict: Verdict)
      requires Valid()
      modifies regions, this`count, this`len
      ensures Valid() && Checked(List(), verdict) == Settling(old(List()), checks) && count - len == old(count - len)
    {
      var merged := true;
      verdict := Sane;
      ghost var goal := Settling(List(), checks);
      while verdict == Sane && merged
        invariant Valid() && count - len == old(count - len)
        invariant if verdict == Sane && merged then Settling(List(), checks) == goal
                  else Checked(List(), verdict) == goal
        decreases len, verdict == Sane && merged
      {
        verdict := SanitizeRegions();
        if verdict == Sane {
          merged := MergeRegions();
        }
      }
    }

    /** A region of order zero is the table's own end mark: it takes a slot and is never seen. */
    method Append(reg: Region)
      requires Valid() && count < ROOT_REGION_MAX
      modifies regions, this`count, this`len
      ensures Valid() && count == old(count) + 1
      ensures if old(Intact()) && reg.order != 0 then List() == old(List()) + [reg] && Intact()
              else List() == old(List()) && !Intact()
    {
      regions[count] := reg;
      if Intact() && reg.order != 0 {
        len := len + 1;
      }
      count := count + 1;
      regions[count] := regions[count].(order := 0);
    }

    /**
      sbi_domain_root_add_memregion. The region joins the others, unless it or an
      earlier one has order zero; then the table settles. For aligned and separated
      regions the final table decides as the sorted, unmerged one does: where the new
      region is the smallest, as its flags say, and outside it as before.
     */
    method AddMemregion(reg: Region) returns (outcome: Outcome)
      requires Valid()
      modifies regions, this`count, this`len
      ensures Valid()
      ensures outcome == Refused <==> finalized || replaced || old(count) == ROOT_REGION_MAX
                                      || exists r <- old(List()) :: IsRegionConflict(reg, r)
      ensures outcome == Refused ==> List() == old(List()) && count == old(count)
      ensures outcome != Refused ==>
                && (Intact() <==> old(Intact()) && reg.order != 0)
                && Checked(List(), VerdictOf(outcome))
                   == Settling(if Intact() then old(List()) + [reg] else old(List()), checks)
      ensures outcome == Added && Intact() ==>
                && (exists t: seq<Region> :: Sorted(t) && multiset(t) == multiset(old(List()) + [reg])
                     && (AllAligned(t) && Separated(t) ==> SameDecisions(t, List())))
                && (AllAligned(old(List()) + [reg]) && Separated(old(List()) + [reg]) ==>
                      && NewDecides(old(List()), reg, List())
                      && (Sorted(old(List())) ==> OthersStay(old(List()), reg, List())))
      ensures outcome == Added ==> Sorted(List()) && (AllAligned(List()) ==> NoHalves(List()))
    {
      if finalized || replaced || ROOT_REGION_MAX <= count {
        return Refused;
      }
      var clash := ConflictsWith(reg);
      if clash {
        return Refused;
      }
      ghost var before := List();
      Append(reg);
      ghost var all := List();
      var verdict := Settle();
      if verdict != Sane {
        return Insane(verdict);
      }
      AddedSettles(all, List());
      if Intact() {
        AddedDecides(before, reg, List());
      }
      return Added;
    }

    lemma AddedSettles(all: seq<Region>, final: seq<Region>)
      requires Checked(final, Sane) == Settling(all, checks)
      ensures Settled(all, Trace(all, checks), final) && Sorted(final) && (AllAligned(final) ==> NoHalves(final))
    {
      SettlingSettles(all, checks);
      if AllAligned(final) {
        NothingMergesIff(final);
      }
    }

    lemma AddedDecides(before: seq<Region>, reg: Region, final: seq<Region>)
      requires Settled(before + [reg], Trace(before + [reg], checks), final)
      ensures exists t: seq<Region> :: Sorted(t) && multiset(t) == multiset(before + [reg])
                && (AllAligned(t) && Separated(t) ==> SameDecisions(t, final))
      ensures AllAligned(before + [reg]) && Separated(before + [reg]) ==>
                NewDecides(before, reg, final) && (Sorted(before) ==> OthersStay(before, reg, final))
    {
      var all := before + [reg];
      var t := Trace(all, checks)[0];
      FirstRoundSorted(Trace(all, checks));
      if AllAligned(t) && Separated(t) {
        PermutationAligned(t, all);
        PermutationSeparated(t, all);
      }
      if AllAligned(all) && Separated(all) {
        SettledWithNew(before, reg, Trace(all, checks), final);
      }
      assert Sorted(t) && multiset(t) == multiset(all) && (AllAligned(t) && Separated(t) ==> SameDecisions(t, final));
    }

    method ConflictsWith(reg: Region) returns (clash: bool)
      requires Valid()
      ensures clash <==> exists r <- List() :: IsRegionConflict(reg, r)
    {
      var i := 0;
      while regions[i].order != 0
        invariant 0 <= i <= len && forall j :: 0 <= j < i ==> !IsRegionConflict(reg, List()[j])
        decreases len - i
      {
        if IsRegionConflict(reg, regions[i]) {
          assert List()[i] in List();
          return true;
        }
        i := i + 1;
      }
      return false;
    }
  }

  /** The list after the merge loop has looked at position i. */
  function MergedAt(s: seq<Region>, i: nat): seq<Region>
    requires i < |s|
  {
    if i + 1 < |s| && Mergeable(s[i], s[i + 1]) then s[..i] + [Merged(s[i])] + s[i + 2..] else s
  }

  /** What is done and the pass over the rest make up the whole pass, before and after position i. */
  lemma MergeOne(s: seq<Region>, i: nat)
    requires i < |s|
    ensures i < |MergedAt(s, i)|
    ensures MergedAt(s, i)[..i + 1] + MergePass(MergedAt(s, i)[i + 1..]) == s[..i] + MergePass(s[i..])
  {
    var t := MergedAt(s, i);
    assert t[..i + 1] == s[..i] + [t[i]];
    MergeTail(s, i);
    assert s[..i] + ([t[i]] + MergePass(t[i + 1..])) == (s[..i] + [t[i]]) + MergePass(t[i + 1..]);
  }

  lemma MergeTail(s: seq<Region>, i: nat)
    requires i < |s|
    ensures i < |MergedAt(s, i)|
    ensures MergePass(s[i..]) == [MergedAt(s, i)[i]] + MergePass(MergedAt(s, i)[i + 1..])
  {
    var t := MergedAt(s, i);
    if i + 1 < |s| {
      MergePassStep(s[i..]);
      assert s[i..][1..] == s[i + 1..] && s[i..][2..] == s[i + 2..];
      assert t[i + 1..] == if Mergeable(s[i], s[i + 1]) then s[i + 2..] else s[i + 1..];
    }
  }

  function VerdictOf(outcome: Outcome): Verdict
    requires outcome != Refused
  {
    if outcome == Added then Sane else outcome.verdict
  }
}
