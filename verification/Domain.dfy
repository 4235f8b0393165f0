/**
  Memory regions of OpenSBI domains (opensbi/lib/sbi/sbi_domain.c) on a 64-bit
  machine: naturally aligned power-of-two regions, the first-match permission
  check, and what order and merging do to its answers.
 */
module Domain {
  import opened Basics
  import opened Bits

  /** Addition of machine words. */
  function Plus(x: Word, y: Word): Word
  {
    if x + y < WORDS then x + y else x + y - WORDS
  }

  /** Region attributes; `other` holds the bits that no check looks at except for equality. */
  datatype Flags = Flags(readable: bool, writeable: bool, executable: bool, mmode: bool, mmio: bool, other: nat)

  datatype Region = Region(order: nat, base: Word, flags: Flags)

  datatype Mode = M | S | U | Reserved

  datatype Access = Access(read: bool, write: bool, execute: bool, mmio: bool)

  /** BIT(n): a shift by XLEN or more uses the low bits of the amount, as the machine's does. */
  function Bit(n: nat): (b: nat)
    ensures 0 < b < WORDS
  {
    Pow2Below(n % XLEN);
    Pow2(n % XLEN)
  }

  /** The last address of a region, as check_addr computes it. */
  function Last(r: Region): nat
  {
    if r.order < XLEN then Plus(r.base, Bit(r.order) - 1) else WORDS - 1
  }

  predicate Contains(r: Region, a: Word)
  {
    r.base <= a <= Last(r)
  }

  /** is_region_valid */
  predicate IsRegionValid(r: Region)
  {
    3 <= r.order <= XLEN && r.base % Bit(r.order) == 0
  }

  /** What the header documents: the base is a multiple of the size. */
  predicate Aligned(r: Region)
  {
    3 <= r.order <= XLEN && r.base % Pow2(r.order) == 0
  }

  /** is_region_subset, with the end of regB computed from the order of regA as in the source. */
  predicate IsRegionSubset(regA: Region, regB: Region)
  {
    var endA := Plus(regA.base, Bit(regA.order) - 1);
    var endB := Plus(regB.base, Bit(regA.order) - 1);
    regB.base <= regA.base && regA.base < endB && regB.base < endA && endA <= endB
  }

  /** is_region_conflict */
  predicate IsRegionConflict(regA: Region, regB: Region)
  {
    (IsRegionSubset(regA, regB) || IsRegionSubset(regB, regA)) && regA.flags == regB.flags
  }

  /** is_region_before */
  predicate IsRegionBefore(regA: Region, regB: Region)
  {
    regA.order < regB.order || (regA.order == regB.order && regA.base < regB.base)
  }

  // ---------------------------------------------------------------------
  // What the region predicates mean
  // ---------------------------------------------------------------------

  /**
    The validity check agrees with the documented alignment except for a
    whole-memory region that does not start at 0.
   */
  lemma ValidIffAligned(r: Region)
    ensures Aligned(r) <==> IsRegionValid(r) && (r.order == XLEN ==> r.base == 0)
  {
    Pow2Xlen();
    if r.order == XLEN {
      assert Bit(r.order) == Pow2(0) == 1;
    } else if r.order < XLEN {
      assert Bit(r.order) == Pow2(r.order);
    }
  }

  /** An aligned region does not wrap around the end of memory. */
  lemma AlignedEnd(r: Region)
    requires Aligned(r)
    ensures r.base + Pow2(r.order) <= WORDS && Last(r) == r.base + Pow2(r.order) - 1
  {
    Pow2Xlen();
    BlockFits(r.base, r.order);
    if r.order < XLEN {
      assert Bit(r.order) == Pow2(r.order);
    }
  }

  lemma BlockFits(base: Word, order: nat)
    requires order <= XLEN && base % Pow2(order) == 0
    ensures base + Pow2(order) <= WORDS
  {
    Pow2Xlen();
    Pow2Divides(order, XLEN);
    BlockBelow(base, Pow2(order), WORDS);
  }

  lemma ContainsAligned(r: Region, a: Word)
    requires Aligned(r)
    ensures Contains(r, a) <==> r.base <= a < r.base + Pow2(r.order)
  {
    AlignedEnd(r);
  }

  /**
    The subset check holds exactly for equal bases: it never sees a region nested
    inside another at a different base.
   */
  lemma SubsetIffSameBase(regA: Region, regB: Region)
    requires IsRegionValid(regA) && IsRegionValid(regB)
    ensures IsRegionSubset(regA, regB) <==> regA.order < XLEN && regA.base == regB.base
  {
    if regA.order < XLEN {
      ValidIffAligned(regA);
      AlignedEnd(regA);
      Pow2Monotone(3, regA.order);
      assert Pow2(3) == 8;
    } else {
      assert Bit(regA.order) == Pow2(0) == 1;
    }
  }

  lemma ConflictIffSameBase(regA: Region, regB: Region)
    requires IsRegionValid(regA) && IsRegionValid(regB)
    ensures IsRegionConflict(regA, regB)
            <==> regA.base == regB.base && regA.flags == regB.flags && (regA.order < XLEN || regB.order < XLEN)
  {
    SubsetIffSameBase(regA, regB);
    SubsetIffSameBase(regB, regA);
  }

  /** A region strictly inside another, with equal flags, that the conflict check lets through. */
  lemma NestedRegionsPass(flags: Flags)
    ensures var inner, outer := Region(3, 8, flags), Region(4, 0, flags);
            && Aligned(inner) && Aligned(outer) && (forall a: Word :: Contains(inner, a) ==> Contains(outer, a))
            && !IsRegionConflict(inner, outer)
  {
    var inner, outer := Region(3, 8, flags), Region(4, 0, flags);
    assert Pow2(3) == 8 && Pow2(4) == 16;
    ValidIffAligned(inner);
    ValidIffAligned(outer);
    ConflictIffSameBase(inner, outer);
    AlignedEnd(inner);
    AlignedEnd(outer);
  }

  /** Aligned regions are laminar: when two share an address, the one of smaller order lies inside the other. */
  lemma Laminar(r: Region, s: Region, a: Word, x: Word)
    requires Aligned(r) && Aligned(s) && r.order <= s.order && Contains(r, a) && Contains(s, a)
    ensures Contains(r, x) ==> Contains(s, x)
    ensures r.order == s.order ==> r.base == s.base
  {
    ContainsAligned(r, a);
    ContainsAligned(s, a);
    ContainsAligned(r, x);
    ContainsAligned(s, x);
    var d := Pow2(r.order);
    AlignedDown(s.base, r.order, s.order);
    Pow2Divides(r.order, s.order);
    SumOfMultiples(s.base, Pow2(s.order), d);
    BlockBelow(r.base, d, s.base + Pow2(s.order));
    if r.base < s.base {
      BlockBelow(r.base, d, s.base);
    }
    if r.order == s.order {
      SameBlock(r.base, s.base, d, a);
    }
  }

  // ---------------------------------------------------------------------
  // The permission check
  // ---------------------------------------------------------------------

  /** The regions that a mode looks at: M-mode skips those not marked for it. */
  predicate Matches(r: Region, mode: Mode, a: Word)
  {
    (mode == M ==> r.flags.mmode) && Contains(r, a)
  }

  /** What one region says about an access to an address inside it. */
  predicate Permits(flags: Flags, access: Access)
  {
    && access.mmio == flags.mmio
    && (access.read ==> flags.readable) && (access.write ==> flags.writeable) && (access.execute ==> flags.executable)
  }

  /** The position of the first region that matches; the length if none does. */
  function First(s: seq<Region>, mode: Mode, a: Word): (i: nat)
    ensures i <= |s|
    ensures i < |s| ==> Matches(s[i], mode, a)
    ensures forall j :: 0 <= j < i ==> !Matches(s[j], mode, a)
  {
    if s == [] || Matches(s[0], mode, a) then 0 else First(s[1..], mode, a) + 1
  }

  /** The flags of the first region that matches. */
  function Answer(s: seq<Region>, mode: Mode, a: Word): Option<Flags>
  {
    var i := First(s, mode, a);
    if i < |s| then Some(s[i].flags) else None
  }

  /** The decision for an access. */
  predicate Allowed(s: seq<Region>, mode: Mode, a: Word, access: Access)
  {
    match Answer(s, mode, a)
    case Some(flags) => Permits(flags, access)
    case None => mode == M
  }

  /** Two lists decide every access alike. */
  ghost predicate SameDecisions(s: seq<Region>, t: seq<Region>)
  {
    forall mode: Mode, a: Word, access: Access :: Allowed(s, mode, a, access) == Allowed(t, mode, a, access)
  }

  ghost predicate AllAligned(s: seq<Region>)
  {
    forall r <- s :: Aligned(r)
  }

  /** In order of (order, base). */
  ghost predicate Sorted(s: seq<Region>)
  {
    forall i, j :: 0 <= i < j < |s| ==> !IsRegionBefore(s[j], s[i])
  }

  /** No two regions share both order and base. */
  ghost predicate DistinctKeys(s: seq<Region>)
  {
    forall i, j :: 0 <= i < j < |s| ==> !(s[i].order == s[j].order && s[i].base == s[j].base)
  }

  /** In a sorted list of aligned regions the first match is the smallest: it lies inside every region that matches. */
  lemma FirstMatchIsSmallest(s: seq<Region>, mode: Mode, a: Word, j: nat, x: Word)
    requires Sorted(s) && AllAligned(s) && j < |s| && Matches(s[j], mode, a)
    ensures First(s, mode, a) <= j
    ensures Contains(s[First(s, mode, a)], x) ==> Contains(s[j], x)
  {
    var i := First(s, mode, a);
    Laminar(s[i], s[j], a, x);
  }

  /** The address lies in the region, and the mode looks at the region. */
  ghost predicate Sees(r: Region, mode: Mode, a: Word)
  {
    r.base <= a < r.base + Pow2(r.order) && (r.flags.mmode || mode != M)
  }

  /**
    The first region that the mode sees at the address agrees on MMIO and grants all
    that is asked for, or there is none and the mode is M.
   */
  ghost predicate Granted(s: seq<Region>, mode: Mode, a: Word, access: Access)
  {
    || (exists i :: 0 <= i < |s| && Sees(s[i], mode, a) && (forall j :: 0 <= j < i ==> !Sees(s[j], mode, a))
          && access.mmio == s[i].flags.mmio && (access.read ==> s[i].flags.readable)
          && (access.write ==> s[i].flags.writeable) && (access.execute ==> s[i].flags.executable))
    || (mode == M && forall i :: 0 <= i < |s| ==> !Sees(s[i], mode, a))
  }

  lemma AllowedIff(s: seq<Region>, mode: Mode, a: Word, access: Access)
    requires AllAligned(s)
    ensures Allowed(s, mode, a, access) <==> Granted(s, mode, a, access)
  {
    forall i | 0 <= i < |s|
      ensures Sees(s[i], mode, a) <==> Matches(s[i], mode, a)
    {
      assert s[i] in s;
      ContainsAligned(s[i], a);
    }
    var k := First(s, mode, a);
    assert forall i :: 0 <= i < |s| && Sees(s[i], mode, a) && (forall j :: 0 <= j < i ==> !Sees(s[j], mode, a)) ==>
             i == k;
    assert k < |s| ==> Sees(s[k], mode, a);
  }

  /** In a sorted list without equal keys, the smallest region that matches answers. */
  lemma SmallestAnswers(t: seq<Region>, mode: Mode, a: Word, r: Region)
    requires Sorted(t) && AllAligned(t) && DistinctKeys(t) && r in t && Matches(r, mode, a)
    requires forall q <- t :: Matches(q, mode, a) ==> r.order <= q.order
    ensures Answer(t, mode, a) == Some(r.flags)
  {
    var i :| 0 <= i < |t| && t[i] == r;
    var j := First(t, mode, a);
    assert t[j] in t && j <= i && !(j < i && IsRegionBefore(t[i], t[j]));
    Laminar(t[i], t[j], a, a);
  }

  lemma NoneAnswers(t: seq<Region>, mode: Mode, a: Word)
    requires forall q <- t :: !Matches(q, mode, a)
    ensures Answer(t, mode, a) == None
  {
  }

  /**
    Without the documented alignment the answer need not come from the smallest
    match: these two regions pass the validity check and overlap without nesting.
   */
  lemma WholeMemoryRegionMayStraddle(flags: Flags)
    ensures var r, s := Region(4, 0, flags), Region(XLEN, 8, flags);
            && IsRegionValid(r) && IsRegionValid(s)
            && Contains(r, 8) && Contains(s, 8) && Contains(r, 0) && !Contains(s, 0) && !Contains(r, 16) &&
               Contains(s, 16)
  {
    assert Pow2(4) == 16;
    var r := Region(4, 0, flags);
    ValidIffAligned(r);
    AlignedEnd(r);
    assert Bit(XLEN) == Pow2(0) == 1;
  }

  // ---------------------------------------------------------------------
  // Merging
  // ---------------------------------------------------------------------

  /** The condition of the merge loop on two neighbours. */
  predicate Mergeable(r: Region, s: Region)
  {
    && r.base % Bit(r.order + 1) == 0
    && Plus(r.base, Bit(r.order)) == s.base
    && r.order == s.order
    && r.flags == s.flags
  }

  /** The two regions are the halves of an aligned region and have the same flags. */
  ghost predicate Halves(r: Region, s: Region)
  {
    && r.order == s.order && r.flags == s.flags
    && r.base % Pow2(r.order + 1) == 0 && s.base == r.base + Pow2(r.order)
  }

  /** Neighbours merge if and only if they are such halves. */
  lemma MergeableIff(r: Region, s: Region)
    requires Aligned(r) && Aligned(s) && !IsRegionBefore(s, r)
    ensures Mergeable(r, s) <==> Halves(r, s)
  {
    if r.order == XLEN {
      WholeNeverMerges(r, s);
    } else if r.order == XLEN - 1 {
      HalvesMerge(r, s);
    } else {
      SmallerMerge(r, s);
    }
  }

  lemma SmallerMerge(r: Region, s: Region)
    requires Aligned(r) && r.order + 1 < XLEN
    ensures Mergeable(r, s) <==> Halves(r, s)
  {
    assert Bit(r.order + 1) == Pow2(r.order + 1) && Bit(r.order) == Pow2(r.order);
    if r.base % Pow2(r.order + 1) == 0 {
      BlockFits(r.base, r.order + 1);
    }
  }

  lemma WholeNeverMerges(r: Region, s: Region)
    requires Aligned(r) && Aligned(s) && r.order == XLEN
    ensures !Mergeable(r, s) && s.base != r.base + Pow2(r.order)
  {
    Pow2Xlen();
    assert Bit(r.order) == Pow2(0) == 1;
  }

  lemma HalvesMerge(r: Region, s: Region)
    requires Aligned(r) && Aligned(s) && r.order == XLEN - 1 && !IsRegionBefore(s, r)
    ensures Mergeable(r, s)
            <==> r.order == s.order && r.flags == s.flags && r.base == 0 && s.base == Pow2(r.order)
    ensures r.base % Pow2(r.order + 1) == r.base
  {
    Pow2Xlen();
    assert Bit(r.order + 1) == Pow2(0) == 1 && Bit(r.order) == Pow2(r.order);
    AlignedEnd(r);
  }

  function Merged(r: Region): Region
  {
    r.(order := r.order + 1)
  }

  /** One pass of the merge loop over the list. */
  function MergePass(s: seq<Region>): (t: seq<Region>)
    ensures |t| <= |s|
    ensures |t| == |s| ==> t == s
  {
    if |s| < 2 then s
    else if Mergeable(s[0], s[1]) then [Merged(s[0])] + MergePass(s[2..])
    else [s[0]] + MergePass(s[1..])
  }

  /** A merged region is aligned and covers exactly what its two halves covered. */
  lemma MergeCoversBoth(r: Region, s: Region, a: Word)
    requires Aligned(r) && Aligned(s) && Mergeable(r, s) && !IsRegionBefore(s, r)
    ensures Aligned(Merged(r))
    ensures Contains(Merged(r), a) <==> Contains(r, a) || Contains(s, a)
  {
    MergedAligned(r, s);
    ContainsAligned(r, a);
    ContainsAligned(s, a);
    ContainsAligned(Merged(r), a);
  }

  lemma MergedAligned(r: Region, s: Region)
    requires Aligned(r) && Aligned(s) && Mergeable(r, s) && !IsRegionBefore(s, r)
    ensures Aligned(Merged(r)) && s.base == r.base + Pow2(r.order)
  {
    MergeableBelowXlen(r, s);
    MergeableIff(r, s);
  }

  lemma MergeableBelowXlen(r: Region, s: Region)
    requires Aligned(r) && Aligned(s) && Mergeable(r, s)
    ensures r.order < XLEN
  {
    ValidIffAligned(r);
    ValidIffAligned(s);
    assert Pow2(0) == 1;
    assert r.order == XLEN ==> Bit(r.order) == 1;
  }

  /** A pass never changes whose flags answer. */
  lemma {:induction false} MergePassKeepsAnswer(s: seq<Region>, mode: Mode, a: Word)
    requires Sorted(s) && AllAligned(s)
    ensures Answer(MergePass(s), mode, a) == Answer(s, mode, a)
  {
    if |s| >= 2 {
      var n := MergePassHead(s, mode, a);
      MergePassKeepsAnswer(s[n..], mode, a);
      AnswerOfTail(MergePass(s), mode, a);
    }
  }

  /** The first region of the result stands for the first one or two of the list. */
  lemma MergePassHead(s: seq<Region>, mode: Mode, a: Word) returns (n: nat)
    requires Sorted(s) && AllAligned(s) && |s| >= 2
    ensures n == 1 || (n == 2 && s[0].order == s[1].order)
    ensures var t := MergePass(s);
            && t != [] && t[1..] == MergePass(s[n..]) && t[0].order == s[0].order + n - 1
            && (Matches(t[0], mode, a) <==> Matches(s[0], mode, a) || (n == 2 && Matches(s[1], mode, a)))
            && Answer(s, mode, a) == if Matches(t[0], mode, a) then Some(t[0].flags) else Answer(s[n..], mode, a)
  {
    n := if Mergeable(s[0], s[1]) then 2 else 1;
    AnswerOfTail(s, mode, a);
    if n == 2 {
      assert s[1..][1..] == s[2..];
      AnswerOfTail(s[1..], mode, a);
      MergedMatches(s[0], s[1], mode, a);
    }
  }

  lemma AnswerOfTail(s: seq<Region>, mode: Mode, a: Word)
    requires s != []
    ensures First(s, mode, a) == if Matches(s[0], mode, a) then 0 else First(s[1..], mode, a) + 1
    ensures Answer(s, mode, a) == if Matches(s[0], mode, a) then Some(s[0].flags) else Answer(s[1..], mode, a)
  {
  }

  lemma MergedMatches(r: Region, s: Region, mode: Mode, a: Word)
    requires Aligned(r) && Aligned(s) && Mergeable(r, s) && !IsRegionBefore(s, r)
    ensures Matches(Merged(r), mode, a) <==> Matches(r, mode, a) || Matches(s, mode, a)
    ensures Merged(r).flags == r.flags == s.flags
  {
    MergeCoversBoth(r, s, a);
  }

  lemma MergePassKeepsDecisions(s: seq<Region>)
    requires Sorted(s) && AllAligned(s)
    ensures SameDecisions(s, MergePass(s))
  {
    forall mode: Mode, a: Word, access: Access
      ensures Allowed(s, mode, a, access) == Allowed(MergePass(s), mode, a, access)
    {
      MergePassKeepsAnswer(s, mode, a);
    }
  }

  /** Where a region of the result comes from. */
  ghost predicate From(s: seq<Region>, i: nat, r: Region)
  {
    && i < |s| && s[i].flags == r.flags && s[i].order <= r.order
    && (i + 1 < |s| ==> r == s[i] || (Mergeable(s[i], s[i + 1]) && r == Merged(s[i])))
    && (i + 1 == |s| ==> r == s[i])
  }

  lemma {:induction false} MergePassFrom(s: seq<Region>, k: nat) returns (i: nat)
    requires k < |MergePass(s)|
    ensures From(s, i, MergePass(s)[k])
  {
    if |s| < 2 || k == 0 {
      return k;
    }
    if Mergeable(s[0], s[1]) {
      i := MergePassFrom(s[2..], k - 1);
      return i + 2;
    } else {
      i := MergePassFrom(s[1..], k - 1);
      return i + 1;
    }
  }

  lemma MergePassAligned(s: seq<Region>)
    requires Sorted(s) && AllAligned(s)
    ensures AllAligned(MergePass(s))
  {
    forall k | 0 <= k < |MergePass(s)|
      ensures Aligned(MergePass(s)[k])
    {
      var i := MergePassFrom(s, k);
      if i + 1 < |s| && MergePass(s)[k] != s[i] {
        MergeCoversBoth(s[i], s[i + 1], 0);
      }
    }
  }

  /** If a region of the result matches, so does one of the regions it comes from, which is no larger. */
  lemma MergePassSource(s: seq<Region>, k: nat, mode: Mode, a: Word) returns (i: nat)
    requires Sorted(s) && AllAligned(s) && k < |MergePass(s)| && Matches(MergePass(s)[k], mode, a)
    ensures i < |s| && Matches(s[i], mode, a) && s[i].order <= MergePass(s)[k].order
  {
    i := MergePassFrom(s, k);
    if MergePass(s)[k] != s[i] {
      MergeCoversBoth(s[i], s[i + 1], a);
      if !Contains(s[i], a) {
        i := i + 1;
      }
    }
  }

  /** The first match has least order among all matches. */
  ghost predicate FirstIsLeast(s: seq<Region>, mode: Mode, a: Word)
  {
    var i := First(s, mode, a);
    forall k :: 0 <= k < |s| && Matches(s[k], mode, a) ==> i < |s| && s[i].order <= s[k].order
  }

  lemma FirstIsLeastOfTail(s: seq<Region>, mode: Mode, a: Word)
    requires s != []
    requires if Matches(s[0], mode, a)
             then forall k :: 0 <= k < |s| - 1 && Matches(s[1..][k], mode, a) ==> s[0].order <= s[1..][k].order
             else FirstIsLeast(s[1..], mode, a)
    ensures FirstIsLeast(s, mode, a)
  {
    AnswerOfTail(s, mode, a);
    assert forall k :: 0 < k < |s| ==> s[k] == s[1..][k - 1];
  }

  /** After a pass over a sorted list without equal keys, the first match is still of least order. */
  lemma {:induction false} MergePassFirstIsLeast(s: seq<Region>, mode: Mode, a: Word)
    requires Sorted(s) && AllAligned(s) && DistinctKeys(s)
    ensures FirstIsLeast(MergePass(s), mode, a)
  {
    if |s| >= 2 {
      var n := MergePassHead(s, mode, a);
      var t := MergePass(s[n..]);
      if Matches(MergePass(s)[0], mode, a) {
        forall k | 0 <= k < |t| && Matches(t[k], mode, a)
          ensures MergePass(s)[0].order <= t[k].order
        {
          MergePassHeadIsLeast(s, n, mode, a, k + 1);
        }
      } else {
        MergePassFirstIsLeast(s[n..], mode, a);
      }
      FirstIsLeastOfTail(MergePass(s), mode, a);
    }
  }

  lemma MergePassHeadIsLeast(s: seq<Region>, n: nat, mode: Mode, a: Word, k: nat)
    requires Sorted(s) && AllAligned(s) && DistinctKeys(s) && 2 <= |s|
    requires n == 1 || (n == 2 && s[0].order == s[1].order)
    requires Matches(s[0], mode, a) || (n == 2 && Matches(s[1], mode, a))
    requires 0 < k && k - 1 < |MergePass(s[n..])| && Matches(MergePass(s[n..])[k - 1], mode, a)
    ensures s[0].order + n - 1 <= MergePass(s[n..])[k - 1].order
  {
    var i := MergePassSource(s[n..], k - 1, mode, a);
    assert s[n..][i] == s[n + i];
    if n == 2 {
      NoThirdOfOrder(s, n + i, mode, a);
    } else {
      assert !IsRegionBefore(s[n + i], s[0]);
    }
  }

  /** What matches beside one of two merged halves is larger than the halves. */
  lemma NoThirdOfOrder(s: seq<Region>, i: nat, mode: Mode, a: Word)
    requires Sorted(s) && AllAligned(s) && DistinctKeys(s) && 2 <= i < |s| && s[0].order == s[1].order
    requires Matches(s[0], mode, a) || Matches(s[1], mode, a)
    requires Matches(s[i], mode, a)
    ensures s[0].order < s[i].order
  {
    var h := if Matches(s[0], mode, a) then 0 else 1;
    assert !IsRegionBefore(s[i], s[h]);
    Laminar(s[h], s[i], a, a);
  }

  /** Sorting a list whose first matches are of least order keeps every decision, when no keys are equal. */
  lemma SortKeepsAnswer(s: seq<Region>, t: seq<Region>, mode: Mode, a: Word)
    requires multiset(s) == multiset(t) && Sorted(t) && AllAligned(s) && DistinctKeys(s)
    requires FirstIsLeast(s, mode, a)
    ensures Answer(s, mode, a) == Answer(t, mode, a)
  {
    var i, j := First(s, mode, a), First(t, mode, a);
    if i < |s| {
      assert s[i] in multiset(t);
      var i' :| 0 <= i' < |t| && t[i'] == s[i];
      assert j <= i';
      assert t[j] in multiset(s);
      var j' :| 0 <= j' < |s| && s[j'] == t[j];
      assert !IsRegionBefore(t[i'], t[j]) || i' == j;
      Laminar(s[i], s[j'], a, a);
    } else {
      forall j' | 0 <= j' < |t|
        ensures !Matches(t[j'], mode, a)
      {
        assert t[j'] in multiset(s);
      }
    }
  }

  /** One round of the loop that adds a region: merge, then sort again. */
  lemma RoundKeepsDecisions(s: seq<Region>, t: seq<Region>)
    requires Sorted(s) && AllAligned(s) && DistinctKeys(s) && DistinctKeys(MergePass(s)) && Sorted(t) && IsRound(s, t)
    ensures SameDecisions(s, t) && AllAligned(t)
  {
    var m := MergePass(s);
    MergePassKeepsDecisions(s);
    MergePassAligned(s);
    forall r | r in t
      ensures Aligned(r)
    {
      assert r in multiset(m);
    }
    forall mode: Mode, a: Word, access: Access
      ensures Allowed(m, mode, a, access) == Allowed(t, mode, a, access)
    {
      MergePassFirstIsLeast(s, mode, a);
      SortKeepsAnswer(m, t, mode, a);
    }
  }

  // ---------------------------------------------------------------------
  // Whole runs of the merge loop
  // ---------------------------------------------------------------------

  /** The sorted lists that the loop of root_add_memregion goes through. */
  ghost predicate Rounds(trace: seq<seq<Region>>)
  {
    var n := |trace| - 1;
    n >= 0 && Sorted(trace[n]) && (n > 0 ==> Rounds(trace[..n]) && IsRound(trace[n - 1], trace[n]))
  }

  /** The second list consists of the regions of the first after one merging pass. */
  ghost predicate IsRound(s: seq<Region>, t: seq<Region>)
  {
    multiset(t) == multiset(MergePass(s))
  }

  /** No two regions ever share both order and base. */
  ghost predicate NeverEqualKeys(trace: seq<seq<Region>>)
  {
    forall i :: 0 <= i < |trace| ==> DistinctKeys(trace[i]) && DistinctKeys(MergePass(trace[i]))
  }

  /** All rounds together keep every decision. */
  lemma {:induction false} RoundsKeepDecisions(trace: seq<seq<Region>>)
    requires Rounds(trace) && NeverEqualKeys(trace) && AllAligned(trace[0])
    ensures SameDecisions(trace[0], trace[|trace| - 1]) && AllAligned(trace[|trace| - 1])
  {
    if |trace| > 1 {
      var n := |trace| - 1;
      RoundsKeepDecisions(trace[..n]);
      RoundKeepsDecisions(trace[..n][n - 1], trace[n]);
    }
  }

  /** Where the second half of a larger region would have to start. */
  function BuddyBase(r: Region): Word
  {
    Plus(r.base, Bit(r.order))
  }

  /** No region with the flags of r starts there, so r never grows. */
  ghost predicate NoBuddy(s: seq<Region>, r: Region)
  {
    forall t <- s :: !(t.flags == r.flags && t.base == BuddyBase(r))
  }

  /** No two regions share order and base, and where two share a base, the smaller one cannot grow. */
  ghost predicate Separated(s: seq<Region>)
  {
    && DistinctKeys(s)
    && forall i, j :: 0 <= i < |s| && 0 <= j < |s| && s[i].base == s[j].base && s[i].order < s[j].order ==>
       NoBuddy(s, s[i])
  }

  /** No two regions share a base. */
  ghost predicate DistinctBases(s: seq<Region>)
  {
    forall i, j :: 0 <= i < j < |s| ==> s[i].base != s[j].base
  }

  lemma DistinctBasesAreSeparated(s: seq<Region>)
    requires DistinctBases(s)
    ensures Separated(s)
  {
  }

  /** Two regions of the result come from different ones. */
  lemma {:induction false} MergePassOrigins(s: seq<Region>, k: nat, l: nat) returns (i: nat, j: nat)
    requires k < l < |MergePass(s)|
    ensures i < j && From(s, i, MergePass(s)[k]) && From(s, j, MergePass(s)[l])
  {
    if |s| < 2 {
      return k, l;
    }
    var n := if Mergeable(s[0], s[1]) then 2 else 1;
    assert MergePass(s)[l] == MergePass(s[n..])[l - 1];
    if k == 0 {
      j := MergePassFrom(s[n..], l - 1);
      FromTail(s, n, j, MergePass(s)[l]);
      return 0, j + n;
    }
    assert MergePass(s)[k] == MergePass(s[n..])[k - 1];
    i, j := MergePassOrigins(s[n..], k - 1, l - 1);
    FromTail(s, n, i, MergePass(s)[k]);
    FromTail(s, n, j, MergePass(s)[l]);
    return i + n, j + n;
  }

  lemma FromTail(s: seq<Region>, n: nat, i: nat, r: Region)
    requires n <= |s| && From(s[n..], i, r)
    ensures From(s, n + i, r)
  {
  }

  lemma WithoutBuddyUnmerged(s: seq<Region>, i: nat, r: Region)
    requires From(s, i, r) && NoBuddy(s, s[i])
    ensures r == s[i]
  {
    if i + 1 < |s| {
      assert s[i + 1] in s;
    }
  }

  /** Merging a separated list never makes keys equal. */
  lemma MergePassKeys(s: seq<Region>, k: nat, l: nat)
    requires Separated(s) && k < |MergePass(s)| && l < |MergePass(s)| && k != l
    ensures var a, b := MergePass(s)[k], MergePass(s)[l];
            a.base == b.base ==> a.order != b.order && (a.order < b.order ==> a in s && NoBuddy(s, a))
  {
    var i, j;
    if k < l {
      i, j := MergePassOrigins(s, k, l);
    } else {
      j, i := MergePassOrigins(s, l, k);
    }
    if s[i].base == s[j].base {
      if s[i].order < s[j].order {
        WithoutBuddyUnmerged(s, i, MergePass(s)[k]);
      } else {
        assert s[j].order < s[i].order;
        WithoutBuddyUnmerged(s, j, MergePass(s)[l]);
      }
    }
  }

  lemma MergePassSeparated(s: seq<Region>)
    requires Separated(s)
    ensures Separated(MergePass(s))
  {
    var t := MergePass(s);
    forall k, l | 0 <= k < |t| && 0 <= l < |t| && k != l && t[k].base == t[l].base
      ensures t[k].order != t[l].order && (t[k].order < t[l].order ==> NoBuddy(t, t[k]))
    {
      MergePassKeys(s, k, l);
      if t[k].order < t[l].order {
        MergePassNoBuddy(s, t[k]);
      }
    }
  }

  lemma MergePassNoBuddy(s: seq<Region>, r: Region)
    requires NoBuddy(s, r)
    ensures NoBuddy(MergePass(s), r)
  {
    var t := MergePass(s);
    forall q | q in t
      ensures !(q.flags == r.flags && q.base == BuddyBase(r))
    {
      var k :| 0 <= k < |t| && t[k] == q;
      var i := MergePassFrom(s, k);
      assert s[i] in s;
    }
  }

  /** Two positions with equal contents make the element occur twice. */
  lemma {:induction false} OccursTwice<T>(s: seq<T>, i: nat, j: nat)
    requires i < j < |s| && s[i] == s[j]
    ensures multiset(s)[s[i]] >= 2
  {
    assert s == s[..j] + s[j..];
    assert s[..j][i] in multiset(s[..j]);
    assert s[j..][0] in multiset(s[j..]);
  }

  lemma {:induction false} TwoPlaces<T>(s: seq<T>, x: T) returns (i: nat, j: nat)
    requires multiset(s)[x] >= 2
    ensures i < j < |s| && s[i] == x == s[j]
  {
    assert s == [s[0]] + s[1..];
    if s[0] == x {
      assert x in multiset(s[1..]);
      j :| 0 <= j < |s[1..]| && s[1..][j] == x;
      return 0, j + 1;
    }
    i, j := TwoPlaces(s[1..], x);
    return i + 1, j + 1;
  }

  lemma PermutationDistinctKeys(s: seq<Region>, t: seq<Region>)
    requires DistinctKeys(s) && multiset(s) == multiset(t)
    ensures DistinctKeys(t)
  {
    forall i, j | 0 <= i < j < |t|
      ensures !(t[i].order == t[j].order && t[i].base == t[j].base)
    {
      if t[i] == t[j] {
        OccursTwice(t, i, j);
        var i', j' := TwoPlaces(s, t[i]);
      } else {
        assert t[i] in multiset(s) && t[j] in multiset(s);
        var i' :| 0 <= i' < |s| && s[i'] == t[i];
        var j' :| 0 <= j' < |s| && s[j'] == t[j];
      }
    }
  }

  lemma PermutationSeparated(s: seq<Region>, t: seq<Region>)
    requires Separated(s) && multiset(s) == multiset(t)
    ensures Separated(t)
  {
    PermutationDistinctKeys(s, t);
    forall i, j | 0 <= i < |t| && 0 <= j < |t| && t[i].base == t[j].base && t[i].order < t[j].order
      ensures NoBuddy(t, t[i])
    {
      assert t[i] in multiset(s) && t[j] in multiset(s);
      var i' :| 0 <= i' < |s| && s[i'] == t[i];
      var j' :| 0 <= j' < |s| && s[j'] == t[j];
      assert NoBuddy(s, s[i']);
      assert forall q <- t :: q in multiset(s);
    }
  }

  /** Separated regions never come to share a key. */
  lemma {:induction false} SeparatedSuffices(trace: seq<seq<Region>>)
    requires Rounds(trace) && Separated(trace[0])
    ensures NeverEqualKeys(trace) && Separated(trace[|trace| - 1])
  {
    var n := |trace| - 1;
    if n > 0 {
      SeparatedSuffices(trace[..n]);
      MergePassSeparated(trace[n - 1]);
      PermutationSeparated(MergePass(trace[n - 1]), trace[n]);
    }
    MergePassSeparated(trace[n]);
    LongerTrace(trace);
  }

  lemma LongerTrace(trace: seq<seq<Region>>)
    requires |trace| > 0 && NeverEqualKeys(trace[..|trace| - 1])
    requires Separated(trace[|trace| - 1]) && Separated(MergePass(trace[|trace| - 1]))
    ensures NeverEqualKeys(trace)
  {
    var n := |trace| - 1;
    SeparatedKeysDiffer(trace[n]);
    SeparatedKeysDiffer(MergePass(trace[n]));
    forall i | 0 <= i < |trace|
      ensures DistinctKeys(trace[i]) && DistinctKeys(MergePass(trace[i]))
    {
      if i < n {
        assert trace[i] == trace[..n][i];
      }
    }
  }

  lemma SeparatedKeysDiffer(s: seq<Region>)
    requires Separated(s)
    ensures DistinctKeys(s)
  {
  }

  lemma MergePassStep(s: seq<Region>)
    requires |s| >= 2
    ensures MergePass(s) == if Mergeable(s[0], s[1]) then [Merged(s[0])] + MergePass(s[2..])
            else [s[0]] + MergePass(s[1..])
    ensures |s| == 2 ==> MergePass(s[1..]) == s[1..] && MergePass(s[2..]) == s[2..]
  {
  }
}
