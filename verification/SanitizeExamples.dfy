/**
  Two tables on which sanitize_domain and sbi_domain_root_add_memregion
  (opensbi/lib/sbi/sbi_domain.c) succeed, and do not do what one would expect.
  Both hold a firmware region and a region that allows everything, as the root
  domain does.
 */
module SanitizeExamples {
  import opened Basics
  import opened Bits
  import opened Domain
  import opened RegionSort
  import opened Sanitize

  const OPEN := Flags(true, true, true, false, false, 0)
  const CLOSED := Flags(false, false, false, false, false, 0)
  const READABLE := Flags(true, false, false, false, false, 0)

  const FIRMWARE := Region(5, 64, CLOSED)
  const ALL := Region(XLEN, 0, OPEN)
  const CHECKS := Checks(true, FIRMWARE, 128, S)

  /** Regions of small order in the low memory, and the two that every table has. */
  predicate Plain(r: Region)
  {
    r == ALL || (3 <= r.order <= 5 && r.base <= 64 &&
        r.base % (if r.order == 3 then 8 else if r.order == 4 then 16 else 32) == 0)
  }

  predicate AllPlain(s: seq<Region>)
  {
    forall i :: 0 <= i < |s| ==> Plain(s[i])
  }

  lemma SmallPowers()
    ensures Pow2(0) == 1 && Pow2(3) == 8 && Pow2(4) == 16 && Pow2(5) == 32 && Pow2(6) == 64
  {
  }

  lemma PlainIsAligned(r: Region)
    requires Plain(r)
    ensures Aligned(r) && IsRegionValid(r)
    ensures Contains(r, 128) <==> r == ALL
    ensures Contains(r, 16) <==> r.base <= 16 && (r == ALL || 16 < r.base + Pow2(r.order))
  {
    SmallPowers();
    ValidIffAligned(r);
    ContainsAligned(r, 128);
    ContainsAligned(r, 16);
    Pow2Xlen();
  }

  /** Two of these conflict when they have the same base and flags. */
  lemma PlainConflict(r: Region, q: Region)
    requires Plain(r) && Plain(q)
    ensures IsRegionConflict(r, q) <==> r.base == q.base && r.flags == q.flags && !(r == ALL && q == ALL)
  {
    PlainIsAligned(r);
    PlainIsAligned(q);
    ConflictIffSameBase(r, q);
  }

  lemma PlainConflicts(s: seq<Region>)
    requires AllPlain(s)
    ensures forall i, j :: 0 <= i < |s| && 0 <= j < |s| && (s[i].base != s[j].base || s[i].flags != s[j].flags) ==>
              !IsRegionConflict(s[i], s[j])
  {
    forall i, j | 0 <= i < |s| && 0 <= j < |s| && (s[i].base != s[j].base || s[i].flags != s[j].flags)
      ensures !IsRegionConflict(s[i], s[j])
    {
      PlainConflict(s[i], s[j]);
    }
  }

  lemma PlainList(s: seq<Region>)
    requires AllPlain(s)
    ensures AllValid(s) && AllAligned(s)
  {
    forall r | r in s
      ensures Aligned(r) && IsRegionValid(r)
    {
      PlainIsAligned(r);
    }
  }

  /** Where only the last region reaches address 128, and it allows everything, the next stage can execute there. */
  lemma NextStageAllowed(s: seq<Region>)
    requires AllPlain(s) && |s| > 0 && s[|s| - 1] == ALL && forall i :: 0 <= i < |s| - 1 ==> s[i] != ALL
    ensures Allowed(s, S, 128, EXECUTE)
  {
    forall i | 0 <= i < |s|
      ensures Matches(s[i], S, 128) <==> i == |s| - 1
    {
      assert s[i] in s;
      PlainIsAligned(s[i]);
    }
  }

  /** A table that the sort brings into order without a conflict is sane. */
  lemma SaneTable(s: seq<Region>, t: seq<Region>)
    requires SortFrom(s, 0) == Sorting(t, true) && multiset(s) == multiset(t)
    requires AllPlain(t) && FIRMWARE in t && |t| > 0 && t[|t| - 1] == ALL
    requires forall i :: 0 <= i < |t| - 1 ==> t[i] != ALL
    ensures Sanitized(s, CHECKS) == Checked(t, Sane)
  {
    PlainList(t);
    NextStageAllowed(t);
    assert forall r <- s :: r in multiset(t);
    assert FIRMWARE in multiset(s);
  }

  // ---------------------------------------------------------------------
  // A conflict that goes unseen
  // ---------------------------------------------------------------------

  /** The first and the third of the sorted table have the same base and flags. */
  function Unsorted(): seq<Region>
  {
    [Region(4, 16, READABLE), Region(5, 0, READABLE), Region(3, 0, READABLE), FIRMWARE, ALL]
  }

  function InOrder(): seq<Region>
  {
    [Region(3, 0, READABLE), Region(4, 16, READABLE), Region(5, 0, READABLE), FIRMWARE, ALL]
  }

  lemma FirstSelect()
    ensures SelectFrom(Unsorted(), 0, 1) == Sorting(Swapped(Unsorted(), 0, 2), true)
  {
    var s := Unsorted();
    var u := Swapped(s, 0, 2);
    PlainConflicts(s);
    PlainConflicts(u);
    assert SelectFrom(s, 0, 1) == SelectFrom(s, 0, 2) == SelectFrom(u, 0, 3);
    SelectIdle(u, 0, 3);
  }

  lemma SecondSelect()
    ensures SelectFrom(Swapped(Unsorted(), 0, 2), 1, 2) == Sorting(InOrder(), true)
  {
    var u, t := Swapped(Unsorted(), 0, 2), InOrder();
    PlainConflicts(t);
    PlainConflict(u[2], u[1]);
    assert Swapped(u, 1, 2) == t;
    SelectIdle(t, 1, 3);
  }

  lemma UnsortedRest()
    ensures Sorted(InOrder()) && NoConflictFrom(InOrder(), 2)
  {
    PlainList(InOrder());
    NoConflictIfDistinctFrom(InOrder(), 2);
  }

  lemma UnsortedSorts()
    ensures SortFrom(Unsorted(), 0) == Sorting(InOrder(), true)
  {
    var s, t := Unsorted(), InOrder();
    FirstSelect();
    SecondSelect();
    UnsortedRest();
    SortSortedFrom(t, 2);
    assert SortFrom(Swapped(s, 0, 2), 1) == SortFrom(t, 2);
  }

  lemma InOrderIsPlain()
    ensures AllPlain(InOrder()) && FIRMWARE in InOrder() && forall i :: 0 <= i < 4 ==> InOrder()[i] != ALL
  {
    assert InOrder()[3] == FIRMWARE;
  }

  /** The sort does not compare all pairs: sanitize_domain accepts a table with a conflict in it. */
  lemma ConflictGoesUnseen()
    ensures Sanitized(Unsorted(), CHECKS) == Checked(InOrder(), Sane) && HasConflict(InOrder())
  {
    var s, t := Unsorted(), InOrder();
    UnsortedSorts();
    SortKeeps(s, 0);
    InOrderIsPlain();
    SaneTable(s, t);
    PlainConflict(t[2], t[0]);
    assert IsRegionConflict(t[2], t[0]);
  }

  // ---------------------------------------------------------------------
  // Merging that changes decisions
  // ---------------------------------------------------------------------

  /** The root table before the call, the region to be added, and the tables that the rounds go through. */
  function Before(): seq<Region>
  {
    [Region(3, 24, CLOSED), Region(4, 0, CLOSED), Region(4, 16, OPEN), FIRMWARE, ALL]
  }

  const ADDED := Region(3, 16, CLOSED)

  function Round(k: nat): seq<Region>
  {
    match k
    case 0 => [ADDED, Region(3, 24, CLOSED), Region(4, 0, CLOSED), Region(4, 16, OPEN), FIRMWARE, ALL]
    case 1 => [Region(4, 0, CLOSED), Merged(ADDED), Region(4, 16, OPEN), FIRMWARE, ALL]
    case _ => [Region(4, 16, OPEN), Region(5, 0, CLOSED), FIRMWARE, ALL]
  }

  lemma Merges()
    ensures MergePass(Before()) == Before()
    ensures MergePass(Round(0)) == Swapped(Round(1), 0, 1)
    ensures MergePass(Round(1)) == Swapped(Round(2), 0, 1)
    ensures MergePass(Round(2)) == Round(2)
  {
  }

  lemma BeforeIsPlain()
    ensures AllPlain(Before())
  {
  }

  lemma RoundsArePlain(k: nat)
    ensures AllPlain(Round(k)) && AllPlain(Before())
  {
    BeforeIsPlain();
  }

  lemma RoundsEnd(k: nat)
    ensures var t := Round(k); |t| >= 4 && t[|t| - 2] == FIRMWARE && t[|t| - 1] == ALL
    ensures forall i :: 0 <= i < |Round(k)| - 1 ==> Round(k)[i] != ALL
  {
  }

  lemma RoundsAreDistinct(k: nat)
    ensures DistinctMarks(Round(k)) && DistinctMarks(Before())
    ensures k == 0 ==> DistinctKeys(Round(k))
  {
  }

  lemma RoundsAreSorted(k: nat)
    ensures Sorted(Round(k)) && Sorted(Before())
  {
  }

  lemma RoundsAreClean(k: nat)
    ensures NoConflictFrom(Round(k), 0) && !HasConflict(Before())
  {
    RoundsArePlain(k);
    RoundsAreDistinct(k);
    PlainList(Round(k));
    NoConflictIfDistinct(Round(k));
    PlainList(Before());
    NoConflictIfDistinct(Before());
  }

  lemma AddedIsPermutation()
    ensures multiset(Before() + [ADDED]) == multiset(Round(0))
  {
    assert Before() + [ADDED]
        == [Region(3, 24, CLOSED), Region(4, 0, CLOSED), Region(4, 16, OPEN), FIRMWARE, ALL, ADDED];
  }

  lemma PlainSortsTo(s: seq<Region>, t: seq<Region>)
    requires AllPlain(t) && Sorted(t) && DistinctMarks(t) && DistinctKeys(t) && multiset(s) == multiset(t)
    ensures SortFrom(s, 0) == Sorting(t, true)
  {
    PermutationDistinctMarks(t, s);
    PlainList(t);
    assert forall r <- s :: r in multiset(t);
    SortsTo(s, t);
  }

  /** The first round sorts, the others exchange the first two. */
  lemma FirstSort()
    ensures SortFrom(Before() + [ADDED], 0) == Sorting(Round(0), true)
  {
    RoundsArePlain(0);
    RoundsAreDistinct(0);
    RoundsAreSorted(0);
    AddedIsPermutation();
    PlainSortsTo(Before() + [ADDED], Round(0));
  }

  lemma LaterSort(k: nat)
    requires k == 1 || k == 2
    ensures SortFrom(Swapped(Round(k), 0, 1), 0) == Sorting(Round(k), true)
  {
    var s := Swapped(Round(k), 0, 1);
    RoundsAreSorted(k);
    RoundsAreClean(k);
    RoundsArePlain(k);
    PlainConflict(s[1], s[0]);
    assert Swapped(s, 0, 1) == Round(k);
    SortAfterSwap(s);
  }

  lemma RoundsAreSane(k: nat, s: seq<Region>)
    requires SortFrom(s, 0) == Sorting(Round(k), true)
    ensures Sanitized(s, CHECKS) == Checked(Round(k), Sane)
  {
    SortKeeps(s, 0);
    RoundsArePlain(k);
    RoundsEnd(k);
    SaneTable(s, Round(k));
  }

  /** The call succeeds and ends with the third table. */
  lemma AddSucceeds()
    ensures Settling(Before() + [ADDED], CHECKS) == Checked(Round(2), Sane)
    ensures Sanitized(Before() + [ADDED], CHECKS).list == Round(0)
  {
    Merges();
    FirstSort();
    LaterSort(1);
    LaterSort(2);
    RoundsAreSane(0, Before() + [ADDED]);
    RoundsAreSane(1, Swapped(Round(1), 0, 1));
    RoundsAreSane(2, Swapped(Round(2), 0, 1));
  }

  /** The table before the call is settled, and the call is not refused for a conflict. */
  lemma BeforeIsSettled()
    ensures Settling(Before(), CHECKS) == Checked(Before(), Sane)
    ensures forall r <- Before() :: !IsRegionConflict(ADDED, r)
  {
    var s := Before();
    RoundsArePlain(0);
    RoundsAreClean(0);
    RoundsAreSorted(0);
    forall r | r in s
      ensures !IsRegionConflict(ADDED, r)
    {
      PlainConflict(ADDED, r);
    }
    SortSorted(s);
    SaneTable(s, s);
    Merges();
  }

  /**
    Different keys at the start are not enough: merging can create equal keys, and
    a later merge then moves one of the two regions behind the other. Adding this
    region to this settled table succeeds, and address 16, closed in the sorted
    table, is open in the end.
   */
  lemma EqualKeysChangeDecisions()
    ensures Settling(Before(), CHECKS) == Checked(Before(), Sane) && forall r <- Before() :: !IsRegionConflict(ADDED, r)
    ensures Settling(Before() + [ADDED], CHECKS) == Checked(Round(2), Sane)
    ensures Sanitized(Before() + [ADDED], CHECKS).list == Round(0) && DistinctKeys(Round(0)) && AllAligned(Round(0))
    ensures !Allowed(Round(0), S, 16, Access(true, false, false, false))
    ensures Allowed(Round(2), S, 16, Access(true, false, false, false))
  {
    BeforeIsSettled();
    AddSucceeds();
    RoundsArePlain(0);
    RoundsAreDistinct(0);
    PlainList(Round(0));
    PlainIsAligned(Round(0)[0]);
    PlainIsAligned(Round(2)[0]);
    SmallPowers();
    AnswerOfTail(Round(0), S, 16);
    AnswerOfTail(Round(2), S, 16);
  }
}
