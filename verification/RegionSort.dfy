/**
  The sort of sanitize_domain (opensbi/lib/sbi/sbi_domain.c) on lists: an exchange
  sort by (order, base) that gives up at the first conflict it happens to see.
 */
module RegionSort {
  import opened Domain

  /** What the sort leaves, and whether it saw no conflict. */
  datatype Sorting = Sorting(list: seq<Region>, sane: bool)

  function Swapped(s: seq<Region>, i: nat, j: nat): seq<Region>
    requires i < j < |s|
  {
    s[i := s[j]][j := s[i]]
  }

  /** The inner loop from j on: whatever belongs before the region at i takes its place. */
  function SelectFrom(s: seq<Region>, i: nat, j: nat): (r: Sorting)
    requires i < j <= |s|
    ensures |r.list| == |s|
    decreases |s| - j
  {
    if j == |s| then Sorting(s, true)
    else if IsRegionConflict(s[j], s[i]) then Sorting(s, false)
    else SelectFrom(if IsRegionBefore(s[j], s[i]) then Swapped(s, i, j) else s, i, j + 1)
  }

  /** The outer loop from i on. */
  function SortFrom(s: seq<Region>, i: nat): (r: Sorting)
    ensures |r.list| == |s|
    decreases |s| - i
  {
    if i + 1 >= |s| then Sorting(s, true)
    else
      var r := SelectFrom(s, i, i + 1);
      if r.sane then SortFrom(r.list, i + 1) else r
  }

  ghost predicate HasConflict(s: seq<Region>)
  {
    exists i, j :: 0 <= i < j < |s| && IsRegionConflict(s[j], s[i])
  }

  /** The first i regions are in place: sorted, and before all others. */
  ghost predicate LeastFirst(s: seq<Region>, i: nat)
  {
    forall x, y :: 0 <= x < i && x < y < |s| ==> !IsRegionBefore(s[y], s[x])
  }

  /** None of the regions between i and j belongs before the one at i. */
  ghost predicate LeastUpTo(s: seq<Region>, i: nat, j: nat)
  {
    i < j <= |s| && forall k :: i < k < j ==> !IsRegionBefore(s[k], s[i])
  }

  lemma SwapKeeps(s: seq<Region>, i: nat, j: nat)
    requires i < j < |s| && LeastFirst(s, i) && LeastUpTo(s, i, j) && IsRegionBefore(s[j], s[i])
    ensures LeastFirst(Swapped(s, i, j), i) && LeastUpTo(Swapped(s, i, j), i, j + 1)
  {
  }

  lemma LeastChosen(s: seq<Region>, i: nat)
    requires LeastFirst(s, i) && LeastUpTo(s, i, |s|)
    ensures LeastFirst(s, i + 1)
  {
  }

  lemma ConflictSeen(s: seq<Region>, i: nat, j: nat)
    requires i < j < |s| && IsRegionConflict(s[j], s[i])
    ensures HasConflict(s)
  {
  }

  lemma NextStays(s: seq<Region>, i: nat, j: nat)
    requires LeastUpTo(s, i, j) && j < |s| && !IsRegionBefore(s[j], s[i])
    ensures LeastUpTo(s, i, j + 1)
  {
  }

  lemma {:induction false} SelectPermutes(s: seq<Region>, i: nat, j: nat)
    requires i < j <= |s|
    ensures multiset(SelectFrom(s, i, j).list) == multiset(s)
    ensures !SelectFrom(s, i, j).sane ==> HasConflict(SelectFrom(s, i, j).list)
    decreases |s| - j
  {
    if j < |s| {
      if IsRegionConflict(s[j], s[i]) {
        ConflictSeen(s, i, j);
      } else {
        var next := if IsRegionBefore(s[j], s[i]) then Swapped(s, i, j) else s;
        SelectPermutes(next, i, j + 1);
        assert SelectFrom(s, i, j) == SelectFrom(next, i, j + 1) && multiset(next) == multiset(s);
      }
    }
  }

  lemma {:induction false} SelectChooses(s: seq<Region>, i: nat, j: nat)
    requires LeastFirst(s, i) && LeastUpTo(s, i, j) && SelectFrom(s, i, j).sane
    ensures LeastFirst(SelectFrom(s, i, j).list, i + 1)
    decreases |s| - j
  {
    if j == |s| {
      LeastChosen(s, i);
    } else if IsRegionBefore(s[j], s[i]) {
      SwapKeeps(s, i, j);
      SelectChooses(Swapped(s, i, j), i, j + 1);
    } else {
      NextStays(s, i, j);
      SelectChooses(s, i, j + 1);
    }
  }

  /** The result is a permutation of the list: sorted, or with a conflict. */
  lemma {:induction false} SortKeeps(s: seq<Region>, i: nat)
    requires LeastFirst(s, i)
    ensures var r := SortFrom(s, i);
            && multiset(r.list) == multiset(s)
            && (if r.sane then Sorted(r.list) else HasConflict(r.list))
    decreases |s| - i
  {
    if i + 1 < |s| {
      SelectPermutes(s, i, i + 1);
      var r := SelectFrom(s, i, i + 1);
      if r.sane {
        SelectChooses(s, i, i + 1);
        SortKeeps(r.list, i + 1);
      }
    }
  }

  /** No region from j on conflicts with the one at i. */
  ghost predicate NoConflictWith(s: seq<Region>, i: nat, j: nat)
    requires i < |s|
  {
    forall y :: j <= y < |s| ==> !IsRegionConflict(s[y], s[i])
  }

  ghost predicate NoConflictAfter(s: seq<Region>, i: nat)
    requires i < |s|
  {
    NoConflictWith(s, i, i + 1)
  }

  ghost predicate NoConflictFrom(s: seq<Region>, i: nat)
  {
    forall x :: i <= x < |s| ==> NoConflictAfter(s, x)
  }

  lemma {:induction false} SelectSorted(s: seq<Region>, i: nat, j: nat)
    requires Sorted(s) && i < j <= |s|
    ensures SelectFrom(s, i, j) == Sorting(s, NoConflictWith(s, i, j))
    decreases |s| - j
  {
    if j < |s| && !IsRegionConflict(s[j], s[i]) {
      SelectSorted(s, i, j + 1);
    }
  }

  lemma {:induction false} SortSortedFrom(s: seq<Region>, i: nat)
    requires Sorted(s)
    ensures SortFrom(s, i) == Sorting(s, NoConflictFrom(s, i))
    decreases |s| - i
  {
    if i + 1 < |s| {
      SelectSorted(s, i, i + 1);
      SortSortedFrom(s, i + 1);
      NoConflictFromNext(s, i);
      var r := SelectFrom(s, i, i + 1);
      assert r == Sorting(s, NoConflictAfter(s, i));
    } else {
      NothingFromLast(s, i);
    }
  }

  lemma NothingFromLast(s: seq<Region>, i: nat)
    requires i + 1 >= |s|
    ensures NoConflictFrom(s, i)
  {
  }

  lemma NoConflictFromNext(s: seq<Region>, i: nat)
    requires i < |s|
    ensures NoConflictFrom(s, i) <==> NoConflictAfter(s, i) && NoConflictFrom(s, i + 1)
  {
    assert NoConflictFrom(s, i) ==> NoConflictAfter(s, i);
  }

  /** On a sorted list nothing moves, and the conflict check is exact. */
  lemma SortSorted(s: seq<Region>)
    requires Sorted(s)
    ensures SortFrom(s, 0) == Sorting(s, !HasConflict(s))
  {
    SortSortedFrom(s, 0);
    if HasConflict(s) {
      var i, j :| 0 <= i < j < |s| && IsRegionConflict(s[j], s[i]);
      assert !NoConflictAfter(s, i);
    }
  }

  /** A list that only needs its first two regions exchanged. */
  lemma SortAfterSwap(s: seq<Region>)
    requires |s| >= 2 && IsRegionBefore(s[1], s[0]) && !IsRegionConflict(s[1], s[0])
    requires Sorted(Swapped(s, 0, 1)) && NoConflictFrom(Swapped(s, 0, 1), 0)
    ensures SortFrom(s, 0) == Sorting(Swapped(s, 0, 1), true)
  {
    var t := Swapped(s, 0, 1);
    assert SelectFrom(s, 0, 1) == SelectFrom(t, 0, 2);
    SelectSorted(t, 0, 2);
    assert NoConflictAfter(t, 0);
    SortSortedFrom(t, 1);
  }

  lemma TailMultiset<T>(s: seq<T>)
    requires s != []
    ensures multiset(s[1..]) == multiset(s) - multiset{s[0]}
  {
    assert s == [s[0]] + s[1..];
  }

  /** The inner loop does nothing when no region from j on conflicts with the one at i or belongs before it. */
  lemma {:induction false} SelectIdle(s: seq<Region>, i: nat, j: nat)
    requires i < j <= |s| && NoConflictWith(s, i, j)
    requires forall y :: j <= y < |s| ==> !IsRegionBefore(s[y], s[i])
    ensures SelectFrom(s, i, j) == Sorting(s, true)
    decreases |s| - j
  {
    if j < |s| {
      SelectIdle(s, i, j + 1);
    }
  }

  /** Two sorted lists of the same regions, with different keys, are the same. */
  lemma {:induction false} SortedUnique(s: seq<Region>, t: seq<Region>)
    requires Sorted(s) && Sorted(t) && multiset(s) == multiset(t) && DistinctKeys(s)
    ensures s == t
  {
    if s != [] {
      assert t != [] by {
        assert s[0] in multiset(t);
      }
      FirstUnique(s, t);
      TailMultiset(s);
      TailMultiset(t);
      SortedUnique(s[1..], t[1..]);
    }
  }

  lemma FirstUnique(s: seq<Region>, t: seq<Region>)
    requires Sorted(s) && Sorted(t) && multiset(s) == multiset(t) && DistinctKeys(s) && s != [] && t != []
    ensures s[0] == t[0]
  {
    assert t[0] in multiset(s) && s[0] in multiset(t);
    var i :| 0 <= i < |s| && s[i] == t[0];
    var j :| 0 <= j < |t| && t[j] == s[0];
    assert i > 0 ==> !IsRegionBefore(s[i], s[0]);
    assert j > 0 ==> !IsRegionBefore(t[j], t[0]);
  }

  /** No two regions share both base and flags. */
  ghost predicate DistinctMarks(s: seq<Region>)
  {
    forall i, j :: 0 <= i < j < |s| ==> s[i].base != s[j].base || s[i].flags != s[j].flags
  }

  ghost predicate AllValid(s: seq<Region>)
  {
    forall r <- s :: IsRegionValid(r)
  }

  lemma NoConflictIfDistinct(s: seq<Region>)
    requires DistinctMarks(s) && AllValid(s)
    ensures NoConflictFrom(s, 0) && !HasConflict(s)
  {
    NoConflictIfDistinctFrom(s, 0);
    forall i, j | 0 <= i < j < |s|
      ensures !IsRegionConflict(s[j], s[i])
    {
      assert NoConflictAfter(s, i);
    }
  }

  lemma NoConflictIfDistinctFrom(s: seq<Region>, n: nat)
    requires AllValid(s) && n <= |s| && DistinctMarks(s[n..])
    ensures NoConflictFrom(s, n)
  {
    forall i, j | n <= i < j < |s|
      ensures !IsRegionConflict(s[j], s[i])
    {
      assert s[i] == s[n..][i - n] && s[j] == s[n..][j - n];
      ConflictIffSameBase(s[j], s[i]);
    }
  }

  lemma PermutationDistinctMarks(s: seq<Region>, t: seq<Region>)
    requires DistinctMarks(s) && multiset(s) == multiset(t)
    ensures DistinctMarks(t)
  {
    forall i, j | 0 <= i < j < |t|
      ensures t[i].base != t[j].base || t[i].flags != t[j].flags
    {
      if t[i] == t[j] {
        OccursTwice(t, i, j);
        var i', j' := TwoPlaces(s, t[i]);
      } else {
        assert t[i] in multiset(s) && t[j] in multiset(s);
        var i' :| 0 <= i' < |s| && s[i'] == t[i];
        var j' :| 0 <= j' < |s| && s[j'] == t[j];
      }
    }
  }

  /** Regions that nowhere share base and flags, with different keys, are sorted without complaint. */
  lemma SortsTo(s: seq<Region>, t: seq<Region>)
    requires AllValid(s) && DistinctMarks(s) && Sorted(t) && DistinctKeys(t) && multiset(s) == multiset(t)
    ensures SortFrom(s, 0) == Sorting(t, true)
  {
    SortKeeps(s, 0);
    var r := SortFrom(s, 0);
    PermutationDistinctMarks(s, r.list);
    assert AllValid(r.list) by {
      forall q | q in r.list
        ensures IsRegionValid(q)
      {
        assert q in multiset(s);
      }
    }
    NoConflictIfDistinct(r.list);
    SortedUnique(t, r.list);
  }
}
