/**
  Which conflicts the sort of sanitize_domain sees (opensbi/lib/sbi/sbi_domain.c). It
  compares each region only with the least one found so far, so a pair of regions
  goes uncompared when a third one, met before the second of them, has its place
  strictly between theirs.
 */
module ConflictCheck {
  import opened Domain
  import opened RegionSort

  /** Some region before position q belongs after the one at q and before the one at p. */
  ghost predicate Hidden(s: seq<Region>, p: nat, q: nat)
    requires p < |s| && q < |s|
  {
    exists r :: 0 <= r < q && IsRegionBefore(s[q], s[r]) && IsRegionBefore(s[r], s[p])
  }

  /** The pairs that a state of the sort has still to compare: the outer loop is at i, the inner one at j. */
  predicate Open(s: seq<Region>, i: nat, j: nat, p: nat, q: nat)
  {
    i <= p < q < |s| && !(p == i && q < j)
  }

  ghost predicate AllHidden(s: seq<Region>, i: nat, j: nat)
  {
    forall p: nat, q: nat {:trigger Open(s, i, j, p, q)} ::
      Open(s, i, j, p, q) && IsRegionConflict(s[q], s[p]) ==> Hidden(s, p, q)
  }

  /** Whether the rest of the sort sees no conflict. */
  predicate SaneFrom(s: seq<Region>, i: nat, j: nat)
    requires i < j <= |s|
  {
    var r := SelectFrom(s, i, j);
    r.sane && SortFrom(r.list, i + 1).sane
  }

  /** A region that conflicts with the least one found so far is behind another one that it has been compared with. */
  ghost predicate DoneHidden(s: seq<Region>, i: nat, j: nat)
    requires i < j <= |s|
  {
    forall q {:trigger Between(s, i, j, q)} :: i < q < j && IsRegionConflict(s[q], s[i]) ==> Between(s, i, j, q)
  }

  ghost predicate Between(s: seq<Region>, i: nat, j: nat, q: nat)
    requires i < j <= |s| && q < |s|
  {
    exists r :: i < r < j && IsRegionBefore(s[i], s[r]) && IsRegionBefore(s[r], s[q])
  }

  lemma ConflictSymmetric(r: Region, q: Region)
    ensures IsRegionConflict(r, q) == IsRegionConflict(q, r)
  {
  }

  // ---------------------------------------------------------------------
  // One exchange
  // ---------------------------------------------------------------------

  /** What is hidden behind position j stays so: the same regions come before it. */
  lemma SwapHiddenAbove(s: seq<Region>, i: nat, j: nat, p: nat, q: nat)
    requires i < j < q < |s| && p < |s|
    ensures var p' := if p == i then j else if p == j then i else p;
            Hidden(s, p, q) <==> Hidden(Swapped(s, i, j), p', q)
  {
    var t := Swapped(s, i, j);
    var p' := if p == i then j else if p == j then i else p;
    if Hidden(s, p, q) {
      var r :| 0 <= r < q && IsRegionBefore(s[q], s[r]) && IsRegionBefore(s[r], s[p]);
      var r' := if r == i then j else if r == j then i else r;
      assert IsRegionBefore(t[q], t[r']) && IsRegionBefore(t[r'], t[p']);
    }
    if Hidden(t, p', q) {
      var r :| 0 <= r < q && IsRegionBefore(t[q], t[r]) && IsRegionBefore(t[r], t[p']);
      var r' := if r == i then j else if r == j then i else r;
      assert IsRegionBefore(s[q], s[r']) && IsRegionBefore(s[r'], s[p]);
    }
  }

  /** What is hidden below it stays so: the least region hides nothing. */
  lemma SwapHiddenBelow(s: seq<Region>, i: nat, j: nat, p: nat, q: nat)
    requires i < p < q < j < |s| && LeastUpTo(s, i, j) && IsRegionBefore(s[j], s[i])
    ensures Hidden(s, p, q) <==> Hidden(Swapped(s, i, j), p, q)
  {
    var t := Swapped(s, i, j);
    if Hidden(s, p, q) {
      var r :| 0 <= r < q && IsRegionBefore(s[q], s[r]) && IsRegionBefore(s[r], s[p]);
      assert r != i && t[r] == s[r];
    }
    if Hidden(t, p, q) {
      var r :| 0 <= r < q && IsRegionBefore(t[q], t[r]) && IsRegionBefore(t[r], t[p]);
      assert r != i && t[r] == s[r];
    }
  }

  /** All that is hidden stays hidden, and the exchanged region is hidden from those before it. */
  lemma SwapAllHidden(s: seq<Region>, i: nat, j: nat)
    requires i < j < |s| && LeastFirst(s, i) && LeastUpTo(s, i, j) && IsRegionBefore(s[j], s[i])
    requires AllHidden(s, i, j) && DoneHidden(s, i, j)
    ensures AllHidden(Swapped(s, i, j), i, j + 1)
  {
    var t := Swapped(s, i, j);
    forall p: nat, q: nat | Open(t, i, j + 1, p, q) && IsRegionConflict(t[q], t[p])
      ensures Hidden(t, p, q)
    {
      if q > j {
        var p' := if p == i then j else if p == j then i else p;
        assert Open(s, i, j, p', q);
        SwapHiddenAbove(s, i, j, p', q);
      } else if q < j {
        assert Open(s, i, j, p, q);
        SwapHiddenBelow(s, i, j, p, q);
      } else {
        ConflictSymmetric(s[p], s[i]);
        assert Between(s, i, j, p);
        var r :| i < r < j && IsRegionBefore(s[i], s[r]) && IsRegionBefore(s[r], s[p]);
        assert IsRegionBefore(t[q], t[r]) && IsRegionBefore(t[r], t[p]);
      }
    }
  }

  lemma SwapDoneHidden(s: seq<Region>, i: nat, j: nat)
    requires i < j < |s| && LeastFirst(s, i) && LeastUpTo(s, i, j) && AllHidden(s, i, j)
    requires IsRegionBefore(s[j], s[i]) && !IsRegionConflict(s[j], s[i])
    ensures DoneHidden(Swapped(s, i, j), i, j + 1)
  {
    var t := Swapped(s, i, j);
    forall q | i < q < j + 1 && IsRegionConflict(t[q], t[i])
      ensures Between(t, i, j + 1, q)
    {
      ConflictSymmetric(t[q], t[i]);
      ConflictSymmetric(s[j], s[i]);
      assert q < j && Open(s, i, j, q, j);
      var r :| 0 <= r < j && IsRegionBefore(s[j], s[r]) && IsRegionBefore(s[r], s[q]);
      assert r >= i;
      assert IsRegionBefore(t[i], t[j]) && IsRegionBefore(t[j], t[q]);
    }
  }

  /** The pair that is compared next is not hidden. */
  lemma NextIsOpen(s: seq<Region>, i: nat, j: nat)
    requires i < j < |s| && LeastFirst(s, i) && LeastUpTo(s, i, j)
    ensures !Hidden(s, i, j)
  {
  }

  lemma SwapKeepsKeys(s: seq<Region>, i: nat, j: nat)
    requires i < j < |s| && DistinctKeys(s)
    ensures DistinctKeys(Swapped(s, i, j))
  {
  }

  /** Before the exchange the same conflicts were hidden, when no keys are equal. */
  lemma SwapAllHiddenBack(s: seq<Region>, i: nat, j: nat)
    requires i < j < |s| && LeastUpTo(s, i, j) && IsRegionBefore(s[j], s[i]) && DistinctKeys(s)
    requires !IsRegionConflict(s[j], s[i]) && AllHidden(Swapped(s, i, j), i, j + 1)
    ensures AllHidden(s, i, j)
  {
    var t := Swapped(s, i, j);
    forall p: nat, q: nat | Open(s, i, j, p, q) && IsRegionConflict(s[q], s[p])
      ensures Hidden(s, p, q)
    {
      if q > j {
        var p' := if p == i then j else if p == j then i else p;
        assert Open(t, i, j + 1, p', q);
        SwapHiddenAbove(s, i, j, p, q);
      } else if q < j {
        assert Open(t, i, j + 1, p, q);
        SwapHiddenBelow(s, i, j, p, q);
      } else {
        assert i < p && IsRegionBefore(s[j], s[i]) && IsRegionBefore(s[i], s[p]);
      }
    }
  }

  // ---------------------------------------------------------------------
  // The whole sort
  // ---------------------------------------------------------------------

  lemma SaneNext(s: seq<Region>, i: nat)
    requires i + 2 < |s|
    ensures SaneFrom(s, i, |s|) == SaneFrom(s, i + 1, i + 2)
  {
  }

  /** A state of the sort: the outer loop is at i, the inner one at j. */
  ghost predicate At(s: seq<Region>, i: nat, j: nat)
  {
    i < j <= |s| && LeastFirst(s, i) && LeastUpTo(s, i, j)
  }

  /** The list after the inner loop has looked at position j. */
  function Stepped(s: seq<Region>, i: nat, j: nat): (t: seq<Region>)
    requires i < j < |s|
    ensures |t| == |s|
  {
    if IsRegionBefore(s[j], s[i]) then Swapped(s, i, j) else s
  }

  lemma AtStep(s: seq<Region>, i: nat, j: nat)
    requires At(s, i, j) && j < |s|
    ensures At(Stepped(s, i, j), i, j + 1)
  {
    if IsRegionBefore(s[j], s[i]) {
      SwapKeeps(s, i, j);
    } else {
      NextStays(s, i, j);
    }
  }

  lemma AtRound(s: seq<Region>, i: nat)
    requires At(s, i, |s|) && i + 2 < |s|
    ensures At(s, i + 1, i + 2) && DoneHidden(s, i + 1, i + 2)
  {
    LeastChosen(s, i);
  }

  lemma SaneStep(s: seq<Region>, i: nat, j: nat)
    requires i < j < |s|
    ensures SaneFrom(s, i, j) <==> !IsRegionConflict(s[j], s[i]) && SaneFrom(Stepped(s, i, j), i, j + 1)
  {
  }

  lemma HiddenStep(s: seq<Region>, i: nat, j: nat)
    requires At(s, i, j) && j < |s| && AllHidden(s, i, j) && DoneHidden(s, i, j)
    ensures !IsRegionConflict(s[j], s[i])
    ensures AllHidden(Stepped(s, i, j), i, j + 1) && DoneHidden(Stepped(s, i, j), i, j + 1)
  {
    NextIsOpen(s, i, j);
    assert Open(s, i, j, i, j);
    if IsRegionBefore(s[j], s[i]) {
      SwapAllHidden(s, i, j);
      SwapDoneHidden(s, i, j);
    } else {
      OneMoreHidden(s, i, j);
    }
  }

  /** A state of the sort in which no conflict will be seen. */
  ghost predicate Quiet(s: seq<Region>, i: nat, j: nat)
  {
    At(s, i, j) && AllHidden(s, i, j) && DoneHidden(s, i, j)
  }

  lemma QuietStep(s: seq<Region>, i: nat, j: nat)
    requires Quiet(s, i, j) && j < |s|
    ensures Quiet(Stepped(s, i, j), i, j + 1)
    ensures SaneFrom(s, i, j) == SaneFrom(Stepped(s, i, j), i, j + 1)
  {
    HiddenStep(s, i, j);
    AtStep(s, i, j);
    SaneStep(s, i, j);
  }

  lemma QuietRound(s: seq<Region>, i: nat)
    requires Quiet(s, i, |s|) && i + 2 < |s|
    ensures Quiet(s, i + 1, i + 2) && SaneFrom(s, i, |s|) == SaneFrom(s, i + 1, i + 2)
  {
    AtRound(s, i);
    HiddenLater(s, i);
    SaneNext(s, i);
  }

  lemma {:induction false} HiddenIsSane(s: seq<Region>, i: nat, j: nat)
    requires i < j <= |s| && Quiet(s, i, j)
    ensures SaneFrom(s, i, j)
    decreases |s| - i, |s| - j
  {
    if j < |s| {
      QuietStep(s, i, j);
      HiddenIsSane(Stepped(s, i, j), i, j + 1);
    } else if i + 2 < |s| {
      QuietRound(s, i);
      HiddenIsSane(s, i + 1, i + 2);
    } else {
      SaneAtEnd(s, i);
    }
  }

  lemma SaneAtEnd(s: seq<Region>, i: nat)
    requires i < |s| <= i + 2
    ensures SaneFrom(s, i, |s|)
  {
  }

  lemma OneMoreHidden(s: seq<Region>, i: nat, j: nat)
    requires i < j < |s| && !IsRegionConflict(s[j], s[i])
    ensures AllHidden(s, i, j) <==> AllHidden(s, i, j + 1)
    ensures DoneHidden(s, i, j) ==> DoneHidden(s, i, j + 1)
  {
    forall p: nat, q: nat | p < q < |s| && IsRegionConflict(s[q], s[p])
      ensures Open(s, i, j, p, q) <==> Open(s, i, j + 1, p, q)
    {
    }
    if AllHidden(s, i, j) {
      forall p: nat, q: nat | Open(s, i, j + 1, p, q) && IsRegionConflict(s[q], s[p])
        ensures Hidden(s, p, q)
      {
        assert Open(s, i, j, p, q);
      }
    }
    if DoneHidden(s, i, j) {
      forall q | i < q < j + 1 && IsRegionConflict(s[q], s[i])
        ensures Between(s, i, j + 1, q)
      {
        assert Between(s, i, j, q);
        var r :| i < r < j && IsRegionBefore(s[i], s[r]) && IsRegionBefore(s[r], s[q]);
        assert i < r < j + 1;
      }
    }
  }

  /** The pairs open after the inner loop are those at the beginning of the next one. */
  lemma HiddenLater(s: seq<Region>, i: nat)
    requires i + 2 < |s|
    ensures AllHidden(s, i, |s|) <==> AllHidden(s, i + 1, i + 2)
  {
    if AllHidden(s, i, |s|) {
      forall p: nat, q: nat | Open(s, i + 1, i + 2, p, q) && IsRegionConflict(s[q], s[p])
        ensures Hidden(s, p, q)
      {
        assert Open(s, i, |s|, p, q);
      }
    }
    if AllHidden(s, i + 1, i + 2) {
      forall p: nat, q: nat | Open(s, i, |s|, p, q) && IsRegionConflict(s[q], s[p])
        ensures Hidden(s, p, q)
      {
        assert Open(s, i + 1, i + 2, p, q);
      }
    }
  }

  lemma HiddenBack(s: seq<Region>, i: nat, j: nat)
    requires At(s, i, j) && j < |s| && DistinctKeys(s) && !IsRegionConflict(s[j], s[i])
    requires AllHidden(Stepped(s, i, j), i, j + 1)
    ensures AllHidden(s, i, j)
  {
    if IsRegionBefore(s[j], s[i]) {
      SwapAllHiddenBack(s, i, j);
    } else {
      OneMoreHidden(s, i, j);
    }
  }

  lemma {:induction false} SaneIsHidden(s: seq<Region>, i: nat, j: nat)
    requires At(s, i, j) && DistinctKeys(s) && SaneFrom(s, i, j)
    ensures AllHidden(s, i, j)
    decreases |s| - i, |s| - j
  {
    if j < |s| {
      SaneStep(s, i, j);
      AtStep(s, i, j);
      SwapKeepsKeys(s, i, j);
      SaneIsHidden(Stepped(s, i, j), i, j + 1);
      HiddenBack(s, i, j);
    } else if i + 2 < |s| {
      SaneNext(s, i);
      AtRound(s, i);
      SaneIsHidden(s, i + 1, i + 2);
      HiddenLater(s, i);
    }
  }

  /** No conflict among the open pairs whose second region does not belong before the first. */
  ghost predicate OrderedClean(s: seq<Region>, i: nat, j: nat)
  {
    forall p: nat, q: nat {:trigger Open(s, i, j, p, q)} ::
      Open(s, i, j, p, q) && !IsRegionBefore(s[q], s[p]) ==> !IsRegionConflict(s[q], s[p])
  }

  lemma SwapOrderedClean(s: seq<Region>, i: nat, j: nat)
    requires i < j < |s| && LeastUpTo(s, i, j) && IsRegionBefore(s[j], s[i])
    requires OrderedClean(Swapped(s, i, j), i, j + 1)
    ensures OrderedClean(s, i, j)
  {
    var t := Swapped(s, i, j);
    forall p: nat, q: nat | Open(s, i, j, p, q) && !IsRegionBefore(s[q], s[p])
      ensures !IsRegionConflict(s[q], s[p])
    {
      assert q != j;
      var p' := if q > j && p == i then j else if q > j && p == j then i else p;
      assert Open(t, i, j + 1, p', q) && t[p'] == s[p] && t[q] == s[q];
    }
  }

  lemma CleanBack(s: seq<Region>, i: nat, j: nat)
    requires At(s, i, j) && j < |s| && !IsRegionConflict(s[j], s[i])
    requires OrderedClean(Stepped(s, i, j), i, j + 1)
    ensures OrderedClean(s, i, j)
  {
    if IsRegionBefore(s[j], s[i]) {
      SwapOrderedClean(s, i, j);
    } else {
      OneMoreClean(s, i, j);
    }
  }

  lemma {:induction false} SaneIsOrderedClean(s: seq<Region>, i: nat, j: nat)
    requires At(s, i, j) && SaneFrom(s, i, j)
    ensures OrderedClean(s, i, j)
    decreases |s| - i, |s| - j
  {
    if j < |s| {
      SaneStep(s, i, j);
      AtStep(s, i, j);
      SaneIsOrderedClean(Stepped(s, i, j), i, j + 1);
      CleanBack(s, i, j);
    } else if i + 2 < |s| {
      SaneNext(s, i);
      AtRound(s, i);
      SaneIsOrderedClean(s, i + 1, i + 2);
      CleanLater(s, i);
    }
  }

  lemma CleanLater(s: seq<Region>, i: nat)
    requires i + 2 < |s| && OrderedClean(s, i + 1, i + 2)
    ensures OrderedClean(s, i, |s|)
  {
    forall p: nat, q: nat | Open(s, i, |s|, p, q)
      ensures Open(s, i + 1, i + 2, p, q)
    {
    }
  }

  lemma OneMoreClean(s: seq<Region>, i: nat, j: nat)
    requires i < j < |s| && OrderedClean(s, i, j + 1) && !IsRegionConflict(s[j], s[i])
    ensures OrderedClean(s, i, j)
  {
    forall p: nat, q: nat | Open(s, i, j, p, q) && (p, q) != (i, j)
      ensures Open(s, i, j + 1, p, q)
    {
    }
  }

  // ---------------------------------------------------------------------
  // The verdict
  // ---------------------------------------------------------------------

  /**
    Every pair of conflicting regions has a third one, met before the second of
    them, with its place strictly between theirs.
   */
  ghost predicate ConflictsHidden(s: seq<Region>)
  {
    forall p: nat, q: nat :: p < q < |s| && IsRegionConflict(s[q], s[p]) ==> Hidden(s, p, q)
  }

  lemma HiddenFromStart(s: seq<Region>)
    ensures ConflictsHidden(s) <==> AllHidden(s, 0, 1)
  {
    if AllHidden(s, 0, 1) {
      forall p: nat, q: nat | p < q < |s| && IsRegionConflict(s[q], s[p])
        ensures Hidden(s, p, q)
      {
        assert Open(s, 0, 1, p, q);
      }
    }
  }

  /** Hidden conflicts are never seen, in any table. */
  lemma HiddenConflictsPass(s: seq<Region>)
    requires ConflictsHidden(s)
    ensures SortFrom(s, 0).sane
  {
    if |s| >= 2 {
      HiddenFromStart(s);
      HiddenIsSane(s, 0, 1);
    }
  }

  /** A conflict of a region with a later one that does not belong before it is always seen, in any table. */
  lemma OrderedConflictsAreSeen(s: seq<Region>, p: nat, q: nat)
    requires p < q < |s| && IsRegionConflict(s[q], s[p]) && !IsRegionBefore(s[q], s[p])
    ensures !SortFrom(s, 0).sane
  {
    if SortFrom(s, 0).sane {
      SaneIsOrderedClean(s, 0, 1);
      assert Open(s, 0, 1, p, q);
    }
  }

  /** When no two regions share order and base, the sort overlooks a conflict if and only if it is hidden. */
  lemma SaneIffConflictsHidden(s: seq<Region>)
    requires DistinctKeys(s)
    ensures SortFrom(s, 0).sane <==> ConflictsHidden(s)
  {
    if |s| >= 2 {
      HiddenFromStart(s);
      if SortFrom(s, 0).sane {
        SaneIsHidden(s, 0, 1);
      } else if ConflictsHidden(s) {
        HiddenConflictsPass(s);
      }
    }
  }
}
