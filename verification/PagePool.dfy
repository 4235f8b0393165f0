/**
  Bao's physical page pools (bao-hypervisor/src/core/mem.c): the uncoloured
  allocator and the reservation of fixed pages, over a bitmap whose set bits are
  pages in use.
 */
module PagePool {
  import opened Basics
  import opened Bits
  import opened Bitmap

  /** Pages from `first` on, numbered within the pool. */
  datatype Range = Range(first: nat, count: nat)

  predicate Disjoint(p: Range, q: Range)
  {
    p.first + p.count <= q.first || q.first + q.count <= p.first
  }

  // ---------------------------------------------------------------------
  // The search of pp_alloc
  // ---------------------------------------------------------------------

  /** The offset that the aligned search adds to an index before it looks at the remainder. */
  function Offset(basePage: nat, n: nat, aligned: bool): (start: nat)
    requires n > 0
  {
    if aligned then n - basePage % n else 0
  }

  lemma OffsetAligns(basePage: nat, n: nat)
    requires n > 0
    ensures 1 <= Offset(basePage, n, true) <= n && (basePage + Offset(basePage, n, true)) % n == 0
  {
    AddMultiple(0, basePage / n + 1, n);
  }

  predicate Accepted(bit: nat, start: nat, n: nat, aligned: bool)
    requires n > 0
  {
    aligned ==> (bit + start) % n == 0
  }

  /** One of the two searches: from curr on, take the first run, or move on by the remainder when it is not aligned. */
  function Search(s: seq<bool>, size: nat, curr: nat, n: nat, start: nat, aligned: bool): (r: Option<nat>)
    requires size <= |s| && n > 0
    ensures r.Some? ==> curr <= r.value && Fits(s, size, r.value, n, false) && Accepted(r.value, start, n, aligned)
    ensures !aligned ==> r == FindRun(s, size, curr, n, false)
    decreases if curr <= size then size - curr else 0
  {
    match FindRun(s, size, curr, n, false)
    case None => None
    case Some(bit) =>
      if Accepted(bit, start, n, aligned) then Some(bit)
      else Search(s, size, bit + (bit + start) % n, n, start, aligned)
  }

  lemma SearchEnds(s: seq<bool>, size: nat, curr: nat, n: nat, start: nat, aligned: bool, r: Option<nat>)
    requires size <= |s| && n > 0 && FindRun(s, size, curr, n, false) == r
    requires r.Some? ==> Accepted(r.value, start, n, aligned)
    ensures Search(s, size, curr, n, start, aligned) == r
  {
  }

  lemma SearchGoesOn(s: seq<bool>, size: nat, curr: nat, n: nat, start: nat, aligned: bool, bit: nat, next: nat)
    requires size <= |s| && n > 0 && FindRun(s, size, curr, n, false) == Some(bit)
    requires !Accepted(bit, start, n, aligned) && next == bit + (bit + start) % n
    ensures Search(s, size, curr, n, start, aligned) == Search(s, size, next, n, start, aligned)
    ensures curr < next && curr < size
  {
  }

  /** Both searches of pp_alloc: from the last allocation, then from the beginning. */
  function Allocated(s: seq<bool>, size: nat, basePage: nat, last: nat, n: nat, aligned: bool): (r: Option<nat>)
    requires size <= |s|
  {
    if n == 0 then None
    else
      var start := Offset(basePage, n, aligned);
      var first := Search(s, size, Begin(last, start, n), n, start, aligned);
      if first.Some? then first
      else Search(s, size, Restart(start, n, aligned), n, start, aligned)
  }

  /** Where the first search begins, and where the second does. */
  function Begin(last: nat, start: nat, n: nat): nat
    requires n > 0
  {
    last + (last + start) % n
  }

  function Restart(start: nat, n: nat, aligned: bool): nat
    requires n > 0
  {
    if aligned then start % n else 0
  }

  lemma AllocatedFits(s: seq<bool>, size: nat, basePage: nat, last: nat, n: nat, aligned: bool)
    requires size <= |s| && Allocated(s, size, basePage, last, n, aligned).Some?
    ensures n > 0 && Fits(s, size, Allocated(s, size, basePage, last, n, aligned).value, n, false)
  {
  }

  /** An unaligned request fails exactly when the pool has no n consecutive free pages. */
  lemma UnalignedComplete(s: seq<bool>, size: nat, basePage: nat, last: nat, n: nat)
    requires size <= |s| && n > 0
    ensures Allocated(s, size, basePage, last, n, false) == None <==> forall i: nat :: !Fits(s, size, i, n, false)
  {
    if Allocated(s, size, basePage, last, n, false) == None {
      assert FindRun(s, size, 0, n, false) == None;
    }
  }

  /**
    It takes the first free run from a place after the last allocation on, and only
    if there is none, the first of all.
   */
  lemma UnalignedNextFit(s: seq<bool>, size: nat, basePage: nat, last: nat, n: nat)
    requires size <= |s| && n > 0 && Allocated(s, size, basePage, last, n, false).Some?
    ensures var i, from := Allocated(s, size, basePage, last, n, false).value, last + last % n;
            && Fits(s, size, i, n, false)
            && (from <= i ==> forall j: nat :: from <= j < i ==> !Fits(s, size, j, n, false))
            && (i < from ==> forall j: nat :: j < i || from <= j ==> !Fits(s, size, j, n, false))
  {
    var from := last + last % n;
    assert Begin(last, Offset(basePage, n, false), n) == from;
    assert FindRun(s, size, from, n, false) == None ==>
             forall j: nat :: from <= j ==> !Fits(s, size, j, n, false);
  }

  /**
    What the search for an aligned run returns is aligned in physical memory if and
    only if twice the pool's first page number is a multiple of n.
   */
  lemma AlignedResult(s: seq<bool>, size: nat, basePage: nat, last: nat, n: nat)
    requires size <= |s| && n > 0 && Allocated(s, size, basePage, last, n, true).Some?
    ensures (basePage + Allocated(s, size, basePage, last, n, true).value) % n == 0 <==> 2 * basePage % n == 0
  {
    var bit, start := Allocated(s, size, basePage, last, n, true).value, Offset(basePage, n, true);
    OffsetAligns(basePage, n);
    if bit <= basePage {
      SameComplement(bit, basePage, start, n);
      SameSum(bit, basePage, basePage, n);
    } else {
      SameComplement(basePage, bit, start, n);
      SameSum(basePage, bit, basePage, n);
    }
  }

  /** In particular it is aligned when the pool's base is. */
  lemma AlignedPoolGivesAlignedResult(s: seq<bool>, size: nat, basePage: nat, last: nat, n: nat)
    requires size <= |s| && n > 0 && basePage % n == 0 && Allocated(s, size, basePage, last, n, true).Some?
    ensures (basePage + Allocated(s, size, basePage, last, n, true).value) % n == 0
  {
    AlignedResult(s, size, basePage, last, n);
    SumOfMultiples(basePage, basePage, n);
  }

  lemma {:induction false} SearchComplete(s: seq<bool>, size: nat, curr: nat, n: nat, start: nat, i: nat)
    requires size <= |s| && 0 < n <= 2 && Search(s, size, curr, n, start, true) == None
    requires curr <= i && Fits(s, size, i, n, false)
    ensures !Accepted(i, start, n, true)
    decreases size - curr
  {
    var bit := FindRun(s, size, curr, n, false).value;
    if bit < i {
      SearchComplete(s, size, bit + (bit + start) % n, n, start, i);
    }
  }

  /** An aligned request for one or two pages fails exactly when no run at an accepted position is free. */
  lemma AlignedCompleteUpToTwo(s: seq<bool>, size: nat, basePage: nat, last: nat, n: nat)
    requires size <= |s| && 0 < n <= 2
    ensures Allocated(s, size, basePage, last, n, true) == None
            <==> forall i: nat :: Fits(s, size, i, n, false) ==> !Accepted(i, Offset(basePage, n, true), n, true)
  {
    var start := Offset(basePage, n, true);
    OffsetAligns(basePage, n);
    if Allocated(s, size, basePage, last, n, true) == None {
      forall i: nat | Fits(s, size, i, n, false)
        ensures !Accepted(i, start, n, true)
      {
        if i < start % n {
          assert n == 2 && i == 0 && start == 1;
        } else {
          SearchComplete(s, size, start % n, n, start, i);
        }
      }
    }
  }

  /** The search does not step past an accepted run that starts right after a page in use. */
  lemma {:induction false} SearchReaches(s: seq<bool>, size: nat, curr: nat, n: nat, start: nat, i: nat)
    requires size <= |s| && n > 0 && curr <= i && Fits(s, size, i, n, false) && (i + start) % n == 0
    requires i == curr || s[i - 1]
    ensures Search(s, size, curr, n, start, true).Some?
    decreases i - curr
  {
    var bit := FindRun(s, size, curr, n, false).value;
    if Accepted(bit, start, n, true) {
      SearchEnds(s, size, curr, n, start, true, Some(bit));
    } else {
      RunEndsBefore(s, size, bit, n, i);
      var next := bit + (bit + start) % n;
      SearchGoesOn(s, size, curr, n, start, true, bit, next);
      SearchReaches(s, size, next, n, start, i);
    }
  }

  lemma RunEndsBefore(s: seq<bool>, size: nat, bit: nat, n: nat, i: nat)
    requires size <= |s| && Fits(s, size, bit, n, false) && bit < i <= size && s[i - 1]
    ensures bit + n < i
  {
  }

  /**
    For every n: an aligned request succeeds when some run at an accepted position is
    free and starts where the second search does, or later, right after a page in use.
   */
  lemma AlignedFound(s: seq<bool>, size: nat, basePage: nat, last: nat, n: nat, i: nat)
    requires size <= |s| && n > 0 && Fits(s, size, i, n, false)
    requires (i + (n - basePage % n)) % n == 0 && (n - basePage % n) % n <= i
    requires i == (n - basePage % n) % n || s[i - 1]
    ensures Allocated(s, size, basePage, last, n, true).Some?
  {
    SearchReaches(s, size, Restart(Offset(basePage, n, true), n, true), n, Offset(basePage, n, true), i);
  }

  /** Such a run behind the last allocation keeps the search from starting over. */
  lemma AlignedNextFit(s: seq<bool>, size: nat, basePage: nat, last: nat, n: nat, i: nat)
    requires size <= |s| && n > 0 && Fits(s, size, i, n, false) && (i + (n - basePage % n)) % n == 0
    requires last + (last + (n - basePage % n)) % n <= i
    requires i == last + (last + (n - basePage % n)) % n || s[i - 1]
    ensures var r := Allocated(s, size, basePage, last, n, true);
            r.Some? && last + (last + (n - basePage % n)) % n <= r.value
  {
    var start := Offset(basePage, n, true);
    SearchReaches(s, size, Begin(last, start, n), n, start, i);
  }

  /**
    In a pool whose base is aligned, a free aligned run at the beginning or right
    after a page in use is enough, and what is found is aligned in physical memory.
   */
  lemma AlignedPoolFinds(s: seq<bool>, size: nat, basePage: nat, last: nat, n: nat, i: nat)
    requires size <= |s| && n > 0 && basePage % n == 0 && i % n == 0
    requires i + n <= size && (forall k :: i <= k < i + n ==> !s[k]) && (i == 0 || s[i - 1])
    ensures Allocated(s, size, basePage, last, n, true).Some?
    ensures (basePage + Allocated(s, size, basePage, last, n, true).value) % n == 0
  {
    Remainders(n);
    AddMultiple(i, 1, n);
    AlignedFound(s, size, basePage, last, n, i);
    AlignedPoolGivesAlignedResult(s, size, basePage, last, n);
  }

  /** n - 1 pages in use, then n + 1 free ones. */
  function Misleading(n: nat): seq<bool>
    requires n > 0
  {
    seq(2 * n, i => i < n - 1)
  }

  /**
    From three pages on, the step past an unaligned run can skip the aligned one:
    here pages n to 2n - 1 are free and aligned, and the request fails.
   */
  lemma AlignedSearchMisses(n: nat)
    requires n >= 3
    ensures Fits(Misleading(n), 2 * n, n, n, false) && n % n == 0
    ensures Allocated(Misleading(n), 2 * n, 0, 0, n, true) == None
  {
    var s := Misleading(n);
    Remainders(n);
    MissedRun(s, n);
    assert Offset(0, n, true) == n;
  }

  lemma Remainders(n: nat)
    requires n > 0
    ensures n % n == 0 && 0 % n == 0 && (n - 1 + n) % n == n - 1
  {
    AddMultiple(0, 1, n);
    AddMultiple(n - 1, 1, n);
  }

  lemma MissedRun(s: seq<bool>, n: nat)
    requires n >= 3 && s == Misleading(n) && (n - 1 + n) % n == n - 1
    ensures Search(s, 2 * n, 0, n, n, true) == None
  {
    MisleadingRuns(n);
    SearchGoesOn(s, 2 * n, 0, n, n, true, n - 1, 2 * n - 2);
    SearchEnds(s, 2 * n, 2 * n - 2, n, n, true, None);
  }

  lemma MisleadingRuns(n: nat)
    requires n >= 3
    ensures FindRun(Misleading(n), 2 * n, 0, n, false) == Some(n - 1)
    ensures FindRun(Misleading(n), 2 * n, 2 * n - 2, n, false) == None
  {
    var s := Misleading(n);
    assert Fits(s, 2 * n, n - 1, n, false);
    FindRunIs(s, 2 * n, 0, n, false, n - 1);
    FindRunIs(s, 2 * n, 2 * n - 2, n, false, 2 * n);
  }

  // ---------------------------------------------------------------------
  // The pool
  // ---------------------------------------------------------------------

  class Pool {
    const bits: array<bool>
    const size: nat
    const basePage: nat
    var free: nat
    var last: nat
    /** All ranges handed out or reserved so far; history. */
    ghost var taken: seq<Range>

    /** A pool with all pages free. */
    constructor (basePage: nat, size: nat)
      requires size <= SIZE_MAX
      ensures Valid() && fresh(bits) && this.size == size && this.basePage == basePage && free == size && taken == []
    {
      bits := new bool[size + 1](_ => false);
      this.size := size;
      this.basePage := basePage;
      free := size;
      last := 0;
      taken := [];
      new;
      CountAll(bits[..size], false);
    }

    ghost predicate Valid()
      reads this, bits
    {
      && size < bits.Length && size <= SIZE_MAX && last <= size
      && free == Count(bits[..size], false)
      && (forall i :: 0 <= i < |taken| ==> InUse(bits[..], size, taken[i]))
      && (forall i, j :: 0 <= i < j < |taken| ==> Disjoint(taken[i], taken[j]))
    }

    /** pp_alloc. */
    method Alloc(n: nat, aligned: bool) returns (r: Option<nat>)
      requires Valid()
      modifies this`free, this`last, this`taken, bits
      ensures Valid()
      ensures r == Allocated(old(bits[..]), size, basePage, old(last), n, aligned)
      ensures r == None ==> bits[..] == old(bits[..]) && taken == old(taken)
      ensures r.Some? ==>
                && Fits(old(bits[..]), size, r.value, n, false)
                && bits[..] == Filled(old(bits[..]), r.value, n, true)
                && taken == old(taken) + [Range(r.value, n)]
                && free == old(free) - n
      ensures last == if r.Some? then r.value + n else old(last)
    {
      if n == 0 {
        return None;
      }
      r := Find(n, aligned);
      if r.Some? {
        AllocatedFits(bits[..], size, basePage, last, n, aligned);
        Take(r.value, n);
        last := r.value + n;
      }
    }

    /** The two searches of pp_alloc. */
    method Find(n: nat, aligned: bool) returns (r: Option<nat>)
      requires Valid() && n > 0
      ensures r == Allocated(bits[..], size, basePage, last, n, aligned)
    {
      var start := Offset(basePage, n, aligned);
      r := SearchTwice(Begin(last, start, n), Restart(start, n, aligned), n, start, aligned);
    }

    /** The outer loop of pp_alloc. */
    method SearchTwice(from: nat, restart: nat, n: nat, start: nat, aligned: bool) returns (r: Option<nat>)
      requires Valid() && n > 0
      ensures var first := Search(bits[..], size, from, n, start, aligned);
              r == if first.Some? then first else Search(bits[..], size, restart, n, start, aligned)
    {
      ghost var s := bits[..];
      ghost var first := Search(s, size, from, n, start, aligned);
      if free == 0 {
        NoFreePage(s, size, from, n, start, aligned);
        NoFreePage(s, size, restart, n, start, aligned);
      }
      var i, curr := 0, from;
      r := None;
      while i < 2 && r == None
        invariant 0 <= i <= 2
        invariant i == 0 ==> r == None && curr == from
        invariant i == 1 ==> r == first && (r == None && free != 0 ==> curr == restart)
        invariant i == 2 ==> first == None && r == Search(s, size, restart, n, start, aligned)
      {
        r, curr := SearchFrom(curr, restart, n, start, aligned);
        i := i + 1;
      }
    }

    /** The inner loop of pp_alloc. */
    method SearchFrom(from: nat, restart: nat, n: nat, start: nat, aligned: bool) returns (r: Option<nat>, curr: nat)
      requires Valid() && n > 0
      ensures r == if free == 0 then None else Search(bits[..], size, from, n, start, aligned)
      ensures r == None && free != 0 ==> curr == restart
    {
      curr := from;
      while free != 0
        invariant Search(bits[..], size, curr, n, start, aligned) == Search(bits[..], size, from, n, start, aligned)
        decreases if curr <= size then size - curr else 0
      {
        var done;
        done, r, curr := Probe(curr, restart, n, start, aligned);
        if done {
          return;
        }
      }
      return None, curr;
    }

    /** One look for a run in the inner loop of pp_alloc. */
    method Probe(from: nat, restart: nat, n: nat, start: nat, aligned: bool)
        returns (done: bool, r: Option<nat>, curr: nat)
      requires Valid() && n > 0
      ensures done ==> r == Search(bits[..], size, from, n, start, aligned)
      ensures done && r == None ==> curr == restart
      ensures !done ==> from < curr && from < size
      ensures !done ==>
                Search(bits[..], size, curr, n, start, aligned) == Search(bits[..], size, from, n, start, aligned)
    {
      var bit := FindConsec(bits, size, from, n, false);
      if bit < 0 {
        SearchEnds(bits[..], size, from, n, start, aligned, None);
        return true, None, restart;
      } else if !Accepted(bit, start, n, aligned) {
        curr := bit + (bit + start) % n;
        SearchGoesOn(bits[..], size, from, n, start, aligned, bit, curr);
        return false, None, curr;
      } else {
        SearchEnds(bits[..], size, from, n, start, aligned, Some(bit));
        return true, Some(bit), from;
      }
    }

    /** Mark pages as used and account for them. */
    method Take(bit: nat, n: nat)
      requires Valid() && n > 0 && Fits(bits[..], size, bit, n, false)
      modifies this`free, this`taken, bits
      ensures Valid() && last == old(last)
      ensures bits[..] == Filled(old(bits[..]), bit, n, true) && taken == old(taken) + [Range(bit, n)] &&
              free == old(free) - n
    {
      ghost var s := bits[..];
      TakeCount(s, size, bit, n);
      TakeDisjoint(s, size, taken, Range(bit, n));
      SetConsecutive(bits, bit, n);
      free := Minus(free, n);
      taken := taken + [Range(bit, n)];
    }

    /** Whether a range of pages of the machine lies in the pool. */
    predicate InPool(page: nat, n: nat)
    {
      basePage <= page && page + n <= basePage + size
    }

    /** mem_are_ppages_reserved_in_pool */
    method AreReserved(page: nat, n: nat) returns (reserved: bool)
      requires Valid()
      ensures reserved <==> InPool(page, n) && !AllFree(bits[..], page - basePage, n)
    {
      reserved := false;
      if InPool(page, n) {
        var pageoff := page - basePage;
        var isAlloced := bits[pageoff];
        var available := CountConsecutive(bits, size, pageoff, n);
        reserved := isAlloced || available < n;
      }
    }

    /**
      mem_reserve_ppool_ppages. A range outside the pool is none of its business. A
      range inside is marked as used, and n pages are taken off the free count,
      whether they were free or not: the count stays right if and only if they
      were.
     */
    method Reserve(page: nat, n: nat) returns (ok: bool)
      requires Valid()
      modifies this`free, this`taken, bits
      ensures ok <==> InPool(page, n) ==> old(AllFree(bits[..], page - basePage, n))
      ensures !InPool(page, n) ==> Valid() && bits[..] == old(bits[..]) && taken == old(taken)
      ensures InPool(page, n) ==> bits[..] == Filled(old(bits[..]), page - basePage, n, true)
      ensures InPool(page, n) && ok ==> Valid() && (n > 0 ==> taken == old(taken) + [Range(page - basePage, n)])
      ensures InPool(page, n) && n > 0 ==> (free == Count(bits[..size], false) <==> ok)
    {
      if !InPool(page, n) {
        return true;
      }
      var pageoff := page - basePage;
      var reserved := AreReserved(page, n);
      ghost var s := bits[..];
      ReserveCount(s, size, pageoff, n);
      if !reserved && n > 0 {
        TakeDisjoint(s, size, taken, Range(pageoff, n));
        taken := taken + [Range(pageoff, n)];
      }
      SetConsecutive(bits, pageoff, n);
      free := Minus(free, n);
      return !reserved;
    }
  }

  /** Subtraction of 64-bit words. */
  function Minus(x: nat, y: nat): (r: nat)
    requires y <= SIZE_MAX
  {
    if x >= y then x - y else x + SIZE_MAX + 1 - y
  }

  /** No page of the range is in use, nor is the first one when the range is empty. */
  predicate AllFree(s: seq<bool>, i: nat, n: nat)
    requires i + n <= |s| && i < |s|
  {
    !s[i] && forall k :: i <= k < i + n ==> !s[k]
  }

  /** Taking n pages off the count is right exactly when all of them were free. */
  lemma ReserveCount(s: seq<bool>, size: nat, i: nat, n: nat)
    requires size < |s| && size <= SIZE_MAX && i + n <= size
    ensures n > 0 ==> (Count(Filled(s, i, n, true)[..size], false) == Minus(Count(s[..size], false), n) <==>
            AllFree(s, i, n))
    ensures n == 0 ==> Filled(s, i, n, true) == s && Minus(Count(s[..size], false), n) == Count(s[..size], false)
  {
    var mid := s[..size][i..i + n];
    CountFilled(s[..size], i, n, true);
    assert Filled(s, i, n, true)[..size] == Filled(s[..size], i, n, true);
    assert forall k :: i <= k < i + n ==> s[k] == mid[k - i];
    if Count(mid, false) == n {
      CountFull(mid, false);
    }
    if AllFree(s, i, n) {
      CountAll(mid, false);
    }
  }

  /** The range lies in the pool and all its pages are in use. */
  ghost predicate InUse(s: seq<bool>, size: nat, r: Range)
    requires size <= |s|
  {
    0 < r.count && r.first + r.count <= size && forall k :: r.first <= k < r.first + r.count ==> s[k]
  }

  lemma NoFreePage(s: seq<bool>, size: nat, curr: nat, n: nat, start: nat, aligned: bool)
    requires size <= |s| && n > 0 && Count(s[..size], false) == 0
    ensures Search(s, size, curr, n, start, aligned) == None
  {
    CountNone(s[..size], false);
    assert forall k :: 0 <= k < size ==> s[k] == s[..size][k];
  }

  lemma TakeCount(s: seq<bool>, size: nat, bit: nat, n: nat)
    requires size <= |s| && Fits(s, size, bit, n, false)
    ensures Count(Filled(s, bit, n, true)[..size], false) == Count(s[..size], false) - n
  {
    CountFilled(s[..size], bit, n, true);
    CountAll(s[..size][bit..bit + n], false);
    assert Filled(s, bit, n, true)[..size] == Filled(s[..size], bit, n, true);
  }

  lemma TakeDisjoint(s: seq<bool>, size: nat, taken: seq<Range>, r: Range)
    requires size <= |s| && r.count > 0 && Fits(s, size, r.first, r.count, false)
    requires forall i :: 0 <= i < |taken| ==> InUse(s, size, taken[i])
    ensures forall i :: 0 <= i < |taken| ==> Disjoint(taken[i], r)
  {
    forall i | 0 <= i < |taken|
      ensures Disjoint(taken[i], r)
    {
      assert InUse(s, size, taken[i]);
      assert s[taken[i].first] && !s[r.first];
    }
  }
}
