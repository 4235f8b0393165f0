/**
  Flush requests of opensbi/lib/sbi/sbi_tlb.c: what each local flush function
  invalidates, and how a queued request absorbs an incoming one.

  Machine words are natural numbers below 2^64; wrap-around is written out.
 */
module Tlb {
  import opened Basics
  import opened Fifo

  const FLUSH_ALL := 0xFFFF_FFFF_FFFF_FFFF
  const PAGE_SIZE := 4096
  const PAGES := 0x10_0000_0000_0000  // WORDS / PAGE_SIZE

  /** The local flush function of a request. */
  datatype Kind =
    | FenceI
    | SfenceVma
    | SfenceVmaAsid
    | HfenceGvma
    | HfenceGvmaVmid
    | HfenceVvma
    | HfenceVvmaAsid
  {
    /** Only these requests are ever merged into a queued one. */
    predicate Mergeable() { SfenceVma? || SfenceVmaAsid? }
    predicate UsesAsid() { SfenceVmaAsid? || HfenceVvmaAsid? }
    predicate UsesVmid() { HfenceGvmaVmid? || HfenceVvma? || HfenceVvmaAsid? }
    /** Second-stage fences take the guest physical address shifted right by two. */
    predicate GuestPhysical() { HfenceGvma? || HfenceGvmaVmid? }
  }

  datatype Info = Info(start: Word, size: Word, asid: Word, vmid: Word, kind: Kind, smask: set<nat>)
  {
    predicate ZeroEncoding() { start == 0 && size == 0 }
    predicate PageAligned() { start % PAGE_SIZE == 0 }
    /** The byte range does not wrap around, or the request is for everything. */
    predicate NonWrapping() { size == FLUSH_ALL || start + size <= WORDS }
    predicate Everything() { ZeroEncoding() || size == FLUSH_ALL }
    /** A range of no bytes. */
    predicate Empty() { size == 0 && start != 0 }
    /** Stepping by pages from the start, the flush loop does not stop short of the page of the last byte. */
    predicate StepsReachLast() { size > 0 && start % PAGE_SIZE + (size - 1) % PAGE_SIZE < PAGE_SIZE }
  }

  // ---------------------------------------------------------------------
  // What a local flush invalidates
  // ---------------------------------------------------------------------

  /** One fence instruction. An absent operand stands for "every". */
  datatype Operand = Every | Only(value: nat)
  datatype Fence = InstructionFence | Fence(guestPhysical: bool, address: Operand, asid: Operand, vmid: Operand)
  {
    /** Does this fence drop the translations of page `page` of address space (`asid`, `vmid`)? */
    ghost predicate Drops(asid: Word, vmid: Word, page: nat)
    {
      && Fence?
      && (this.asid.Only? ==> this.asid.value == asid)
      && (this.vmid.Only? ==> this.vmid.value == vmid)
      && (this.address.Only? ==>
            page == if guestPhysical then this.address.value * 4 / PAGE_SIZE else this.address.value / PAGE_SIZE)
    }
  }

  /** The k-th address that the flush loop fences; the sum wraps as the machine's does. */
  function FencedAddress(info: Info, k: nat): Word
  {
    (info.start + k * PAGE_SIZE) % WORDS
  }

  /** The page `page` is among those the flush loop visits. */
  ghost predicate Visited(info: Info, page: nat)
  {
    exists k: nat :: k * PAGE_SIZE < info.size && page == FencedAddress(info, k) / PAGE_SIZE
  }

  /** What running the request's local function invalidates. */
  ghost predicate Flushes(info: Info, asid: Word, vmid: Word, page: nat)
  {
    && !info.kind.FenceI?
    && (info.kind.UsesVmid() && !(info.kind.HfenceGvmaVmid? && info.ZeroEncoding()) ==> vmid == info.vmid)
    && (info.ZeroEncoding() || ((info.kind.UsesAsid() ==> asid == info.asid) &&
       (info.size == FLUSH_ALL || Visited(info, page))))
  }

  /** The fence executed for one address of the range (an absent address means the whole range). */
  function RangeFence(info: Info, address: Operand): Fence
  {
    var operand := if info.kind.GuestPhysical() && address.Only? then Only(address.value / 4) else address;
    Fence(info.kind.GuestPhysical(), operand,
          if info.kind.UsesAsid() then Only(info.asid) else Every,
          if info.kind.UsesVmid() then Only(info.vmid) else Every)
  }

  /** The fence for the (0, 0) encoding: everything, whatever the ASID or the first-stage VMID operand. */
  function ZeroFence(info: Info): Fence
  {
    Fence(info.kind.GuestPhysical(), Every, Every,
          if info.kind.UsesVmid() && !info.kind.HfenceGvmaVmid? then Only(info.vmid) else Every)
  }

  ghost predicate SomeDrops(fences: seq<Fence>, asid: Word, vmid: Word, page: nat)
  {
    exists j :: 0 <= j < |fences| && fences[j].Drops(asid, vmid, page)
  }

  /**
    The seven local flush functions. The loop counter is a machine word, so the
    loop ends only when the last step cannot wrap: the callers keep ranges under
    the flush limit.
   */
  method LocalFlush(info: Info) returns (fences: seq<Fence>)
    requires info.size == FLUSH_ALL || info.size <= WORDS - PAGE_SIZE
    ensures forall asid: Word, vmid: Word, page: nat ::
              SomeDrops(fences, asid, vmid, page) <==> Flushes(info, asid, vmid, page)
    ensures InstructionFence in fences <==> info.kind.FenceI?
  {
    if info.kind.FenceI? {
      return [InstructionFence];
    }
    if info.start == 0 && info.size == 0 {
      fences := [ZeroFence(info)];
      assert fences[0] == ZeroFence(info);
      return;
    }
    if info.size == FLUSH_ALL {
      fences := [RangeFence(info, Every)];
      assert fences[0] == RangeFence(info, Every);
      return;
    }
    fences := [];
    var i: nat := 0;
    while i < info.size
      invariant i % PAGE_SIZE == 0 && |fences| == i / PAGE_SIZE
      invariant i < info.size + PAGE_SIZE
      invariant forall j :: 0 <= j < |fences| ==> fences[j] == RangeFence(info, Only(FencedAddress(info, j)))
    {
      fences := fences + [RangeFence(info, Only((info.start + i) % WORDS))];
      i := i + PAGE_SIZE;
    }
    LoopFencesRange(info, fences);
  }

  /** Dropping the two low bits of an address leaves its page. */
  lemma ShiftedOperandKeepsPage(address: nat)
    ensures address / 4 * 4 / PAGE_SIZE == address / PAGE_SIZE
  {
    var page, offset := address / PAGE_SIZE, address % PAGE_SIZE;
    assert address == PAGE_SIZE * page + offset;
    assert address / 4 == 1024 * page + offset / 4;
    assert address / 4 * 4 == PAGE_SIZE * page + offset / 4 * 4;
  }

  lemma RangeFenceDrops(info: Info, address: Word, asid: Word, vmid: Word, page: nat)
    ensures RangeFence(info, Only(address)).Drops(asid, vmid, page)
            <==> && (info.kind.UsesAsid() ==> asid == info.asid)
                 && (info.kind.UsesVmid() ==> vmid == info.vmid)
                 && page == address / PAGE_SIZE
  {
    ShiftedOperandKeepsPage(address);
  }

  lemma LoopFencesRange(info: Info, fences: seq<Fence>)
    requires !info.kind.FenceI? && !info.ZeroEncoding() && info.size != FLUSH_ALL
    requires |fences| * PAGE_SIZE < info.size + PAGE_SIZE && info.size <= |fences| * PAGE_SIZE
    requires forall j :: 0 <= j < |fences| ==> fences[j] == RangeFence(info, Only(FencedAddress(info, j)))
    ensures forall asid: Word, vmid: Word, page: nat ::
              SomeDrops(fences, asid, vmid, page) <==> Flushes(info, asid, vmid, page)
  {
    forall asid: Word, vmid: Word, page: nat
      ensures SomeDrops(fences, asid, vmid, page) <==> Flushes(info, asid, vmid, page)
    {
      LoopFencesPage(info, fences, asid, vmid, page);
    }
  }

  lemma LoopFencesPage(info: Info, fences: seq<Fence>, asid: Word, vmid: Word, page: nat)
    requires !info.kind.FenceI? && !info.ZeroEncoding() && info.size != FLUSH_ALL
    requires |fences| * PAGE_SIZE < info.size + PAGE_SIZE && info.size <= |fences| * PAGE_SIZE
    requires forall j :: 0 <= j < |fences| ==> fences[j] == RangeFence(info, Only(FencedAddress(info, j)))
    ensures SomeDrops(fences, asid, vmid, page) <==> Flushes(info, asid, vmid, page)
  {
    if SomeDrops(fences, asid, vmid, page) {
      var j :| 0 <= j < |fences| && fences[j].Drops(asid, vmid, page);
      RangeFenceDrops(info, FencedAddress(info, j), asid, vmid, page);
      assert j * PAGE_SIZE < info.size;
    }
    if Flushes(info, asid, vmid, page) {
      var k: nat :| k * PAGE_SIZE < info.size && page == FencedAddress(info, k) / PAGE_SIZE;
      RangeFenceDrops(info, FencedAddress(info, k), asid, vmid, page);
      assert k < |fences|;
    }
  }

  // ---------------------------------------------------------------------
  // What a request asks for
  // ---------------------------------------------------------------------

  /** The request covers some byte of page `page`. */
  ghost predicate AsksPage(info: Info, page: nat)
  {
    && page < PAGES
    && (info.size == FLUSH_ALL || info.ZeroEncoding() ||
       (page * PAGE_SIZE < info.start + info.size && info.start < (page + 1) * PAGE_SIZE && 0 < info.size))
  }

  /** The request must be followed by the loss of this translation. */
  ghost predicate Asks(info: Info, asid: Word, vmid: Word, page: nat)
  {
    && !info.kind.FenceI?
    && (info.kind.UsesAsid() ==> asid == info.asid)
    && (info.kind.UsesVmid() ==> vmid == info.vmid)
    && AsksPage(info, page)
  }

  /** Running `done` satisfies `asked`: same local function, and everything asked for is gone. */
  ghost predicate Satisfies(done: Info, asked: Info)
  {
    && done.kind == asked.kind
    && forall asid: Word, vmid: Word, page: nat ::
         Asks(asked, asid, vmid, page) ==> Flushes(done, asid, vmid, page)
  }

  lemma VisitedPages(info: Info, page: nat)
    requires info.start + info.size <= WORDS
    ensures Visited(info, page)
            <==> info.start / PAGE_SIZE <= page && (page - info.start / PAGE_SIZE) * PAGE_SIZE < info.size
  {
    var first := info.start / PAGE_SIZE;
    if first <= page && (page - first) * PAGE_SIZE < info.size {
      FencedPage(info, page - first);
    }
    if Visited(info, page) {
      var k: nat :| k * PAGE_SIZE < info.size && page == FencedAddress(info, k) / PAGE_SIZE;
      FencedPage(info, k);
    }
  }

  lemma FencedPage(info: Info, k: nat)
    requires k * PAGE_SIZE < info.size && info.start + info.size <= WORDS
    ensures FencedAddress(info, k) / PAGE_SIZE == info.start / PAGE_SIZE + k
  {
    assert FencedAddress(info, k) == info.start + k * PAGE_SIZE;
  }

  /**
    A non-wrapping range flush reaches every page of its own byte range exactly
    when the start's page offset and the offset of the last byte's distance do
    not overflow a page. Page-aligned starts always qualify.
   */
  lemma LocalFlushReachesOwnRangeIff(info: Info)
    requires 0 < info.size != FLUSH_ALL && info.start + info.size <= WORDS && !info.kind.FenceI?
    ensures Satisfies(info, info) <==> info.StepsReachLast()
  {
    var first := info.start / PAGE_SIZE;
    var last := (info.start + info.size - 1) / PAGE_SIZE;
    forall page: nat
      ensures Visited(info, page) <==> first <= page && (page - first) * PAGE_SIZE < info.size
    {
      VisitedPages(info, page);
    }
    if info.StepsReachLast() {
      assert last == first + (info.size - 1) / PAGE_SIZE;
      forall asid: Word, vmid: Word, page: nat | Asks(info, asid, vmid, page)
        ensures Flushes(info, asid, vmid, page)
      {
        assert first <= page <= last;
        assert Visited(info, page);
      }
    } else {
      assert last == first + (info.size - 1) / PAGE_SIZE + 1;
      assert Asks(info, info.asid, info.vmid, last);
      assert !Visited(info, last);
      assert !Flushes(info, info.asid, info.vmid, last);
    }
  }

  // ---------------------------------------------------------------------
  // Merging a request into a queued one
  // ---------------------------------------------------------------------

  function End(info: Info): Word
  {
    (info.start + info.size) % WORDS
  }

  function RangeCheck(curr: Info, next: Info): (Info, UpdateType)
  {
    if next.start <= curr.start && End(next) > End(curr) then
      (curr.(start := next.start, size := next.size, smask := curr.smask + next.smask), Updated)
    else if next.start >= curr.start && End(next) <= End(curr) then
      (curr.(smask := curr.smask + next.smask), Skip)
    else
      (curr, Unchanged)
  }

  function UpdateCallback(next: Info, curr: Info): (Info, UpdateType)
  {
    if next.kind.SfenceVmaAsid? && curr.kind.SfenceVmaAsid? then
      if next.asid == curr.asid then RangeCheck(curr, next) else (curr, Unchanged)
    else if next.kind.SfenceVma? && curr.kind.SfenceVma? then
      RangeCheck(curr, next)
    else
      (curr, Unchanged)
  }

  /** A request too large for page-by-page flushing becomes a full flush. */
  function Upgraded(info: Info, limit: Word): Info
  {
    if info.size > limit then info.(start := 0, size := FLUSH_ALL) else info
  }

  /**
    An entry that serves a request: for the kinds that merge, either the full
    flush or a page-aligned range around the request's bytes; otherwise the
    request as it was made.
   */
  predicate Contains(entry: Info, asked: Info)
  {
    && entry.kind == asked.kind
    && (entry.kind.UsesAsid() ==> entry.asid == asked.asid)
    && (entry.kind.UsesVmid() ==> entry.vmid == asked.vmid)
    && entry.PageAligned()
    && if asked.kind.FenceI? then true
       else if !asked.kind.Mergeable() then entry.start == asked.start && entry.size == asked.size &&
           entry.NonWrapping()
       else if entry.size == FLUSH_ALL then entry.start == 0
       else && !entry.ZeroEncoding() && asked.size != FLUSH_ALL && entry.start + entry.size < WORDS
            && entry.start <= asked.start && asked.start + asked.size <= entry.start + entry.size
  }

  lemma ContainsSatisfies(entry: Info, asked: Info)
    requires Contains(entry, asked) && (asked.kind.Mergeable() ==> !asked.ZeroEncoding())
    ensures Satisfies(entry, asked)
  {
    if !asked.kind.FenceI? {
      forall asid: Word, vmid: Word, page: nat | Asks(asked, asid, vmid, page)
        ensures Flushes(entry, asid, vmid, page)
      {
        if entry.size != FLUSH_ALL && !entry.ZeroEncoding() {
          VisitedPages(entry, page);
        }
      }
    }
  }

  /** Upgrading a request never asks for less. */
  lemma UpgradedAsksMore(info: Info, limit: Word, asid: Word, vmid: Word, page: nat)
    requires Asks(info, asid, vmid, page) && limit < FLUSH_ALL
    ensures Asks(Upgraded(info, limit), asid, vmid, page)
  {
  }

  /**
    The requests that are promised coverage: page-aligned and not wrapping. Those
    that may be merged, because they are not too large for it, must also not be the
    (0, 0) encoding nor end exactly at 2^64.
   */
  predicate WellFormed(info: Info, limit: Word)
  {
    && info.PageAligned() && info.NonWrapping()
    && (info.kind.Mergeable() && info.size <= limit ==> !info.ZeroEncoding() && info.start + info.size < WORDS)
  }

  lemma UpgradedContainsItself(info: Info, limit: Word)
    requires WellFormed(info, limit) && limit < FLUSH_ALL
    ensures Contains(Upgraded(info, limit), Upgraded(info, limit))
  {
  }

  /**
    Merging keeps both promises: whatever was served by the queued entry still
    is, and so is the incoming request. Both ranges must start on a page; the
    incoming one may belong to anybody and may even wrap.
   */
  lemma MergeKeepsBoth(curr: Info, next: Info, served: Info)
    requires curr.PageAligned() && next.PageAligned()
    requires UpdateCallback(next, curr).1 != Unchanged
    ensures Contains(curr, served) ==> Contains(UpdateCallback(next, curr).0, served)
    ensures Contains(next, next) ==> Contains(UpdateCallback(next, curr).0, next)
    ensures UpdateCallback(next, curr).0.PageAligned()
    ensures UpdateCallback(next, curr).0.smask == curr.smask + next.smask
  {
  }

  /** The range that a merge keeps, and the one that it drops. */
  function Outer(curr: Info, next: Info): Info
  {
    if UpdateCallback(next, curr).1 == Updated then next else curr
  }

  function Inner(curr: Info, next: Info): Info
  {
    if UpdateCallback(next, curr).1 == Updated then curr else next
  }

  /**
    When a kept range serves a dropped one: always if it is for everything;
    otherwise its steps must reach its own last page, and a dropped range that
    includes the last page of memory, where the computed ends have wrapped to 0,
    needs a kept range that includes it too.
   */
  predicate ServesBoth(outer: Info, inner: Info)
  {
    || outer.Everything()
    || (&& (outer.Empty() || outer.StepsReachLast())
        && (   inner.Empty()
            || (!inner.Everything() && inner.start + inner.size < WORDS)
            || (!outer.Empty() && outer.start + outer.size > WORDS - PAGE_SIZE)))
  }

  /**
    Exactly when the entry that a merge leaves satisfies both requests, for all
    ranges that do not wrap around.
   */
  lemma MergeSatisfiesBothIff(curr: Info, next: Info)
    requires UpdateCallback(next, curr).1 != Unchanged
    requires curr.start + curr.size <= WORDS && next.start + next.size <= WORDS
    ensures var merged := UpdateCallback(next, curr).0;
            Satisfies(merged, curr) && Satisfies(merged, next) <==> ServesBoth(Outer(curr, next), Inner(curr, next))
  {
    var merged, outer, inner := UpdateCallback(next, curr).0, Outer(curr, next), Inner(curr, next);
    assert merged.start == outer.start && merged.size == outer.size;
    SatisfiesIffPages(merged, outer);
    SatisfiesIffPages(merged, inner);
    KeptServesItself(merged, outer);
    if outer.Everything() || outer.Empty() || outer.StepsReachLast() {
      KeptServesDropped(merged, outer, inner);
    }
  }

  /** For requests of one kind and address space, satisfaction is a matter of pages. */
  lemma SatisfiesIffPages(done: Info, asked: Info)
    requires done.kind == asked.kind && done.kind.Mergeable() && (done.kind.UsesAsid() ==> done.asid == asked.asid)
    ensures Satisfies(done, asked)
            <==> forall page: nat :: AsksPage(asked, page) ==> done.Everything() || Visited(done, page)
  {
    if Satisfies(done, asked) {
      forall page: nat | AsksPage(asked, page)
        ensures done.Everything() || Visited(done, page)
      {
        assert Asks(asked, asked.asid, asked.vmid, page);
        assert Flushes(done, asked.asid, asked.vmid, page);
      }
    }
  }

  /** The page of the last byte. */
  function LastPage(info: Info): nat
    requires info.size > 0
  {
    (info.start + info.size - 1) / PAGE_SIZE
  }

  /** The last page that the flush loop visits. */
  lemma VisitedUpTo(info: Info, page: nat)
    requires info.size > 0 && info.start + info.size <= WORDS
    ensures Visited(info, page)
            <==> info.start / PAGE_SIZE <= page <= info.start / PAGE_SIZE + (info.size - 1) / PAGE_SIZE
    ensures info.StepsReachLast() <==> LastPage(info) == info.start / PAGE_SIZE + (info.size - 1) / PAGE_SIZE
    ensures LastPage(info) <= info.start / PAGE_SIZE + (info.size - 1) / PAGE_SIZE + 1
  {
    VisitedPages(info, page);
  }

  lemma AskedUpTo(info: Info, page: nat)
    requires info.size > 0 && !info.Everything() && info.start + info.size <= WORDS
    ensures AsksPage(info, page) <==> info.start / PAGE_SIZE <= page <= LastPage(info)
    ensures LastPage(info) < PAGES
  {
  }

  /** The kept range is served exactly if it is for everything, empty, or its steps reach its last page. */
  lemma KeptServesItself(merged: Info, outer: Info)
    requires merged.start == outer.start && merged.size == outer.size && outer.start + outer.size <= WORDS
    ensures (forall page: nat :: AsksPage(outer, page) ==> merged.Everything() || Visited(merged, page))
            <==> outer.Everything() || outer.Empty() || outer.StepsReachLast()
  {
    if !outer.Everything() && !outer.Empty() {
      forall page: nat
        ensures AsksPage(outer, page) <==> outer.start / PAGE_SIZE <= page <= LastPage(outer)
        ensures outer.StepsReachLast() ==> (Visited(merged, page) <==>
                outer.start / PAGE_SIZE <= page <= LastPage(outer))
      {
        AskedUpTo(outer, page);
        VisitedUpTo(merged, page);
      }
      AskedUpTo(outer, LastPage(outer));
      VisitedUpTo(merged, LastPage(outer));
    }
  }

  /** Given that, the dropped range is served exactly under the rest of the condition. */
  lemma KeptServesDropped(merged: Info, outer: Info, inner: Info)
    requires merged.start == outer.start && merged.size == outer.size
    requires outer.start + outer.size <= WORDS && inner.start + inner.size <= WORDS
    requires outer.start <= inner.start && End(inner) <= End(outer)
    requires outer.Everything() || outer.Empty() || outer.StepsReachLast()
    ensures (forall page: nat :: AsksPage(inner, page) ==> merged.Everything() || Visited(merged, page))
            <==> ServesBoth(outer, inner)
  {
    if !outer.Everything() && !inner.Empty() {
      if outer.Empty() {
        assert AsksPage(inner, inner.start / PAGE_SIZE);
        VisitedPages(merged, inner.start / PAGE_SIZE);
      } else {
        PartServesDropped(merged, outer, inner);
      }
    }
  }

  lemma PartServesDropped(merged: Info, outer: Info, inner: Info)
    requires merged.start == outer.start && merged.size == outer.size && !outer.Everything() && outer.StepsReachLast()
    requires outer.start + outer.size <= WORDS && inner.start + inner.size <= WORDS && !inner.Empty()
    requires outer.start <= inner.start && End(inner) <= End(outer)
    ensures (forall page: nat :: AsksPage(inner, page) ==> Visited(merged, page))
            <==> (   (!inner.Everything() && inner.start + inner.size < WORDS)
                  || outer.start + outer.size > WORDS - PAGE_SIZE)
  {
    var last := if inner.Everything() then PAGES - 1 else LastPage(inner);
    forall page: nat
      ensures AsksPage(inner, page) <==> inner.start / PAGE_SIZE <= page <= last
      ensures Visited(merged, page) <==> outer.start / PAGE_SIZE <= page <= LastPage(outer)
    {
      VisitedUpTo(merged, page);
      if !inner.Everything() {
        AskedUpTo(inner, page);
      }
    }
    assert AsksPage(inner, last);
  }

  /** A queued "flush everything" request in the (0, 0) encoding shrinks to one page. */
  lemma ZeroEncodingLosesCoverage()
    ensures var everything := Info(0, 0, 0, 0, SfenceVma, {1});
            var onePage := Info(0, PAGE_SIZE, 0, 0, SfenceVma, {2});
            var (merged, verdict) := UpdateCallback(onePage, everything);
            verdict == Updated && Satisfies(everything, everything) && !Satisfies(merged, everything)
  {
    var everything := Info(0, 0, 0, 0, SfenceVma, {1});
    var onePage := Info(0, PAGE_SIZE, 0, 0, SfenceVma, {2});
    MergeSatisfiesBothIff(everything, onePage);
    ContainsSatisfies(UpdateCallback(onePage, everything).0, onePage);
  }

  /** An unaligned range that contains a queued page-aligned range can replace it and miss its last page. */
  lemma UnalignedMergeLosesCoverage()
    ensures var queued := Info(PAGE_SIZE, PAGE_SIZE + 1, 0, 0, SfenceVma, {1});
            var unaligned := Info(PAGE_SIZE - 1, PAGE_SIZE + 3, 0, 0, SfenceVma, {2});
            var (merged, verdict) := UpdateCallback(unaligned, queued);
            verdict == Updated && Satisfies(queued, queued) && !Satisfies(merged, queued)
  {
    var queued := Info(PAGE_SIZE, PAGE_SIZE + 1, 0, 0, SfenceVma, {1});
    var unaligned := Info(PAGE_SIZE - 1, PAGE_SIZE + 3, 0, 0, SfenceVma, {2});
    var merged := UpdateCallback(unaligned, queued).0;
    ContainsSatisfies(queued, queued);
    VisitedPages(merged, 2);
    assert Asks(queued, 0, 0, 2) && !Flushes(merged, 0, 0, 2);
  }

  /**
    The end of a request for the last page of memory is computed as 0, so a queued
    request for the page before it swallows it.
   */
  lemma LastPageLosesCoverage()
    ensures var queued := Info(WORDS - 2 * PAGE_SIZE, PAGE_SIZE, 0, 0, SfenceVma, {1});
            var lastPage := Info(WORDS - PAGE_SIZE, PAGE_SIZE, 0, 0, SfenceVma, {2});
            var (merged, verdict) := UpdateCallback(lastPage, queued);
            verdict == Skip && Satisfies(lastPage, lastPage) && !Satisfies(merged, lastPage)
  {
    var queued := Info(WORDS - 2 * PAGE_SIZE, PAGE_SIZE, 0, 0, SfenceVma, {1});
    var lastPage := Info(WORDS - PAGE_SIZE, PAGE_SIZE, 0, 0, SfenceVma, {2});
    LocalFlushReachesOwnRangeIff(lastPage);
    MergeSatisfiesBothIff(queued, lastPage);
    ContainsSatisfies(UpdateCallback(lastPage, queued).0, queued);
  }
}
