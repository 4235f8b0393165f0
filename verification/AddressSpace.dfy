/**
  Bao's address-space operations on page tables in memory
  (bao-hypervisor/src/core/mem.c, bao-hypervisor/src/arch/riscv/mem.c and
  bao-hypervisor/src/arch/riscv/page_table.c): translating an address, mapping a
  range with the largest pages that fit, and splitting a superpage.
 */
module AddressSpace {
  import opened Basics
  import opened Bits
  import opened PageTable

  /** Flags of a leaf made by splitting a superpage, for the hypervisor and for a guest. */
  const HYP_FLAGS: nat := 0xE1
  const VM_FLAGS: nat := 0xD1

  /** Page-table allocation hands out pages that are not page tables yet, if any. */
  ghost predicate FreshPages(alloc: set<nat> -> Option<nat>)
  {
    forall used: set<nat> :: alloc(used).Some? ==> alloc(used).value !in used
  }

  /** And it does not run out of them. */
  ghost predicate EnoughPages(alloc: set<nat> -> Option<nat>)
  {
    forall used: set<nat> :: alloc(used).Some? && alloc(used).value !in used
  }

  const EMPTY_TABLE: seq<Pte> := seq(512, _ => Invalid)

  /** A section of the virtual address space, both ends included. */
  datatype Section = Section(beg: nat, end: nat)

  /** mem_find_sec: the first section that contains the address. */
  function FindSection(sections: seq<Section>, va: nat): (i: nat)
    ensures i <= |sections|
    ensures i < |sections| ==> sections[i].beg <= va <= sections[i].end
    ensures forall j :: 0 <= j < i ==> !(sections[j].beg <= va <= sections[j].end)
  {
    if sections == [] then 0
    else if sections[0].beg <= va <= sections[0].end then 0
    else FindSection(sections[1..], va) + 1
  }

  /** Both ends of a request lie in one section; the last byte's address wraps as the machine's does. */
  predicate InOneSection(sections: seq<Section>, start: nat, n: nat)
  {
    var i := FindSection(sections, start);
    i < |sections| && i == FindSection(sections, (start + n * PAGE_SIZE + WORDS - 1) % WORDS)
  }

  /** Some section holds both addresses, and no section before it holds either. */
  ghost predicate HeldByOne(sections: seq<Section>, first: nat, last: nat)
  {
    exists i :: && 0 <= i < |sections|
                && sections[i].beg <= first <= sections[i].end && sections[i].beg <= last <= sections[i].end
                && forall j :: 0 <= j < i ==>
                     && !(sections[j].beg <= first <= sections[j].end)
                     && !(sections[j].beg <= last <= sections[j].end)
  }

  lemma InOneSectionIff(sections: seq<Section>, start: nat, n: nat)
    ensures InOneSection(sections, start, n)
            <==> HeldByOne(sections, start, (start + n * PAGE_SIZE + WORDS - 1) % WORDS)
  {
    SameSectionIff(sections, start, (start + n * PAGE_SIZE + WORDS - 1) % WORDS);
  }

  lemma SameSectionIff(sections: seq<Section>, first: nat, last: nat)
    ensures FindSection(sections, first) < |sections| && FindSection(sections, first) == FindSection(sections, last)
            <==> HeldByOne(sections, first, last)
  {
  }

  /** Mapped, refused for lack of a section, or stopped at a page that was mapped already. */
  datatype MapOutcome = Mapped | NoSection | Overriding

  /** The pages lie under one table of the last level and are too few for a superpage. */
  predicate InOneTable(start: nat, n: nat)
  {
    n < 512 && start % 0x20_0000 + n * PAGE_SIZE <= 0x20_0000
  }

  /** Such a table has room for them from their first entry on. */
  lemma OneTableLeft(m: Memory, start: nat, n: nat)
    requires InOneTable(start, n) && start % PAGE_SIZE == 0
    ensures m.rootEntries > 0 ==> m.Index(LEVELS - 1, start) + n <= 512
  {
    var f := start / 0x1000;
    assert start == f * 0x1000;
    assert start % 0x20_0000 == f % 512 * 0x1000;
  }

  /** The page boundary at or below an address. */
  function PageBase(va: nat): (base: nat)
    ensures base % PAGE_SIZE == 0 && base <= va < base + PAGE_SIZE
  {
    va - va % PAGE_SIZE
  }

  /** pt_pte_mappable */
  predicate Mappable(pte: Pte, lvl: nat, left: nat, va: nat, pa: nat)
    requires lvl < LEVELS
  {
    !pte.Valid() && Pages(lvl) <= left && va % Size(lvl) == 0 && pa % Size(lvl) == 0
  }

  /** A page of the level is no larger than what is left, and both addresses are multiples of its size. */
  ghost predicate Fits(lvl: nat, left: nat, va: nat, pa: nat)
    requires lvl < LEVELS
  {
    Size(lvl) <= left * PAGE_SIZE && va % Size(lvl) == 0 && pa % Size(lvl) == 0
  }

  /** Larger pages than those of the level do not fit, but where a table is in the way. */
  ghost predicate LargestFit(m: Memory, place: Placement, lvl: nat, left: nat, va: nat, pa: nat)
  {
    && Ok(m, place) && lvl < LEVELS
    && forall l :: 0 <= l < lvl && Fits(l, left, va, pa) ==> Descend(m, place, va, l + 1).Some?
  }

  lemma FitsPages(lvl: nat, left: nat)
    requires lvl < LEVELS
    ensures Size(lvl) <= left * PAGE_SIZE <==> Pages(lvl) <= left
  {
  }

  /** The walk for `va` reaches the level and finds nothing there. */
  ghost predicate HoleAt(m: Memory, place: Placement, va: nat, lvl: nat)
  {
    && Ok(m, place) && lvl < LEVELS && Descend(m, place, va, lvl).Some?
    && !m.tables[Descend(m, place, va, lvl).value][m.Index(lvl, va)].Valid()
  }

  /** How many pages one entry of a level maps. */
  function Pages(lvl: nat): (pages: nat)
    requires lvl < LEVELS
    ensures Size(lvl) == pages * PAGE_SIZE && pages > 0
  {
    if lvl == 0 then 0x4_0000 else if lvl == 1 then 0x200 else 1
  }

  // ---------------------------------------------------------------------
  // Positions
  // ---------------------------------------------------------------------

  /** The address of the span of `start` that is translated like `a`. */
  function Alias(rootEntries: nat, start: nat, a: nat): (b: nat)
    ensures start < b + Span(rootEntries)
  {
    start - Residue(rootEntries, start) + Residue(rootEntries, a)
  }

  /** The first address of a span. */
  function Base(rootEntries: nat, va: nat): nat
  {
    va - Residue(rootEntries, va)
  }

  /** Within a span, an address is its own alias, and all addresses have the same base. */
  lemma SameSpan(rootEntries: nat, start: nat, a: nat)
    requires Base(rootEntries, start) <= a < Base(rootEntries, start) + Span(rootEntries)
    ensures Base(rootEntries, a) == Base(rootEntries, start) && Alias(rootEntries, start, a) == a
  {
    var d := Span(rootEntries);
    Quotient(a, d, start / d, a - Base(rootEntries, start));
  }

  lemma AliasResidue(rootEntries: nat, start: nat, a: nat)
    ensures Residue(rootEntries, Alias(rootEntries, start, a)) == Residue(rootEntries, a)
  {
    var d := Span(rootEntries);
    Quotient(Alias(rootEntries, start, a), d, start / d, Residue(rootEntries, a));
  }

  /** A level's page that starts at v is the addresses with an alias from v on, up to its size. */
  lemma FrameRange(m: Memory, lvl: nat, v: nat, a: nat)
    requires (m.rootEntries == 512 || m.rootEntries == 2048) && lvl < LEVELS && v % Size(lvl) == 0
    ensures var b := Alias(m.rootEntries, v, a);
            && (Frame(lvl, Residue(m.rootEntries, a)) == Frame(lvl, Residue(m.rootEntries, v)) <==>
               v <= b < v + Size(lvl))
            && (v <= b < v + Size(lvl) ==> a % Size(lvl) == b - v)
  {
    ResidueDecides(m, lvl, v);
    ResidueDecides(m, lvl, a);
    PageRange(lvl, Residue(m.rootEntries, v), Residue(m.rootEntries, a));
  }

  lemma PageRange(lvl: nat, v: nat, a: nat)
    requires lvl < LEVELS && v % Size(lvl) == 0
    ensures Frame(lvl, a) == Frame(lvl, v) <==> v <= a < v + Size(lvl)
    ensures v <= a < v + Size(lvl) ==> a % Size(lvl) == a - v
  {
    assert lvl == 0 || lvl == 1 || lvl == 2;
  }

  lemma PageNext(lvl: nat, v: nat)
    requires lvl < LEVELS && v % Size(lvl) == 0
    ensures (v + Size(lvl)) % Size(lvl) == 0 && Frame(lvl, v + Size(lvl)) == Frame(lvl, v) + 1
  {
    assert lvl == 0 || lvl == 1 || lvl == 2;
  }

  /** The page after an entry's is the next entry's, within a span. */
  lemma EntryNext(m: Memory, q: Place, k: nat, v: nat)
    requires (m.rootEntries == 512 || m.rootEntries == 2048) && q.lvl < LEVELS
    requires InEntry(m.rootEntries, q, k, v) && v % Size(q.lvl) == 0
    requires v + Size(q.lvl) < Base(m.rootEntries, v) + Span(m.rootEntries)
    ensures InEntry(m.rootEntries, q, k + 1, v + Size(q.lvl))
  {
    ResidueDecides(m, q.lvl, v);
    PageNext(q.lvl, Residue(m.rootEntries, v));
    SameSpan(m.rootEntries, v, v + Size(q.lvl));
  }

  /** The next position of the mapping is that of the next entry. */
  lemma NextLeaf(m: Memory, q: Place, k: nat, v: nat, p: nat, g: Range)
    requires (m.rootEntries == 512 || m.rootEntries == 2048) && q.lvl < LEVELS && g.InOneSpan(m.rootEntries)
    requires InEntry(m.rootEntries, q, k, v) && v % Size(q.lvl) == 0 && p % Size(q.lvl) == 0
    requires g.start <= v && v + Size(q.lvl) <= g.end
    ensures (v + Size(q.lvl)) % Size(q.lvl) == 0 && (p + Size(q.lvl)) % Size(q.lvl) == 0
    ensures v + Size(q.lvl) < g.end ==> InEntry(m.rootEntries, q, k + 1, v + Size(q.lvl))
  {
    PageNext(q.lvl, v);
    PageNext(q.lvl, p);
    SameSpan(m.rootEntries, g.start, v);
    if v + Size(q.lvl) < g.end {
      EntryNext(m, q, k, v);
    }
  }

  lemma PagesAligned(x: nat, count: nat)
    requires x % PAGE_SIZE == 0
    ensures (x + count * PAGE_SIZE) % PAGE_SIZE == 0
  {
    assert x + count * PAGE_SIZE == PAGE_SIZE * (x / PAGE_SIZE + count);
  }

  // ---------------------------------------------------------------------
  // Effects on all translations
  // ---------------------------------------------------------------------

  /** All translations of one memory are those of another. */
  ghost predicate SameTranslations(m: Memory, place: Placement, m': Memory, place': Placement)
  {
    && Ok(m, place) && Ok(m', place') && m'.rootEntries == m.rootEntries
    && forall va: nat :: Lookup(m', place', va) == Lookup(m, place, va)
  }

  /** Hanging an empty table below an invalid entry changes no translation. */
  lemma EmptyGraftSame(m: Memory, place: Placement, t: nat, k: nat, va0: nat, c: nat)
    requires Reached(m, place, t, va0) && k < |m.tables[t]| && place[t].lvl + 1 < LEVELS && !m.tables[t][k].Valid()
    requires c !in m.tables
    ensures SameTranslations(m, place, Grafted(m, t, k, c, EMPTY_TABLE), GraftedPlace(place, t, k, c))
  {
    var m', place' := Grafted(m, t, k, c, EMPTY_TABLE), GraftedPlace(place, t, k, c);
    GraftedOk(m, place, t, k, c, EMPTY_TABLE);
    forall va: nat
      ensures Lookup(m', place', va) == Lookup(m, place, va)
    {
      GraftEffect(m, place, t, k, va0, c, EMPTY_TABLE, va);
      if InEntry(m.rootEntries, place[t], k, va) {
        LookupInside(m, place, t, k, va0, va);
      }
    }
  }

  /** A range of the address space being mapped: the addresses from start to end go to pa on, with flags. */
  datatype Range = Range(start: nat, end: nat, pa: nat, flags: nat)
  {
    /** The walk tells all addresses of the range apart. */
    predicate InOneSpan(rootEntries: nat)
    {
      start <= end <= Base(rootEntries, start) + Span(rootEntries)
    }
  }

  /**
    The translation of `a` once the mapping has reached `v`: below it as mapped,
    above it and outside the range as it was.
   */
  ghost function Expected(m0: Memory, place0: Placement, g: Range, v: nat, a: nat): Option<Target>
    requires Ok(m0, place0)
  {
    var b := Alias(m0.rootEntries, g.start, a);
    if g.start <= b < v then Some(Target(g.pa + (b - g.start), g.flags))
    else Lookup(m0, place0, a)
  }

  ghost predicate Progress(m0: Memory, place0: Placement, m: Memory, place: Placement, g: Range, v: nat)
  {
    && Ok(m0, place0) && Ok(m, place) && m.rootEntries == m0.rootEntries
    && g.InOneSpan(m.rootEntries) && g.start <= v <= g.end
    && forall a: nat :: Lookup(m, place, a) == Expected(m0, place0, g, v, a)
  }

  /**
    The addresses of the range below v translate to the corresponding bytes; those
    from v on, and all that the walk tells from the range, translate as before.
   */
  ghost predicate Remapped(m0: Memory, place0: Placement, m: Memory, place: Placement, g: Range, v: nat)
  {
    && Ok(m0, place0) && Ok(m, place) && m.rootEntries == m0.rootEntries
    && (forall a: nat :: g.start <= a < g.end ==>
          Lookup(m, place, a) == if a < v then Some(Target(g.pa + (a - g.start), g.flags)) else Lookup(m0, place0, a))
    && (forall a: nat :: !(g.start <= Alias(m.rootEntries, g.start, a) < g.end) ==>
          Lookup(m, place, a) == Lookup(m0, place0, a))
  }

  lemma ProgressMeans(m0: Memory, place0: Placement, m: Memory, place: Placement, g: Range, v: nat)
    requires Progress(m0, place0, m, place, g, v)
    ensures Remapped(m0, place0, m, place, g, v)
  {
    forall a: nat
      ensures g.start <= a < g.end ==>
                Lookup(m, place, a) == if a < v then Some(Target(g.pa + (a - g.start), g.flags))
                    else Lookup(m0, place0, a)
      ensures !(g.start <= Alias(m.rootEntries, g.start, a) < g.end) ==>
                Lookup(m, place, a) == Lookup(m0, place0, a)
    {
      assert Lookup(m, place, a) == Expected(m0, place0, g, v, a);
      if g.start <= a < g.end {
        SameSpan(m.rootEntries, g.start, a);
      }
    }
  }

  lemma ProgressStarts(m: Memory, place: Placement, g: Range)
    requires Ok(m, place) && g.InOneSpan(m.rootEntries)
    ensures Progress(m, place, m, place, g, g.start)
  {
  }

  lemma SameTranslationsProgress(m0: Memory, place0: Placement, m: Memory, place: Placement,
                                 m': Memory, place': Placement, g: Range, v: nat)
    requires Progress(m0, place0, m, place, g, v) && SameTranslations(m, place, m', place')
    ensures Progress(m0, place0, m', place', g, v)
  {
  }

  /** The leaf that maps address v of the range. */
  function LeafFor(g: Range, v: nat): Pte
    requires g.start <= v
  {
    Leaf(g.pa + (v - g.start), g.flags)
  }

  /** One leaf at the current position advances the mapping by its size. */
  lemma LeafProgress(m0: Memory, place0: Placement, m: Memory, place: Placement, g: Range, v: nat, t: nat, k: nat,
      va0: nat)
    requires Progress(m0, place0, m, place, g, v) && Reached(m, place, t, va0) && k < |m.tables[t]|
    requires v % Size(place[t].lvl) == 0 && InEntry(m.rootEntries, place[t], k, v) && v + Size(place[t].lvl) <= g.end
    requires (g.pa + (v - g.start)) % Size(place[t].lvl) == 0
    ensures var m', place' := Written(m, t, k, LeafFor(g, v)), Pruned(place, t, k);
            Progress(m0, place0, m', place', g, v + Size(place[t].lvl)) && Reached(m', place', t, va0)
  {
    var m', place' := Written(m, t, k, LeafFor(g, v)), Pruned(place, t, k);
    var leaf := LeafFor(g, v);
    WriteLeafEffect(m, place, t, k, va0, leaf.addr, leaf.flags, va0);
    forall a: nat
      ensures Lookup(m', place', a) == Expected(m0, place0, g, v + Size(place[t].lvl), a)
    {
      LeafProgressAt(m0, place0, m, place, g, v, t, k, va0, a);
    }
  }

  lemma LeafProgressAt(m0: Memory, place0: Placement, m: Memory, place: Placement, g: Range, v: nat,
                       t: nat, k: nat, va0: nat, a: nat)
    requires Progress(m0, place0, m, place, g, v) && Reached(m, place, t, va0) && k < |m.tables[t]|
    requires v % Size(place[t].lvl) == 0 && InEntry(m.rootEntries, place[t], k, v) && v + Size(place[t].lvl) <= g.end
    requires (g.pa + (v - g.start)) % Size(place[t].lvl) == 0
    ensures var m', place' := Written(m, t, k, LeafFor(g, v)), Pruned(place, t, k);
            Ok(m', place') && Lookup(m', place', a) == Expected(m0, place0, g, v + Size(place[t].lvl), a)
  {
    assert Lookup(m, place, a) == Expected(m0, place0, g, v, a);
    LeafAt(m, place, g, v, t, k, va0, a);
    ExpectedNext(m0, place0, g, v, Size(place[t].lvl), a);
  }

  /** What is expected changes only for the next addresses in turn. */
  lemma ExpectedNext(m0: Memory, place0: Placement, g: Range, v: nat, size: nat, a: nat)
    requires Ok(m0, place0) && g.start <= v && v + size <= g.end
    ensures var b := Alias(m0.rootEntries, g.start, a);
            Expected(m0, place0, g, v + size, a)
            == if v <= b < v + size then Some(Target(g.pa + (b - g.start), g.flags)) else Expected(m0, place0, g, v, a)
  {
  }

  /** What writing the leaf for v does to the translation of a. */
  lemma LeafAt(m: Memory, place: Placement, g: Range, v: nat, t: nat, k: nat, va0: nat, a: nat)
    requires Reached(m, place, t, va0) && k < |m.tables[t]| && g.InOneSpan(m.rootEntries)
    requires v % Size(place[t].lvl) == 0 && InEntry(m.rootEntries, place[t], k, v) && g.start <= v < g.end
    requires (g.pa + (v - g.start)) % Size(place[t].lvl) == 0
    ensures var m', place', b := Written(m, t, k, LeafFor(g, v)), Pruned(place, t, k), Alias(m.rootEntries, g.start, a);
            && Ok(m', place')
            && Lookup(m', place', a)
               == if v <= b < v + Size(place[t].lvl) then Some(Target(g.pa + (b - g.start), g.flags))
                  else Lookup(m, place, a)
  {
    var leaf := LeafFor(g, v);
    WriteLeafEffect(m, place, t, k, va0, leaf.addr, leaf.flags, a);
    LeafTarget(m, place[t], k, g, v, a);
  }

  /** The entry that holds v decides the addresses from v on, and the leaf sends them where the range does. */
  lemma LeafTarget(m: Memory, q: Place, k: nat, g: Range, v: nat, a: nat)
    requires (m.rootEntries == 512 || m.rootEntries == 2048) && q.lvl < LEVELS && v % Size(q.lvl) == 0
    requires g.InOneSpan(m.rootEntries) && g.start <= v < g.end && InEntry(m.rootEntries, q, k, v)
    ensures var b := Alias(m.rootEntries, g.start, a);
            && (InEntry(m.rootEntries, q, k, a) <==> v <= b < v + Size(q.lvl))
            && (v <= b < v + Size(q.lvl) ==>
                  EntryTarget(LeafFor(g, v), q.lvl, a) == Some(Target(g.pa + (b - g.start), g.flags)))
  {
    LeafRange(m, q.lvl, g, v, a);
  }

  lemma LeafRange(m: Memory, lvl: nat, g: Range, v: nat, a: nat)
    requires (m.rootEntries == 512 || m.rootEntries == 2048) && lvl < LEVELS && v % Size(lvl) == 0
    requires g.InOneSpan(m.rootEntries) && g.start <= v < g.end
    ensures var b := Alias(m.rootEntries, g.start, a);
            && (Frame(lvl, Residue(m.rootEntries, a)) == Frame(lvl, Residue(m.rootEntries, v)) <==>
               v <= b < v + Size(lvl))
            && (v <= b < v + Size(lvl) ==> a % Size(lvl) == b - v)
  {
    SameSpan(m.rootEntries, g.start, v);
    FrameRange(m, lvl, v, a);
  }

  class Space {
    var mem: Memory
    ghost var place: Placement
    const hypervisor: bool

    ghost predicate Valid()
      reads this
    {
      Ok(mem, place)
    }

    ghost function Translation(va: nat): Option<Target>
      requires Valid()
      reads this
    {
      Lookup(mem, place, va)
    }

    /** No superpage stands in the way of the walk for `va` above a level. */
    ghost predicate NoSuperpageAbove(lvl: nat, va: nat)
      requires Valid() && lvl < LEVELS
      reads this
    {
      forall l :: 0 <= l < lvl && Descend(mem, place, va, l).Some? ==>
        !mem.tables[Descend(mem, place, va, l).value][mem.Index(l, va)].Leaf?
    }

    /** pt_get_pte: the entry for `va` at a level. It must not be asked to walk through a superpage. */
    method GetPte(lvl: nat, va: nat) returns (found: bool, t: nat, k: nat)
      requires Valid() && lvl < LEVELS && NoSuperpageAbove(lvl, va)
      ensures found <==> Descend(mem, place, va, lvl).Some?
      ensures found ==> Reached(mem, place, t, va) && place[t].lvl == lvl
      ensures found ==> k == mem.Index(lvl, va) && InEntry(mem.rootEntries, place[t], k, va)
    {
      t, k := mem.root, mem.Index(0, va);
      var i := 0;
      while i < lvl
        invariant i <= lvl && t in place && Descend(mem, place, va, i) == Some(t) && k == mem.Index(i, va)
      {
        assert EntryOk(mem, place, t, k);
        if !mem.tables[t][k].Valid() {
          DescendStops(mem, place, va, i + 1, lvl);
          return false, t, k;
        }
        t := mem.tables[t][k].child;
        k := mem.Index(i + 1, va);
        i := i + 1;
      }
      DescendCovers(mem, place, va, lvl);
      IndexSelects(mem, place[t], va);
      found := true;
    }

    /** mem_translate */
    method Translate(va: nat) returns (pa: Option<nat>)
      requires Valid()
      ensures pa == if Translation(va).Some? then Some(Translation(va).value.addr) else None
    {
      var t, k := mem.root, mem.Index(0, va);
      var lvl, i := 0, 0;
      while i < LEVELS
        invariant i < LEVELS && t in place && place[t].lvl == i && k == mem.Index(i, va)
        invariant Walk(mem, place, t, va) == Translation(va)
      {
        assert EntryOk(mem, place, t, k);
        if !mem.tables[t][k].Table? {
          lvl := i;
          break;
        }
        t := mem.tables[t][k].child;
        k := mem.Index(i + 1, va);
        i := i + 1;
      }
      var pte := mem.tables[t][k];
      if pte.Leaf? {
        return Some(pte.addr - pte.addr % Size(lvl) + va % Size(lvl));
      }
      return None;
    }

    /** mem_alloc_pt: hang a zeroed table below an entry, if a page can be had for it. */
    method AllocPt(t: nat, k: nat, alloc: set<nat> -> Option<nat>) returns (c: Option<nat>)
      requires Valid() && FreshPages(alloc) && t in place && k < |mem.tables[t]| && place[t].lvl + 1 < LEVELS
      modifies this
      ensures Valid() && c == alloc(old(mem).tables.Keys)
      ensures c == None ==> mem == old(mem) && place == old(place)
      ensures c.Some? ==>
                && c.value !in old(mem).tables
                && mem == Grafted(old(mem), t, k, c.value, EMPTY_TABLE) &&
                   place == GraftedPlace(old(place), t, k, c.value)
    {
      c := alloc(mem.tables.Keys);
      if c.Some? {
        GraftedOk(mem, place, t, k, c.value, EMPTY_TABLE);
        place := GraftedPlace(place, t, k, c.value);
        mem := Grafted(mem, t, k, c.value, EMPTY_TABLE);
      }
    }

    /**
      The level search of mem_map: descend, adding tables, to the largest page that
      fits at `v`, where no table is in the way. It fails exactly if it meets a leaf,
      that is, if `v` is mapped.
     */
    method FindSlot(v: nat, p: nat, left: nat, alloc: set<nat> -> Option<nat>)
      returns (ok: bool, lvl: nat, t: nat, k: nat)
      requires Valid() && EnoughPages(alloc)
      requires v % PAGE_SIZE == 0 && p % PAGE_SIZE == 0 && left > 0
      modifies this
      ensures Valid() && SameTranslations(old(mem), old(place), mem, place)
      ensures ok <==> old(Translation(v)) == None
      ensures lvl < LEVELS && Reached(mem, place, t, v) && place[t].lvl == lvl && k == mem.Index(lvl, v)
      ensures k < |mem.tables[t]| && InEntry(mem.rootEntries, place[t], k, v)
      ensures ok ==> !mem.tables[t][k].Valid() && Fits(lvl, left, v, p)
      ensures LargestFit(old(mem), old(place), lvl, left, v, p)
    {
      ghost var m, pl := mem, place;
      lvl := 0;
      while true
        invariant lvl < LEVELS && SameTranslations(m, pl, mem, place)
        invariant LargestFit(m, pl, lvl, left, v, p)
        invariant (mem == m && place == pl) || HoleAt(mem, place, v, lvl)
        invariant forall l :: 0 <= l <= lvl ==> Descend(mem, place, v, l).Some?
        decreases LEVELS - lvl
      {
        var found;
        TablesAbove(mem, place, v, lvl);
        found, t, k := GetPte(lvl, v);
        EntryDecides(mem, place, t, k, v);
        FitsPages(lvl, left);
        if Mappable(mem.tables[t][k], lvl, left, v, p) {
          return true, lvl, t, k;
        }
        if mem.tables[t][k].Leaf? {
          return false, lvl, t, k;
        }
        assert lvl + 1 < LEVELS;
        GoDown(lvl, t, k, v, alloc);
        lvl := lvl + 1;
      }
    }

    /** One level down, to the table below an entry or to a new empty one. */
    method GoDown(lvl: nat, t: nat, k: nat, v: nat, alloc: set<nat> -> Option<nat>)
      requires Valid() && EnoughPages(alloc) && Reached(mem, place, t, v) && place[t].lvl == lvl && lvl + 1 < LEVELS
      requires k == mem.Index(lvl, v) && InEntry(mem.rootEntries, place[t], k, v) && !mem.tables[t][k].Leaf?
      modifies this
      ensures SameTranslations(old(mem), old(place), mem, place)
      ensures forall l :: 0 <= l <= lvl + 1 ==> Descend(mem, place, v, l).Some?
      ensures if old(mem).tables[t][k].Table? then mem == old(mem) && place == old(place)
              else HoleAt(mem, place, v, lvl + 1)
    {
      if !mem.tables[t][k].Valid() {
        EmptyStep(t, k, v, alloc);
      }
      TableBelow(mem, place, t, mem.Index(lvl, v), v);
      AllAbove(mem, place, v, lvl + 1);
    }

    /** One new empty table on the way down. */
    method EmptyStep(t: nat, k: nat, v: nat, alloc: set<nat> -> Option<nat>)
      requires Valid() && EnoughPages(alloc) && Reached(mem, place, t, v) && place[t].lvl + 1 < LEVELS
      requires k < |mem.tables[t]| && InEntry(mem.rootEntries, place[t], k, v) && !mem.tables[t][k].Valid()
      modifies this
      ensures SameTranslations(old(mem), old(place), mem, place)
      ensures t in place && place[t] == old(place)[t] && Reached(mem, place, t, v)
      ensures mem.rootEntries == old(mem).rootEntries && t in mem.tables && k < |mem.tables[t]| &&
              mem.tables[t][k].Table?
      ensures mem.tables[t][k].child in mem.tables && mem.tables[mem.tables[t][k].child] == EMPTY_TABLE
    {
      ghost var m, pl := mem, place;
      var c := AllocPt(t, k, alloc);
      EmptyGraftSame(m, pl, t, k, v, c.value);
      GraftEffect(m, pl, t, k, v, c.value, EMPTY_TABLE, v);
    }

    /** One leaf at address v of the range being mapped. */
    method PutLeaf(lvl: nat, t: nat, entry: nat, v: nat, p: nat, g: Range,
                   ghost va0: nat, ghost m0: Memory, ghost place0: Placement)
      returns (v': nat, p': nat)
      requires Progress(m0, place0, mem, place, g, v) && Reached(mem, place, t, va0) && place[t].lvl == lvl
      requires entry < |mem.tables[t]| && InEntry(mem.rootEntries, place[t], entry, v)
      requires v % Size(lvl) == 0 && v + Size(lvl) <= g.end && p == g.pa + (v - g.start) && p % Size(lvl) == 0
      modifies this
      ensures v' == v + Size(lvl) && p' == p + Size(lvl) && v' % Size(lvl) == 0 && p' % Size(lvl) == 0
      ensures Progress(m0, place0, mem, place, g, v')
      ensures Reached(mem, place, t, va0) && place[t] == old(place)[t] && mem.rootEntries == old(mem).rootEntries
      ensures v' < g.end ==> InEntry(mem.rootEntries, place[t], entry + 1, v')
    {
      NextLeaf(mem, place[t], entry, v, p, g);
      LeafProgress(m0, place0, mem, place, g, v, t, entry, va0);
      assert LeafFor(g, v) == Leaf(p, g.flags);
      place := Pruned(place, t, entry);
      mem := Written(mem, t, entry, Leaf(p, g.flags));
      v', p' := v + Size(lvl), p + Size(lvl);
    }

    /** The inner loop of mem_map: consecutive leaves of one table, while they fit. */
    method FillEntries(lvl: nat, t: nat, k0: nat, v0: nat, p0: nat, left0: nat, g: Range,
                       ghost m0: Memory, ghost place0: Placement)
      returns (v: nat, p: nat, left: nat)
      requires lvl < LEVELS && Reached(mem, place, t, v0) && place[t].lvl == lvl && k0 < |mem.tables[t]|
      requires v0 % Size(lvl) == 0 && InEntry(mem.rootEntries, place[t], k0, v0) && v0 + left0 * PAGE_SIZE == g.end
      requires p0 == g.pa + (v0 - g.start) && p0 % Size(lvl) == 0 && Size(lvl) <= left0 * PAGE_SIZE
      requires Progress(m0, place0, mem, place, g, v0)
      modifies this
      ensures left < left0 && v + left * PAGE_SIZE == g.end && p == g.pa + (v - g.start)
      ensures lvl == LEVELS - 1 && k0 + left0 <= 512 ==> left == 0
      ensures Progress(m0, place0, mem, place, g, v)
    {
      v, p, left := v0, p0, left0;
      var entry: nat := k0;
      while entry < mem.Entries(lvl) && left > 0 && left >= Pages(lvl)
        invariant left <= left0 && (left == left0 ==> entry == k0)
        invariant lvl == LEVELS - 1 ==> entry - k0 == left0 - left
        invariant v + left * PAGE_SIZE == g.end && p == g.pa + (v - g.start)
        invariant v % Size(lvl) == 0 && p % Size(lvl) == 0
        invariant Reached(mem, place, t, v0) && place[t].lvl == lvl
        invariant v < g.end ==> InEntry(mem.rootEntries, place[t], entry, v)
        invariant Progress(m0, place0, mem, place, g, v)
        decreases left
      {
        v, p := PutLeaf(lvl, t, entry, v, p, g, v0, m0, place0);
        left, entry := left - Pages(lvl), entry + 1;
      }
    }

    /** The outer loop of mem_map; `v` is the address up to which it has come. */
    method MapPages(g: Range, n: nat, alloc: set<nat> -> Option<nat>) returns (ok: bool, v: nat)
      requires EnoughPages(alloc) && g.start % PAGE_SIZE == 0 && g.pa % PAGE_SIZE == 0 &&
               g.start + n * PAGE_SIZE == g.end
      requires Progress(mem, place, mem, place, g, g.start)
      modifies this
      ensures Progress(old(mem), old(place), mem, place, g, v)
      ensures if ok then v == g.end else v < g.end && old(Translation(v)).Some?
      ensures n > 0 && old(Translation(g.start)).Some? ==> !ok && v == g.start
      ensures InOneTable(g.start, n) && old(Translation(g.start)) == None ==> ok
    {
      var p, left := g.pa, n;
      v := g.start;
      while left > 0
        invariant left <= n && v + left * PAGE_SIZE == g.end && p == g.pa + (v - g.start)
        invariant left < n ==> old(Translation(g.start)) == None
        invariant InOneTable(g.start, n) ==> left == n || left == 0
        invariant Progress(old(mem), old(place), mem, place, g, v)
      {
        ok, v, p, left := MapStep(g, v, p, left, n, alloc, old(mem), old(place));
        if !ok {
          return false, v;
        }
      }
      return true, v;
    }

    /** One round of the outer loop: nothing is mapped exactly if the next page is mapped already. */
    method MapStep(g: Range, v0: nat, p0: nat, left0: nat, n: nat, alloc: set<nat> -> Option<nat>,
                   ghost m0: Memory, ghost place0: Placement)
      returns (ok: bool, v: nat, p: nat, left: nat)
      requires EnoughPages(alloc) && g.start % PAGE_SIZE == 0 && g.pa % PAGE_SIZE == 0
      requires g.start + n * PAGE_SIZE == g.end && 0 < left0 <= n
      requires v0 + left0 * PAGE_SIZE == g.end && p0 == g.pa + (v0 - g.start)
      requires Progress(m0, place0, mem, place, g, v0)
      modifies this
      ensures Progress(m0, place0, mem, place, g, v)
      ensures v + left * PAGE_SIZE == g.end && p == g.pa + (v - g.start)
      ensures ok <==> Lookup(m0, place0, v0) == None
      ensures if ok then left < left0 else v == v0
      ensures ok && left0 == n && InOneTable(g.start, n) ==> left == 0
    {
      ghost var m, pl := mem, place;
      SameSpan(mem.rootEntries, g.start, v0);
      PagesAligned(g.start, n - left0);
      PagesAligned(g.pa, n - left0);
      var lvl, t, k;
      ok, lvl, t, k := FindSlot(v0, p0, left0, alloc);
      SameTranslationsProgress(m0, place0, m, pl, mem, place, g, v0);
      if !ok {
        return false, v0, p0, left0;
      }
      if left0 == n && InOneTable(g.start, n) {
        OneTableLeft(mem, g.start, n);
      }
      v, p, left := FillEntries(lvl, t, k, v0, p0, left0, g, m0, place0);
    }

    /**
      mem_map with given, contiguous, uncoloured physical pages. The range must not
      run over the end of the span that the walk tells apart; whatever mix of page
      sizes is chosen, every byte of it then translates to the corresponding byte. No
      translation changes but those of the range and of the addresses that the walk
      cannot tell from it.

      The source stops with an error when it meets a page that is mapped already. It
      looks only where a run of entries begins, so the error needs a mapped page but a
      mapped page need not give the error: a range inside one table is refused if and
      only if its first page is mapped, and otherwise its later pages are overwritten.
     */
    method Map(sections: seq<Section>, va: nat, pa: nat, n: nat, flags: nat, alloc: set<nat> -> Option<nat>)
      returns (outcome: MapOutcome, ghost reached: nat)
      requires Valid() && EnoughPages(alloc) && pa % PAGE_SIZE == 0
      requires InOneSection(sections, PageBase(va), n) ==>
                 Range(PageBase(va), PageBase(va) + n * PAGE_SIZE, pa, flags).InOneSpan(mem.rootEntries)
      modifies this
      ensures Valid() && mem.rootEntries == old(mem).rootEntries
      ensures outcome.NoSection? <==>
                !HeldByOne(sections, PageBase(va), (PageBase(va) + n * PAGE_SIZE + WORDS - 1) % WORDS)
      ensures outcome.NoSection? ==> mem == old(mem)
      ensures outcome.Mapped? ==> reached == PageBase(va) + n * PAGE_SIZE
      ensures outcome.Overriding? ==>
                PageBase(va) <= reached < PageBase(va) + n * PAGE_SIZE && old(Translation(reached)).Some?
      ensures !outcome.NoSection? ==>
                Remapped(old(mem), old(place), mem, place,
                         Range(PageBase(va), PageBase(va) + n * PAGE_SIZE, pa, flags), reached)
      ensures n > 0 && old(Translation(PageBase(va))).Some? ==> !outcome.Mapped?
      ensures n < 512 && PageBase(va) % 0x20_0000 + n * PAGE_SIZE <= 0x20_0000 ==>
                (outcome.Overriding? ==> old(Translation(PageBase(va))).Some?)
    {
      var g := Range(PageBase(va), PageBase(va) + n * PAGE_SIZE, pa, flags);
      reached := g.start;
      InOneSectionIff(sections, g.start, n);
      if !InOneSection(sections, g.start, n) {
        return NoSection, reached;
      }
      ProgressStarts(mem, place, g);
      var ok, v := MapPages(g, n, alloc);
      ProgressMeans(old(mem), old(place), mem, place, g, v);
      return if ok then Mapped else Overriding, v;
    }

    function DefaultFlags(): nat
    {
      if hypervisor then HYP_FLAGS else VM_FLAGS
    }

    /** The walk for `va` reaches an entry of the level that does not lead to a table. */
    ghost predicate Expandable(lvl: nat, va: nat)
      requires Valid() && lvl < LEVELS
      reads this
    {
      && lvl + 1 < LEVELS && Descend(mem, place, va, lvl).Some?
      && !mem.tables[Descend(mem, place, va, lvl).value][mem.Index(lvl, va)].Table?
    }

    /**
      mem_expand_pte: replace a superpage by a table of the next smaller pages.
      Every physical translation survives; only the flags of the split part are
      reset to those of the address space. Nothing changes in memory but the one
      entry and the new table below it.
     */
    method ExpandPte(va: nat, lvl: nat, alloc: set<nat> -> Option<nat>)
      requires Valid() && EnoughPages(alloc) && lvl < LEVELS && NoSuperpageAbove(lvl, va)
      modifies this
      ensures Valid() && mem.rootEntries == old(mem).rootEntries
      ensures forall a: nat ::
                SameAddress(mem.rootEntries, Translation(a), old(Translation(a)), lvl, va, a, DefaultFlags())
      ensures if old(Expandable(lvl, va))
              then IsSplit(old(mem), mem, old(Descend(mem, place, va, lvl).value), old(mem.Index(lvl, va)), lvl,
                  DefaultFlags())
              else mem == old(mem)
      ensures lvl + 1 < LEVELS && old(Descend(mem, place, va, lvl)).Some? ==> Descend(mem, place, va, lvl + 1).Some?
    {
      if LEVELS - 1 <= lvl {
        return;
      }
      var found, t, k := GetPte(lvl, va);
      if !found {
        return;
      }
      LookupInside(mem, place, t, k, va, va);
      if mem.tables[t][k].Table? {
        TableBelow(mem, place, t, k, va);
        return;
      }
      Split(lvl, t, k, va, alloc);
    }

    /** The part of mem_expand_pte that changes memory. */
    method Split(lvl: nat, t: nat, k: nat, va: nat, alloc: set<nat> -> Option<nat>)
      requires Valid() && EnoughPages(alloc) && Reached(mem, place, t, va) && place[t].lvl == lvl && lvl + 1 < LEVELS
      requires k < |mem.tables[t]| && InEntry(mem.rootEntries, place[t], k, va) && !mem.tables[t][k].Table?
      modifies this
      ensures Valid() && mem.rootEntries == old(mem).rootEntries
      ensures forall a: nat ::
                SameAddress(mem.rootEntries, Translation(a), old(Translation(a)), lvl, va, a, DefaultFlags())
      ensures IsSplit(old(mem), mem, t, k, lvl, DefaultFlags())
      ensures Descend(mem, place, va, lvl + 1).Some?
    {
      ghost var m, pl := mem, place;
      var pte := mem.tables[t][k];
      var page := AllocPt(t, k, alloc);
      var c := page.value;
      ghost var entries := EMPTY_TABLE;
      if pte != Invalid {
        entries := FillSplit(c, pte, lvl, m, t, k);
      }
      SplitSame(m, pl, t, k, va, c, entries, DefaultFlags());
      GraftReached(m, pl, t, k, va, c, entries);
    }

    /** The loop of mem_expand_pte that replicates the old entry in the new table. */
    method FillSplit(c: nat, pte: Pte, lvl: nat, ghost m: Memory, ghost t: nat, ghost k: nat)
      returns (ghost entries: seq<Pte>)
      requires lvl + 1 < LEVELS && t in m.tables && k < |m.tables[t]| && c !in m.tables
      requires mem == Grafted(m, t, k, c, EMPTY_TABLE) && (pte.Leaf? || pte.Reserved?)
      modifies this`mem
      ensures |entries| == 512 && mem == Grafted(m, t, k, c, entries)
      ensures forall j :: 0 <= j < 512 ==> entries[j] == SplitEntry(pte, j, lvl, DefaultFlags())
    {
      entries := EMPTY_TABLE;
      var entry := 0;
      while entry < 512
        invariant 0 <= entry <= 512 && |entries| == 512
        invariant mem == Grafted(m, t, k, c, entries)
        invariant forall j :: 0 <= j < entry ==> entries[j] == SplitEntry(pte, j, lvl, DefaultFlags())
      {
        var replica := if pte.Leaf? then Leaf(pte.addr + entry * Size(lvl + 1), DefaultFlags()) else Reserved;
        GraftedOverwrite(m, t, k, c, entries, entry, replica);
        mem := Written(mem, c, entry, replica);
        entries := entries[entry := replica];
        entry := entry + 1;
      }
    }
  }

  // ---------------------------------------------------------------------
  // Paths
  // ---------------------------------------------------------------------

  lemma {:induction false} DescendStops(m: Memory, place: Placement, va: nat, i: nat, lvl: nat)
    requires Ok(m, place) && i <= lvl < LEVELS && Descend(m, place, va, i) == None
    ensures Descend(m, place, va, lvl) == None
  {
    if i < lvl {
      DescendStops(m, place, va, i, lvl - 1);
    }
  }

  /** A walk that reaches a level has met no superpage above it. */
  lemma TablesAbove(m: Memory, place: Placement, va: nat, lvl: nat)
    requires Ok(m, place) && lvl < LEVELS && forall l :: 0 <= l <= lvl ==> Descend(m, place, va, l).Some?
    ensures forall l :: 0 <= l < lvl ==> !m.tables[Descend(m, place, va, l).value][m.Index(l, va)].Leaf?
  {
    forall l | 0 <= l < lvl
      ensures !m.tables[Descend(m, place, va, l).value][m.Index(l, va)].Leaf?
    {
      assert Descend(m, place, va, l + 1).Some?;
    }
  }

  /** What the entry that the walk reaches says about the translation. */
  lemma EntryDecides(m: Memory, place: Placement, t: nat, k: nat, va: nat)
    requires Reached(m, place, t, va) && k < |m.tables[t]| && InEntry(m.rootEntries, place[t], k, va)
    ensures m.tables[t][k].Leaf? ==> Lookup(m, place, va).Some?
    ensures !m.tables[t][k].Valid() ==> Lookup(m, place, va) == None
    ensures m.tables[t][k].Table? ==> place[t].lvl + 1 < LEVELS
  {
    LookupInside(m, place, t, k, va, va);
    assert EntryOk(m, place, t, k);
  }

  lemma TableBelow(m: Memory, place: Placement, t: nat, k: nat, va: nat)
    requires Reached(m, place, t, va) && k == m.Index(place[t].lvl, va) && m.tables[t][k].Table?
    ensures place[t].lvl + 1 < LEVELS && Descend(m, place, va, place[t].lvl + 1).Some?
  {
    assert EntryOk(m, place, t, k);
  }

  lemma AllAbove(m: Memory, place: Placement, va: nat, lvl: nat)
    requires Ok(m, place) && lvl < LEVELS && Descend(m, place, va, lvl).Some?
    ensures forall l :: 0 <= l <= lvl ==> Descend(m, place, va, l).Some?
  {
    forall l | 0 <= l <= lvl
      ensures Descend(m, place, va, l).Some?
    {
      if Descend(m, place, va, l) == None {
        DescendStops(m, place, va, l, lvl);
      }
    }
  }

  // ---------------------------------------------------------------------
  // Splitting a superpage
  // ---------------------------------------------------------------------

  /** The j-th entry of the table that replaces an entry of level `lvl`. */
  function SplitEntry(pte: Pte, j: nat, lvl: nat, flags: nat): Pte
    requires lvl + 1 < LEVELS
  {
    match pte
    case Leaf(addr, _) => Leaf(addr + j * Size(lvl + 1), flags)
    case Reserved => Reserved
    case _ => Invalid
  }

  /** Memory m' is memory m with a new table of replicas below entry k of table t, and nothing else changed. */
  ghost predicate IsSplit(m: Memory, m': Memory, t: nat, k: nat, lvl: nat, flags: nat)
  {
    && lvl + 1 < LEVELS && t in m.tables && k < |m.tables[t]|
    && exists c: nat, entries: seq<Pte> ::
         && c !in m.tables && m' == Grafted(m, t, k, c, entries)
         && |entries| == 512 && forall j :: 0 <= j < 512 ==> entries[j] == SplitEntry(m.tables[t][k], j, lvl, flags)
  }

  /** Same physical address; the flags too, unless the address lies in the split page, where they are `flags`. */
  ghost predicate SameAddress(rootEntries: nat, now: Option<Target>, before: Option<Target>,
                              lvl: nat, split: nat, va: nat, flags: nat)
    requires lvl < LEVELS
  {
    && now.Some? == before.Some?
    && (now.Some? ==>
          && now.value.addr == before.value.addr
          && (|| now.value.flags == before.value.flags
              || (now.value.flags == flags &&
                 Frame(lvl, Residue(rootEntries, va)) == Frame(lvl, Residue(rootEntries, split)))))
  }

  /** Splitting keeps the physical address of every virtual address. */
  lemma SplitSame(m: Memory, place: Placement, t: nat, k: nat, va0: nat, c: nat, entries: seq<Pte>, flags: nat)
    requires Reached(m, place, t, va0) && k < |m.tables[t]| && place[t].lvl + 1 < LEVELS
    requires InEntry(m.rootEntries, place[t], k, va0)
    requires c !in m.tables && !m.tables[t][k].Table? && |entries| == 512
    requires forall j :: 0 <= j < 512 ==> entries[j] == SplitEntry(m.tables[t][k], j, place[t].lvl, flags)
    ensures var m', place' := Grafted(m, t, k, c, entries), GraftedPlace(place, t, k, c);
            && Ok(m', place') && LeafEntries(entries, place[t].lvl + 1)
            && forall va: nat ::
                 SameAddress(m.rootEntries, Lookup(m', place', va), Lookup(m, place, va), place[t].lvl, va0, va, flags)
  {
    var m', place' := Grafted(m, t, k, c, entries), GraftedPlace(place, t, k, c);
    var lvl, pte := place[t].lvl, m.tables[t][k];
    assert EntryOk(m, place, t, k);
    forall j | 0 <= j < 512
      ensures entries[j].Leaf? ==> entries[j].addr % Size(lvl + 1) == 0
    {
      if pte.Leaf? {
        SplitAligned(pte.addr, j, lvl);
      }
    }
    GraftedOk(m, place, t, k, c, entries);
    forall va: nat
      ensures SameAddress(m.rootEntries, Lookup(m', place', va), Lookup(m, place, va), lvl, va0, va, flags)
    {
      GraftEffect(m, place, t, k, va0, c, entries, va);
      if InEntry(m.rootEntries, place[t], k, va) {
        LookupInside(m, place, t, k, va0, va);
        SplitOffset(m, lvl, va);
      }
    }
  }

  lemma SplitAligned(addr: nat, j: nat, lvl: nat)
    requires lvl + 1 < LEVELS && addr % Size(lvl) == 0
    ensures (addr + j * Size(lvl + 1)) % Size(lvl + 1) == 0
  {
    if lvl == 0 {
      var q := addr / 0x4000_0000;
      assert addr == 0x4000_0000 * q;
      assert addr + j * 0x20_0000 == 0x20_0000 * (512 * q + j);
    } else {
      var q := addr / 0x20_0000;
      assert addr == 0x20_0000 * q;
      assert addr + j * 0x1000 == 0x1000 * (512 * q + j);
    }
  }

  /** The sub-page's offset in the superpage plus the offset in the sub-page is the offset in the superpage. */
  lemma SplitOffset(m: Memory, lvl: nat, va: nat)
    requires lvl + 1 < LEVELS && m.rootEntries > 0
    ensures m.Index(lvl + 1, va) * Size(lvl + 1) + va % Size(lvl + 1) == va % Size(lvl)
  {
    FrameAbove(lvl + 1, va);
    var f, g := Frame(lvl + 1, va), Frame(lvl, va);
    assert f == g * 512 + m.Index(lvl + 1, va);
    if lvl == 0 {
      assert va == g * 0x4000_0000 + va % 0x4000_0000;
      assert va == f * 0x20_0000 + va % 0x20_0000;
    } else {
      assert va == g * 0x20_0000 + va % 0x20_0000;
      assert va == f * 0x1000 + va % 0x1000;
    }
  }

  lemma GraftedOverwrite(m: Memory, t: nat, k: nat, c: nat, entries: seq<Pte>, j: nat, pte: Pte)
    requires t in m.tables && k < |m.tables[t]| && j < |entries|
    ensures Written(Grafted(m, t, k, c, entries), c, j, pte) == Grafted(m, t, k, c, entries[j := pte])
  {
    assert Written(Grafted(m, t, k, c, entries), c, j, pte).tables == Grafted(m, t, k, c, entries[j := pte]).tables;
  }

  // ---------------------------------------------------------------------
  // Canonical addresses
  // ---------------------------------------------------------------------

  /**
    The addresses that the hardware translates: sign-extended from bit 38 under
    Sv39, zero-extended from bit 40 under Sv39x4.
   */
  predicate Canonical(rootEntries: nat, va: nat)
  {
    if rootEntries == 512 then va < 0x40_0000_0000 || WORDS - 0x40_0000_0000 <= va < WORDS else va < 0x200_0000_0000
  }

  /** The walk tells all of them apart. */
  lemma CanonicalAddressesDiffer(rootEntries: nat, a: nat, b: nat)
    requires Canonical(rootEntries, a) && Canonical(rootEntries, b) &&
             Residue(rootEntries, a) == Residue(rootEntries, b)
    ensures a == b
  {
    CanonicalResidue(rootEntries, a);
    CanonicalResidue(rootEntries, b);
  }

  lemma CanonicalResidue(rootEntries: nat, a: nat)
    requires Canonical(rootEntries, a)
    ensures Residue(rootEntries, a)
            == if rootEntries == 512 && a >= 0x40_0000_0000 then a - (WORDS - Span(512)) else a
  {
    var d := Span(rootEntries);
    if a < d {
      Quotient(a, d, 0, a);
    } else {
      Quotient(a, d, 0x1FF_FFFF, a - (WORDS - d));
    }
  }

  const HYPERVISOR_BASE := 0xFFFF_FFC0_0000_0000

  /** Ranges of the hypervisor's part of the address space, and of a guest's, lie in one span. */
  lemma UsualRangesFit(rootEntries: nat, g: Range)
    requires rootEntries == 512 || rootEntries == 2048
    requires g.start <= g.end
    requires if rootEntries == 512 then HYPERVISOR_BASE <= g.start && g.end <= WORDS else g.end <= 0x200_0000_0000
    ensures g.InOneSpan(rootEntries) && (g.start < g.end ==> Canonical(rootEntries, g.start))
  {
  }

  /** So what is not in a canonical range is not translated like an address in it, if it is canonical itself. */
  lemma CanonicalOutside(rootEntries: nat, g: Range, a: nat)
    requires g.InOneSpan(rootEntries) && (forall b: nat :: g.start <= b < g.end ==> Canonical(rootEntries, b))
    requires Canonical(rootEntries, a) && !(g.start <= a < g.end)
    ensures !(g.start <= Alias(rootEntries, g.start, a) < g.end)
  {
    var b := Alias(rootEntries, g.start, a);
    AliasResidue(rootEntries, g.start, a);
    if g.start <= b < g.end {
      CanonicalAddressesDiffer(rootEntries, a, b);
    }
  }
}
