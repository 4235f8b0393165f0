/**
  Three-level page tables of Bao on RISC-V (Sv39 and Sv39x4): the page walk, and
  what writing one page-table entry does to every translation.

  Tables live in memory, addressed by their physical base, and refer to each
  other by address. A ghost `Placement` says which live table covers which part
  of the virtual address space.
 */
module PageTable {
  import opened Basics
  import opened Bits

  const LEVELS := 3
  const PAGE_SIZE := 0x1000

  /** A page-table entry. Reserved entries are invalid ones set aside for a later mapping. */
  datatype Pte =
    | Invalid
    | Reserved
    | Leaf(addr: nat, flags: nat)
    | Table(child: nat)
  {
    predicate Valid() { Leaf? || Table? }
  }

  /** A translation: physical address and the flags of the leaf that gave it. */
  datatype Target = Target(addr: nat, flags: nat)

  /** pt_lvlsize: how much one entry of a level maps. */
  function Size(lvl: nat): (size: nat)
    requires lvl < LEVELS
    ensures size > 0
  {
    if lvl == 0 then 0x4000_0000 else if lvl == 1 then 0x20_0000 else PAGE_SIZE
  }

  /** The number of the level's page that contains an address. */
  function Frame(lvl: nat, va: nat): nat
    requires lvl < LEVELS
  {
    va / Size(lvl)
  }

  /** Page tables in memory. The root has 512 entries under Sv39 and 2048 under Sv39x4. */
  datatype Memory = Memory(tables: map<nat, seq<Pte>>, root: nat, rootEntries: nat)
  {
    /** pt_nentries */
    function Entries(lvl: nat): nat
    {
      if lvl == 0 then rootEntries else 512
    }

    /** pt_getpteindex_by_va */
    function Index(lvl: nat, va: nat): (k: nat)
      requires lvl < LEVELS && rootEntries > 0
      ensures k < Entries(lvl)
    {
      Frame(lvl, va) % Entries(lvl)
    }
  }

  /** How much of the address space the root table tells apart: 2^39 bytes under Sv39, 2^41 under Sv39x4. */
  function Span(rootEntries: nat): (span: nat)
    ensures span > 0
  {
    if rootEntries == 512 then 0x80_0000_0000 else 0x200_0000_0000
  }

  /** All that the walk sees of an address. Two addresses with the same residue are translated alike. */
  function Residue(rootEntries: nat, va: nat): (r: nat)
    ensures r < Span(rootEntries)
  {
    va % Span(rootEntries)
  }

  /** The position of a live table: its level, and its number among the tables of that level. */
  datatype Place = Place(lvl: nat, number: nat)
  {
    /** The number of the page that entry k maps. */
    function Page(k: nat): nat
    {
      number * 512 + k
    }

    /** This table lies below entry k of a table at position p. */
    predicate Below(p: Place, k: nat)
    {
      p.lvl < lvl && (if lvl == p.lvl + 1 then number else number / 512) == p.Page(k)
    }
  }
  type Placement = map<nat, Place>

  /** Entry k of a table at position p decides the address. */
  predicate InEntry(rootEntries: nat, p: Place, k: nat, va: nat)
    requires p.lvl < LEVELS
  {
    Frame(p.lvl, Residue(rootEntries, va)) == p.Page(k)
  }

  /** A table at position p covers the address. */
  predicate InTable(m: Memory, p: Place, va: nat)
    requires p.lvl < LEVELS
  {
    p.lvl == 0 || Frame(p.lvl - 1, Residue(m.rootEntries, va)) == p.number
  }

  ghost predicate PlaceOk(m: Memory, p: Place)
  {
    && p.lvl < LEVELS
    && match p.lvl
       case 0 => p.number == 0
       case 1 => p.number < m.rootEntries
       case _ => p.number / 512 < m.rootEntries
  }

  ghost predicate EntryOk(m: Memory, place: Placement, t: nat, k: nat)
    requires t in place && t in m.tables && place[t].lvl < LEVELS && k < |m.tables[t]|
  {
    match m.tables[t][k]
    case Table(c) => place[t].lvl + 1 < LEVELS && c in place && place[c] == Place(place[t].lvl + 1, place[t].Page(k))
    case Leaf(addr, _) => addr % Size(place[t].lvl) == 0
    case _ => true
  }

  /** Live tables cover what their parents say, no two the same part, and superpages are aligned. */
  ghost predicate Ok(m: Memory, place: Placement)
  {
    && (m.rootEntries == 512 || m.rootEntries == 2048)
    && m.root in place && place[m.root] == Place(0, 0)
    && (forall t <- place :: t in m.tables && PlaceOk(m, place[t]) && |m.tables[t]| == m.Entries(place[t].lvl))
    && (forall t <- place, k :: 0 <= k < |m.tables[t]| ==> EntryOk(m, place, t, k))
    && (forall t <- place, u <- place :: place[t] == place[u] ==> t == u)
  }

  // ---------------------------------------------------------------------
  // The walk
  // ---------------------------------------------------------------------

  /** The translation of an address from a table on; what the hardware and mem_translate compute. */
  ghost function Walk(m: Memory, place: Placement, t: nat, va: nat): Option<Target>
    requires Ok(m, place) && t in place
    decreases LEVELS - place[t].lvl
  {
    var lvl := place[t].lvl;
    var k := m.Index(lvl, va);
    assert EntryOk(m, place, t, k);
    match m.tables[t][k]
    case Table(c) => Walk(m, place, c, va)
    case Leaf(addr, flags) => Some(Target(addr - addr % Size(lvl) + va % Size(lvl), flags))
    case _ => None
  }

  ghost function Lookup(m: Memory, place: Placement, va: nat): Option<Target>
    requires Ok(m, place)
  {
    Walk(m, place, m.root, va)
  }

  /** The table that the walk for `va` reaches at level `lvl`, if it gets there. */
  ghost function Descend(m: Memory, place: Placement, va: nat, lvl: nat): (t: Option<nat>)
    requires Ok(m, place) && lvl < LEVELS
    ensures t.Some? ==> t.value in place && place[t.value].lvl == lvl
  {
    if lvl == 0 then Some(m.root)
    else
      match Descend(m, place, va, lvl - 1)
      case None => None
      case Some(t) =>
        var k := m.Index(lvl - 1, va);
        assert EntryOk(m, place, t, k);
        if m.tables[t][k].Table? then Some(m.tables[t][k].child) else None
  }

  // ---------------------------------------------------------------------
  // Positions
  // ---------------------------------------------------------------------

  /** A page of one level lies in the page of the level above with a 512th of its number. */
  lemma FrameAbove(lvl: nat, va: nat)
    requires 0 < lvl < LEVELS
    ensures Frame(lvl, va) / 512 == Frame(lvl - 1, va)
  {
    if lvl == 1 {
      var f := va / 0x20_0000;
      assert va == f * 0x20_0000 + va % 0x20_0000;
    } else {
      var f := va / 0x1000;
      assert va == f * 0x1000 + va % 0x1000;
    }
  }

  /** Reducing an address changes neither the index at any level nor the offset in a page. */
  lemma ResidueDecides(m: Memory, lvl: nat, va: nat)
    requires (m.rootEntries == 512 || m.rootEntries == 2048) && lvl < LEVELS
    ensures m.Index(lvl, Residue(m.rootEntries, va)) == m.Index(lvl, va)
    ensures Residue(m.rootEntries, va) % Size(lvl) == va % Size(lvl)
  {
    var count := SpanPages(m, lvl);
    ReductionDecides(va, Span(m.rootEntries), count, Size(lvl), m.Entries(lvl));
  }

  /** How many pages of a level the span holds. */
  function SpanPages(m: Memory, lvl: nat): (count: nat)
    requires (m.rootEntries == 512 || m.rootEntries == 2048) && lvl < LEVELS
    ensures count * Size(lvl) == Span(m.rootEntries) && count % m.Entries(lvl) == 0
  {
    var factor := if lvl == 0 then 1 else if lvl == 1 then 0x200 else 0x4_0000;
    if m.rootEntries == 512 then 512 * factor else 2048 * factor
  }

  /** In the part that a table covers, the index selects the entry that decides the address. */
  lemma IndexSelects(m: Memory, p: Place, va: nat)
    requires (m.rootEntries == 512 || m.rootEntries == 2048) && PlaceOk(m, p) && InTable(m, p, va)
    ensures InEntry(m.rootEntries, p, m.Index(p.lvl, va), va)
  {
    ResidueDecides(m, p.lvl, va);
    if p.lvl == 0 {
      FrameInRoot(m.rootEntries, Residue(m.rootEntries, va));
    } else {
      FrameAbove(p.lvl, Residue(m.rootEntries, va));
      Decompose(Frame(p.lvl, Residue(m.rootEntries, va)));
    }
  }

  lemma FrameInRoot(rootEntries: nat, a: nat)
    requires (rootEntries == 512 || rootEntries == 2048) && a < Span(rootEntries)
    ensures Frame(0, a) % rootEntries == Frame(0, a)
  {
    assert a / 0x4000_0000 < rootEntries;
  }

  lemma Decompose(f: nat)
    ensures f == f / 512 * 512 + f % 512
  {
  }

  lemma EntriesDisjoint(rootEntries: nat, p: Place, j: nat, k: nat, va: nat)
    requires p.lvl < LEVELS && InEntry(rootEntries, p, j, va) && InEntry(rootEntries, p, k, va)
    ensures j == k
  {
  }

  lemma EntryInTable(m: Memory, p: Place, k: nat, va: nat)
    requires PlaceOk(m, p) && k < m.Entries(p.lvl) && InEntry(m.rootEntries, p, k, va)
    ensures InTable(m, p, va)
  {
    if p.lvl > 0 {
      FrameAbove(p.lvl, Residue(m.rootEntries, va));
    }
  }

  /** The walk for an address only meets tables that cover it. */
  lemma {:induction false} DescendCovers(m: Memory, place: Placement, va: nat, lvl: nat)
    requires Ok(m, place) && lvl < LEVELS && Descend(m, place, va, lvl).Some?
    ensures InTable(m, place[Descend(m, place, va, lvl).value], va)
    ensures Walk(m, place, Descend(m, place, va, lvl).value, va) == Lookup(m, place, va)
  {
    if lvl > 0 {
      DescendCovers(m, place, va, lvl - 1);
      var t := Descend(m, place, va, lvl - 1).value;
      var k := m.Index(lvl - 1, va);
      assert EntryOk(m, place, t, k);
      IndexSelects(m, place[t], va);
    }
  }

  /** Addresses covered by one table share the walk down to it. */
  lemma {:induction false} DescendShared(m: Memory, place: Placement, va: nat, va': nat, lvl: nat)
    requires Ok(m, place) && lvl < LEVELS && Descend(m, place, va, lvl).Some?
    requires InTable(m, place[Descend(m, place, va, lvl).value], va')
    ensures Descend(m, place, va', lvl) == Descend(m, place, va, lvl)
  {
    if lvl > 0 {
      var t := Descend(m, place, va, lvl - 1).value;
      var k := m.Index(lvl - 1, va);
      DescendCovers(m, place, va, lvl - 1);
      assert EntryOk(m, place, t, k);
      IndexSelects(m, place[t], va);
      EntryInTable(m, place[t], k, va');
      DescendShared(m, place, va, va', lvl - 1);
      IndexSelects(m, place[t], va');
      EntriesDisjoint(m.rootEntries, place[t], k, m.Index(lvl - 1, va'), va');
    }
  }

  // ---------------------------------------------------------------------
  // Writing one entry
  // ---------------------------------------------------------------------

  /** The memory after entry k of table t is overwritten. */
  function Written(m: Memory, t: nat, k: nat, pte: Pte): Memory
    requires t in m.tables && k < |m.tables[t]|
  {
    m.(tables := m.tables[t := m.tables[t][k := pte]])
  }

  /** The memory after table c, with the given entries, is hung below entry k of table t. */
  function Grafted(m: Memory, t: nat, k: nat, c: nat, entries: seq<Pte>): Memory
    requires t in m.tables && k < |m.tables[t]|
  {
    var w := Written(m, t, k, Table(c));
    w.(tables := w.tables[c := entries])
  }

  /** The live tables once entry k of t leads nowhere: all tables below it are gone. */
  ghost function Pruned(place: Placement, t: nat, k: nat): Placement
    requires t in place
  {
    map u | u in place && !place[u].Below(place[t], k) :: place[u]
  }

  ghost function GraftedPlace(place: Placement, t: nat, k: nat, c: nat): Placement
    requires t in place
  {
    Pruned(place, t, k)[c := Place(place[t].lvl + 1, place[t].Page(k))]
  }

  /** Pruning never removes a table that a remaining entry refers to. */
  lemma PrunedKeepsChildren(m: Memory, place: Placement, t: nat, k: nat, u: nat, j: nat)
    requires Ok(m, place) && t in place && k < |m.tables[t]|
    requires u in Pruned(place, t, k) && j < |m.tables[u]| && (u, j) != (t, k) && m.tables[u][j].Table?
    ensures m.tables[u][j].child in Pruned(place, t, k)
  {
    assert EntryOk(m, place, u, j);
    var c := m.tables[u][j].child;
    var p, q := place[t], place[u];
    assert PlaceOk(m, p) && PlaceOk(m, q);
    assert place[c].Below(p, k) ==> q.lvl == p.lvl;
  }

  lemma WrittenOk(m: Memory, place: Placement, t: nat, k: nat, pte: Pte)
    requires Ok(m, place) && t in place && k < |m.tables[t]|
    requires !pte.Table? && (pte.Leaf? ==> pte.addr % Size(place[t].lvl) == 0)
    ensures Ok(Written(m, t, k, pte), Pruned(place, t, k))
  {
    var m', place' := Written(m, t, k, pte), Pruned(place, t, k);
    forall u, j | u in place' && 0 <= j < |m'.tables[u]|
      ensures EntryOk(m', place', u, j)
    {
      assert EntryOk(m, place, u, j);
      if (u, j) != (t, k) && m.tables[u][j].Table? {
        PrunedKeepsChildren(m, place, t, k, u, j);
      }
    }
  }

  /** A full table of leaves and holes, aligned for its level. */
  ghost predicate LeafEntries(entries: seq<Pte>, lvl: nat)
    requires lvl < LEVELS
  {
    |entries| == 512 && forall j :: 0 <= j < 512 ==>
        !entries[j].Table? && (entries[j].Leaf? ==> entries[j].addr % Size(lvl) == 0)
  }

  lemma GraftedEntriesOk(m: Memory, place: Placement, t: nat, k: nat, c: nat, entries: seq<Pte>, u: nat, j: nat)
    requires Ok(m, place) && t in place && k < |m.tables[t]| && place[t].lvl + 1 < LEVELS
    requires c !in m.tables && LeafEntries(entries, place[t].lvl + 1)
    requires u in GraftedPlace(place, t, k, c) && j < |Grafted(m, t, k, c, entries).tables[u]|
    ensures EntryOk(Grafted(m, t, k, c, entries), GraftedPlace(place, t, k, c), u, j)
  {
    if u != c {
      assert u in place && EntryOk(m, place, u, j);
      if (u, j) != (t, k) && m.tables[u][j].Table? {
        PrunedKeepsChildren(m, place, t, k, u, j);
      }
    }
  }

  lemma GraftedOk(m: Memory, place: Placement, t: nat, k: nat, c: nat, entries: seq<Pte>)
    requires Ok(m, place) && t in place && k < |m.tables[t]| && place[t].lvl + 1 < LEVELS
    requires c !in m.tables && LeafEntries(entries, place[t].lvl + 1)
    ensures Ok(Grafted(m, t, k, c, entries), GraftedPlace(place, t, k, c))
  {
    var m', place' := Grafted(m, t, k, c, entries), GraftedPlace(place, t, k, c);
    assert PlaceOk(m, place[t]);
    assert PlaceOk(m', place'[c]);
    forall u | u in place'
      ensures u in m'.tables && PlaceOk(m', place'[u]) && |m'.tables[u]| == m'.Entries(place'[u].lvl)
    {
      if u != c {
        assert u in place && PlaceOk(m, place[u]);
      }
    }
    forall u, j | u in place' && 0 <= j < |m'.tables[u]|
      ensures EntryOk(m', place', u, j)
    {
      GraftedEntriesOk(m, place, t, k, c, entries, u, j);
    }
    assert place'[c].Below(place[t], k);
    assert forall u <- Pruned(place, t, k) :: place[u] != place'[c];
  }

  // ---------------------------------------------------------------------
  // What a write does to translations
  // ---------------------------------------------------------------------

  /** Two memories whose common live tables differ at most in entry k of t. */
  ghost predicate AgreeOff(m: Memory, place: Placement, m': Memory, place': Placement, t: nat, k: nat)
  {
    && Ok(m, place) && Ok(m', place')
    && t in place && k < |m.tables[t]|
    && m'.root == m.root && m'.rootEntries == m.rootEntries
    && forall u <- place :: u in place' ==>
         && place'[u] == place[u] && |m'.tables[u]| == |m.tables[u]|
         && forall j :: 0 <= j < |m.tables[u]| && (u, j) != (t, k) ==> m'.tables[u][j] == m.tables[u][j]
  }

  lemma {:induction false} WalkOutside(m: Memory, place: Placement, m': Memory, place': Placement, t: nat, k: nat,
      u: nat, va: nat)
    requires AgreeOff(m, place, m', place', t, k) && u in place && u in place'
    requires InTable(m, place[u], va) && !InEntry(m.rootEntries, place[t], k, va)
    ensures Walk(m', place', u, va) == Walk(m, place, u, va)
    decreases LEVELS - place[u].lvl
  {
    var j := m.Index(place[u].lvl, va);
    IndexSelects(m, place[u], va);
    assert EntryOk(m, place, u, j) && EntryOk(m', place', u, j);
    if m.tables[u][j].Table? {
      WalkOutside(m, place, m', place', t, k, m.tables[u][j].child, va);
    }
  }

  /** Translations outside the written entry are as before. */
  lemma LookupOutside(m: Memory, place: Placement, m': Memory, place': Placement, t: nat, k: nat, va: nat)
    requires AgreeOff(m, place, m', place', t, k) && !InEntry(m.rootEntries, place[t], k, va)
    ensures Lookup(m', place', va) == Lookup(m, place, va)
  {
    WalkOutside(m, place, m', place', t, k, m.root, va);
  }

  /** The walk down to the written table is as before. */
  lemma {:induction false} DescendAbove(m: Memory, place: Placement, m': Memory, place': Placement, t: nat, k: nat,
      va: nat, lvl: nat)
    requires AgreeOff(m, place, m', place', t, k) && lvl <= place[t].lvl
    ensures Descend(m', place', va, lvl) == Descend(m, place, va, lvl)
  {
    if lvl > 0 {
      DescendAbove(m, place, m', place', t, k, va, lvl - 1);
      if Descend(m, place, va, lvl - 1).Some? {
        var u, j := Descend(m, place, va, lvl - 1).value, m.Index(lvl - 1, va);
        assert u in place && u in place' && u != t;
        assert m'.tables[u][j] == m.tables[u][j];
      }
    }
  }

  /** The table t is where the walk for va0 arrives at t's level. */
  ghost predicate Reached(m: Memory, place: Placement, t: nat, va0: nat)
  {
    Ok(m, place) && t in place && Descend(m, place, va0, place[t].lvl) == Some(t)
  }

  /** In the part of an entry of a table that the walk reaches, the translation is decided by the entry. */
  lemma LookupInside(m: Memory, place: Placement, t: nat, k: nat, va0: nat, va: nat)
    requires Reached(m, place, t, va0) && k < |m.tables[t]| && InEntry(m.rootEntries, place[t], k, va)
    ensures m.Index(place[t].lvl, va) == k
    ensures Lookup(m, place, va) == Walk(m, place, t, va)
  {
    EntryInTable(m, place[t], k, va);
    DescendShared(m, place, va0, va, place[t].lvl);
    DescendCovers(m, place, va, place[t].lvl);
    IndexSelects(m, place[t], va);
  }

  lemma WrittenAgrees(m: Memory, place: Placement, t: nat, k: nat, pte: Pte)
    requires Ok(m, place) && t in place && k < |m.tables[t]|
    requires !pte.Table? && (pte.Leaf? ==> pte.addr % Size(place[t].lvl) == 0)
    ensures AgreeOff(m, place, Written(m, t, k, pte), Pruned(place, t, k), t, k)
  {
    WrittenOk(m, place, t, k, pte);
  }

  lemma GraftedAgrees(m: Memory, place: Placement, t: nat, k: nat, c: nat, entries: seq<Pte>)
    requires Ok(m, place) && t in place && k < |m.tables[t]| && place[t].lvl + 1 < LEVELS
    requires c !in m.tables && LeafEntries(entries, place[t].lvl + 1)
    ensures AgreeOff(m, place, Grafted(m, t, k, c, entries), GraftedPlace(place, t, k, c), t, k)
  {
    GraftedOk(m, place, t, k, c, entries);
  }

  /** What an entry without a table below it says about an address. */
  ghost function EntryTarget(pte: Pte, lvl: nat, va: nat): Option<Target>
    requires lvl < LEVELS
  {
    match pte
    case Leaf(addr, flags) => Some(Target(addr + va % Size(lvl), flags))
    case _ => None
  }

  /** Writing a leaf maps exactly the entry's part, and leaves every other translation alone. */
  lemma WriteLeafEffect(m: Memory, place: Placement, t: nat, k: nat, va0: nat, addr: nat, flags: nat, va: nat)
    requires Reached(m, place, t, va0) && k < |m.tables[t]| && addr % Size(place[t].lvl) == 0
    ensures Reached(Written(m, t, k, Leaf(addr, flags)), Pruned(place, t, k), t, va0)
    ensures Lookup(Written(m, t, k, Leaf(addr, flags)), Pruned(place, t, k), va)
            == if InEntry(m.rootEntries, place[t], k, va) then EntryTarget(Leaf(addr, flags), place[t].lvl, va)
                else Lookup(m, place, va)
  {
    var m', place' := Written(m, t, k, Leaf(addr, flags)), Pruned(place, t, k);
    WrittenAgrees(m, place, t, k, Leaf(addr, flags));
    DescendAbove(m, place, m', place', t, k, va0, place[t].lvl);
    if InEntry(m.rootEntries, place[t], k, va) {
      LookupInside(m', place', t, k, va0, va);
    } else {
      LookupOutside(m, place, m', place', t, k, va);
    }
  }

  /** Hanging a table of leaves and holes below an entry: each of its entries decides its own part. */
  lemma GraftEffect(m: Memory, place: Placement, t: nat, k: nat, va0: nat, c: nat, entries: seq<Pte>, va: nat)
    requires Reached(m, place, t, va0) && k < |m.tables[t]| && place[t].lvl + 1 < LEVELS
    requires c !in m.tables && LeafEntries(entries, place[t].lvl + 1)
    ensures Reached(Grafted(m, t, k, c, entries), GraftedPlace(place, t, k, c), t, va0)
    ensures Lookup(Grafted(m, t, k, c, entries), GraftedPlace(place, t, k, c), va)
            == if InEntry(m.rootEntries, place[t], k, va)
                then EntryTarget(entries[m.Index(place[t].lvl + 1, va)], place[t].lvl + 1, va)
               else Lookup(m, place, va)
  {
    var m', place' := Grafted(m, t, k, c, entries), GraftedPlace(place, t, k, c);
    GraftedAgrees(m, place, t, k, c, entries);
    DescendAbove(m, place, m', place', t, k, va0, place[t].lvl);
    if InEntry(m.rootEntries, place[t], k, va) {
      GraftInside(m, place, t, k, va0, c, entries, va);
    } else {
      LookupOutside(m, place, m', place', t, k, va);
    }
  }

  lemma GraftInside(m: Memory, place: Placement, t: nat, k: nat, va0: nat, c: nat, entries: seq<Pte>, va: nat)
    requires Reached(m, place, t, va0) && k < |m.tables[t]| && place[t].lvl + 1 < LEVELS &&
             InEntry(m.rootEntries, place[t], k, va)
    requires c !in m.tables && LeafEntries(entries, place[t].lvl + 1)
    requires Reached(Grafted(m, t, k, c, entries), GraftedPlace(place, t, k, c), t, va0)
    ensures Lookup(Grafted(m, t, k, c, entries), GraftedPlace(place, t, k, c), va)
            == EntryTarget(entries[m.Index(place[t].lvl + 1, va)], place[t].lvl + 1, va)
  {
    var m', place' := Grafted(m, t, k, c, entries), GraftedPlace(place, t, k, c);
    LookupInside(m', place', t, k, va0, va);
    GraftedWalk(m', place', t, k, va);
  }

  /** The walk that used to end in the entry now goes on to the grafted table. */
  lemma GraftReached(m: Memory, place: Placement, t: nat, k: nat, va0: nat, c: nat, entries: seq<Pte>)
    requires Reached(m, place, t, va0) && k < |m.tables[t]| && place[t].lvl + 1 < LEVELS &&
             InEntry(m.rootEntries, place[t], k, va0)
    requires c !in m.tables && LeafEntries(entries, place[t].lvl + 1)
    ensures Reached(Grafted(m, t, k, c, entries), GraftedPlace(place, t, k, c), c, va0)
  {
    var m', place' := Grafted(m, t, k, c, entries), GraftedPlace(place, t, k, c);
    GraftedAgrees(m, place, t, k, c, entries);
    DescendAbove(m, place, m', place', t, k, va0, place[t].lvl);
    LookupInside(m', place', t, k, va0, va0);
  }

  /** The walk through an entry that leads to a table without further tables. */
  lemma GraftedWalk(m: Memory, place: Placement, t: nat, k: nat, va: nat)
    requires Ok(m, place) && t in place && k < |m.tables[t]| && m.tables[t][k].Table?
    requires m.Index(place[t].lvl, va) == k
    requires place[t].lvl + 1 < LEVELS && m.tables[t][k].child in m.tables
    requires m.Index(place[t].lvl + 1, va) < |m.tables[m.tables[t][k].child]|
    requires !m.tables[m.tables[t][k].child][m.Index(place[t].lvl + 1, va)].Table?
    ensures Walk(m, place, t, va)
            == EntryTarget(m.tables[m.tables[t][k].child][m.Index(place[t].lvl + 1, va)], place[t].lvl + 1, va)
  {
    assert EntryOk(m, place, t, k);
    var c, j := m.tables[t][k].child, m.Index(place[t].lvl + 1, va);
    assert EntryOk(m, place, c, j);
    assert Walk(m, place, t, va) == Walk(m, place, c, va);
  }

  /** Addresses with the same residue are translated alike. */
  lemma LookupAlias(m: Memory, place: Placement, va: nat, va': nat)
    requires Ok(m, place) && Residue(m.rootEntries, va) == Residue(m.rootEntries, va')
    ensures Lookup(m, place, va) == Lookup(m, place, va')
  {
    WalkAlias(m, place, m.root, va, va');
  }

  lemma {:induction false} WalkAlias(m: Memory, place: Placement, t: nat, va: nat, va': nat)
    requires Ok(m, place) && t in place && Residue(m.rootEntries, va) == Residue(m.rootEntries, va')
    ensures Walk(m, place, t, va) == Walk(m, place, t, va')
    decreases LEVELS - place[t].lvl
  {
    var lvl := place[t].lvl;
    ResidueDecides(m, lvl, va);
    ResidueDecides(m, lvl, va');
    var k := m.Index(lvl, va);
    assert EntryOk(m, place, t, k);
    if m.tables[t][k].Table? {
      WalkAlias(m, place, m.tables[t][k].child, va, va');
    }
  }
}
