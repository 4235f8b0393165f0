/**
  The PMP registers of a hart: what the hardware makes of them, the methods that
  read and write them, and the table that sbi_hart_pmp_configure builds from a
  domain's regions (opensbi/lib/sbi/riscv_asm.c, opensbi/lib/sbi/sbi_hart.c).
 */
module PmpTable {
  import opened Basics
  import opened Bits
  import opened Domain
  import opened Pmp
  import opened RegionInit

  // ---------------------------------------------------------------------
  // The hardware's rules
  // ---------------------------------------------------------------------

  function TrailingOnes(x: nat): nat
  {
    if x % 2 == 0 then 0 else TrailingOnes(x / 2) + 1
  }

  /** Whether an entry matches an address; a TOR entry starts at the address register before it. */
  predicate HwMatches(e: Entry, previous: Word, x: Word)
  {
    if e.Matching() == OFF then false
    else if e.Matching() == TOR then previous <= x / 4 < e.addr
    else if e.Matching() == NA4 then x / 4 == e.addr
    else
      var n := TrailingOnes(e.addr) + 1;
      e.addr == WORDS - 1 || (x / 4) / Pow2(n) == e.addr / Pow2(n)
  }

  /** The lowest-numbered entry from i on that matches. */
  function HwFirst(t: seq<Entry>, i: nat, x: Word): (k: nat)
    requires i <= |t|
    ensures i <= k <= |t|
    decreases |t| - i
  {
    if i == |t| || HwMatches(t[i], if i == 0 then 0 else t[i - 1].addr, x) then i else HwFirst(t, i + 1, x)
  }

  /** Whether an access from S-mode or U-mode succeeds on a hart with PMP entries. */
  predicate HwAllows(t: seq<Entry>, x: Word, access: Access)
  {
    var k := HwFirst(t, 0, x);
    && k < |t|
    && (access.read ==> t[k].Readable()) && (access.write ==> t[k].Writeable()) &&
       (access.execute ==> t[k].Executable())
  }

  // ---------------------------------------------------------------------
  // Regions as entries
  // ---------------------------------------------------------------------

  function One(b: bool): nat
  {
    if b then 1 else 0
  }

  /** The flags that sbi_hart_pmp_configure computes for a region. */
  function PmpFlags(f: Flags): Word
  {
    One(f.readable) + 2 * One(f.writeable) + 4 * One(f.executable) + 128 * One(f.mmode)
  }

  /** The entry for a region; pmp_set refuses other orders. */
  function RegionEntry(r: Region): Entry
  {
    if PMP_SHIFT <= r.order <= XLEN then Encode(PmpFlags(r.flags), r.base, r.order) else Entry(0, 0)
  }

  lemma {:induction false} TrailingOnesOf(q: nat, t: nat)
    ensures TrailingOnes((2 * q) * Pow2(t) + (Pow2(t) - 1)) == t
  {
    if t > 0 {
      var d := Pow2(t - 1);
      Product3(2 * q, 2, d);
      Product3(2, 2 * q, d);
      assert (2 * q) * Pow2(t) + (Pow2(t) - 1) == 2 * ((2 * q) * d + (d - 1)) + 1;
      TrailingOnesOf(q, t - 1);
    }
  }

  /** A NAPOT entry matches exactly the addresses of its block. */
  lemma NapotMatches(base: Word, order: nat, x: Word)
    requires PMP_SHIFT < order < XLEN
    ensures var addr := EncodeAddr(base, order);
            var n := TrailingOnes(addr) + 1;
            addr != WORDS - 1 && ((x / 4) / Pow2(n) == addr / Pow2(n) <==> x / Pow2(order) == base / Pow2(order))
  {
    var d, q := Pow2(order - 3), base / Pow2(order);
    NapotForm(base, order);
    TrailingOnesOf(q, order - 3);
    Sizes(order);
    SameNumber(x, q, d, EncodeAddr(base, order));
  }

  lemma SameNumber(x: nat, q: nat, d: nat, addr: nat)
    requires d > 0 && addr == (2 * q) * d + (d - 1)
    ensures (x / 4) / (2 * d) == addr / (2 * d) <==> x / (8 * d) == q
  {
    DivDiv(x, 4, 2 * d);
    NumberOf(q, d);
  }

  lemma NumberOf(q: nat, d: nat)
    requires d > 0
    ensures ((2 * q) * d + (d - 1)) / (2 * d) == q
  {
    Product3(q, 2, d);
    Quotient((2 * q) * d + (d - 1), 2 * d, q, d - 1);
  }

  /** An entry written for an aligned region matches exactly the region's addresses, and carries its permissions. */
  lemma RegionEntryMatches(r: Region, previous: Word, x: Word)
    requires Aligned(r) && IsRegionValid(r)
    ensures HwMatches(RegionEntry(r), previous, x) <==> Contains(r, x)
  {
    var e := RegionEntry(r);
    ContainsAligned(r, x);
    if r.order < XLEN {
      NapotMatches(r.base, r.order, x);
      InBlockIffSameNumber(r.base, Pow2(r.order), x);
    } else {
      Pow2Xlen();
      ValidIffAligned(r);
    }
  }

  lemma InBlockIffSameNumber(b: nat, d: nat, x: nat)
    requires d > 0 && b % d == 0
    ensures x / d == b / d <==> b <= x < b + d
  {
    if b <= x < b + d {
      Quotient(x, d, b / d, x - b);
    }
  }

  lemma RegionEntryPermissions(r: Region)
    requires IsRegionValid(r)
    ensures var e := RegionEntry(r);
            && e.Readable() == r.flags.readable && e.Writeable() == r.flags.writeable
            && e.Executable() == r.flags.executable && e.Locked() == r.flags.mmode
  {
    FlagBits(RegionEntry(r).cfg, One(r.flags.readable), One(r.flags.writeable), One(r.flags.executable),
        One(r.flags.mmode));
  }

  lemma FlagBits(b: nat, r: nat, w: nat, x: nat, l: nat)
    requires r < 2 && w < 2 && x < 2 && l < 2
    requires b % 8 == (r + 2 * w + 4 * x + 128 * l) % 8 && b / 32 == (r + 2 * w + 4 * x + 128 * l) / 32 % 8
    ensures b % 2 == r && b / 2 % 2 == w && b / 4 % 2 == x && b / 128 % 2 == l
  {
    var low := r + 2 * w + 4 * x;
    assert (low + 128 * l) % 8 == low && (low + 128 * l) / 32 == 4 * l;
    LowBits(b, r, w, x);
    assert b / 128 == l;
  }

  lemma LowBits(b: nat, r: nat, w: nat, x: nat)
    requires r < 2 && w < 2 && x < 2 && b % 8 == r + 2 * w + 4 * x
    ensures b % 2 == r && b / 2 % 2 == w && b / 4 % 2 == x
  {
    var m := b / 8;
    Half(4 * m + 2 * x + w, r);
    Half(2 * m + x, w);
    Half(m, x);
    DivDiv(b, 2, 2);
  }

  lemma Half(k: nat, bit: nat)
    requires bit < 2
    ensures (2 * k + bit) / 2 == k && (2 * k + bit) % 2 == bit
  {
  }

  /** The table starts with the entries of the regions, and everything after them is off. */
  ghost predicate Holds(t: seq<Entry>, s: seq<Region>)
  {
    && |s| <= |t| && (forall r <- s :: Aligned(r) && IsRegionValid(r))
    && (forall i :: 0 <= i < |s| ==> t[i] == RegionEntry(s[i]))
    && (forall i :: |s| <= i < |t| ==> t[i].Matching() == OFF)
  }

  lemma {:induction false} HwFirstIs(t: seq<Entry>, s: seq<Region>, mode: Mode, x: Word, i: nat)
    requires Holds(t, s) && mode != M && i <= |t|
    requires forall j :: 0 <= j < i && j < |s| ==> !Matches(s[j], mode, x)
    ensures HwFirst(t, i, x) == if First(s, mode, x) < |s| then First(s, mode, x) else |t|
    decreases |t| - i
  {
    if i < |s| {
      RegionEntryMatches(s[i], if i == 0 then 0 else t[i - 1].addr, x);
    }
    if i < |t| && !(i < |s| && Matches(s[i], mode, x)) {
      HwFirstIs(t, s, mode, x, i + 1);
    }
  }

  /**
    The hardware decides every access from S-mode and U-mode as check_addr does,
    when the access's MMIO flag agrees with the region that answers.
   */
  lemma TableEnforcesRegions(t: seq<Entry>, s: seq<Region>, mode: Mode, x: Word, access: Access)
    requires Holds(t, s) && mode != M
    requires Answer(s, mode, x).Some? ==> Answer(s, mode, x).value.mmio == access.mmio
    ensures HwAllows(t, x, access) == Allowed(s, mode, x, access)
  {
    HwFirstIs(t, s, mode, x, 0);
    var i := First(s, mode, x);
    if i < |s| {
      RegionEntryPermissions(s[i]);
    }
  }

  // ---------------------------------------------------------------------
  // The registers
  // ---------------------------------------------------------------------

  /** Configuration registers are numbered from 0 to 15, and only the even ones exist on a 64-bit hart. */
  function CfgRegister(n: nat): (c: nat)
    requires n < PMP_COUNT
    ensures c < 16 && c == 2 * (n / 8)
  {
    n / 4 - n / 4 % 2
  }

  /** ctz */
  method Ctz(x: Word) returns (ret: nat)
    ensures ret == if x == 0 then XLEN else TrailingZeros(x)
  {
    if x == 0 {
      return XLEN;
    }
    ret := 0;
    var y := x;
    while y % 2 == 0
      invariant y > 0 && ret + TrailingZeros(y) == TrailingZeros(x)
      decreases y
    {
      ret := ret + 1;
      y := y / 2;
    }
  }

  class Registers {
    const pmpcfg: array<nat>
    const pmpaddr: array<Word>

    ghost predicate Valid()
      reads this
    {
      pmpcfg.Length == 16 && pmpaddr.Length == PMP_COUNT && pmpcfg as object != pmpaddr as object
    }

    ghost function At(n: nat): Entry
      requires Valid() && n < PMP_COUNT
      reads this, pmpcfg, pmpaddr
    {
      Entry(Byte(pmpcfg[CfgRegister(n)], n % 8), pmpaddr[n])
    }

    ghost function Table(): (t: seq<Entry>)
      requires Valid()
      reads this, pmpcfg, pmpaddr
      ensures |t| == PMP_COUNT
      ensures forall n :: 0 <= n < PMP_COUNT ==> t[n] == At(n)
    {
      seq(PMP_COUNT, n requires 0 <= n < PMP_COUNT reads this, pmpcfg, pmpaddr => At(n))
    }

    /** pmp_set: writes one entry and leaves all others as they decode, although eight share a register. */
    method Set(n: nat, prot: Word, a: Word, log2len: nat) returns (ok: bool)
      requires Valid()
      modifies pmpcfg, pmpaddr
      ensures ok <==> n < PMP_COUNT && PMP_SHIFT <= log2len <= XLEN
      ensures Table() == if ok then old(Table())[n := Encode(prot, a, log2len)] else old(Table())
    {
      if n >= PMP_COUNT || log2len > XLEN || log2len < PMP_SHIFT {
        return false;
      }
      ghost var t := Table();
      var c := CfgRegister(n);
      var cfg := EncodeCfg(prot, if log2len == PMP_SHIFT then NA4 else NAPOT);
      forall m | 0 <= m < PMP_COUNT
        ensures CfgRegister(m) == c ==>
                  Byte(SetByte(pmpcfg[c], n % 8, cfg), m % 8) == if m == n then cfg else Byte(pmpcfg[c], m % 8)
      {
        SetByteAt(pmpcfg[c], n % 8, cfg, m % 8);
        SameByte(n, m);
      }
      pmpaddr[n] := EncodeAddr(a, log2len);
      pmpcfg[c] := SetByte(pmpcfg[c], n % 8, cfg);
      forall m | 0 <= m < PMP_COUNT
        ensures At(m) == t[n := Encode(prot, a, log2len)][m]
      {
      }
      return true;
    }

    /** pmp_get */
    method Get(n: nat) returns (details: Option<Details>)
      requires Valid()
      ensures details == if n < PMP_COUNT then Some(Decode(At(n))) else None
    {
      if n >= PMP_COUNT {
        return None;
      }
      var prot := Byte(pmpcfg[CfgRegister(n)], n % 8);
      var addr, len := pmpaddr[n], PMP_SHIFT;
      if prot / 8 % 4 == NAPOT {
        if addr == WORDS - 1 {
          addr, len := 0, XLEN;
        } else {
          var t1 := Ctz(WORDS - 1 - addr);
          addr, len := RoundDown(addr, Pow2(t1)) * 4 % WORDS, t1 + PMP_SHIFT + 1;
        }
      } else {
        addr := addr * 4 % WORDS;
      }
      return Some(Details(prot, addr, len));
    }

    /** One region written to the next entry. */
    method Write(reg: Region, pmpIdx: nat, ghost done: seq<Region>, ghost before: seq<Entry>)
      requires Valid() && pmpIdx == |done| < PMP_COUNT && IsRegionValid(reg)
      requires IsWritten(done, before, Table())
      modifies pmpcfg, pmpaddr
      ensures IsWritten(done + [reg], before, Table())
    {
      WriteNext(done, reg, before, Table());
      var _ := Set(pmpIdx, PmpFlags(reg.flags), reg.base, reg.order);
    }

    /** The loop of sbi_hart_pmp_configure over the regions. */
    method Program(regions: seq<Region>, pmpCount: nat, limits: Limits)
      requires Valid() && (forall r <- regions :: IsRegionValid(r)) && pmpCount <= PMP_COUNT
      modifies pmpcfg, pmpaddr
      ensures IsWritten(Programmed(regions, pmpCount, limits), old(Table()), Table())
    {
      ghost var all, before := Programmed(regions, pmpCount, limits), Table();
      ghost var done: seq<Region> := [];
      var i, pmpIdx := 0, 0;
      WholeEnds(regions, pmpCount, limits, all);
      while i < |regions|
        invariant 0 <= i <= |regions| && 0 <= pmpIdx <= pmpCount && |done| == pmpIdx
        invariant Whole(done, regions, i, pmpCount, limits, all)
        invariant IsWritten(done, before, Table())
      {
        if pmpCount <= pmpIdx {
          break;
        }
        WholeStep(done, regions, i, pmpCount, limits, all);
        done, pmpIdx := ProgramOne(regions[i], pmpIdx, limits, done, before);
        i := i + 1;
      }
      assert done == all;
    }

    /** One round of that loop. */
    method ProgramOne(reg: Region, pmpIdx: nat, limits: Limits, ghost done: seq<Region>, ghost before: seq<Entry>)
      returns (ghost done': seq<Region>, pmpIdx': nat)
      requires Valid() && pmpIdx == |done| < PMP_COUNT && IsRegionValid(reg)
      requires IsWritten(done, before, Table())
      modifies pmpcfg, pmpaddr
      ensures IsWritten(done', before, Table()) && pmpIdx' == |done'|
      ensures done' == if limits.Fits(reg) then done + [reg] else done
    {
      done', pmpIdx' := done, pmpIdx;
      if limits.Fits(reg) {
        Write(reg, pmpIdx, done, before);
        done', pmpIdx' := done + [reg], pmpIdx + 1;
      }
    }

    /**
      sbi_hart_pmp_configure. The regions that fit the hart's granularity and
      address width are written in order, as far as there are entries; all other
      entries keep their contents.
     */
    method Configure(regions: seq<Region>, pmpCount: nat, granularity: Word, addrBits: nat)
      requires Valid() && (forall r <- regions :: IsRegionValid(r))
      requires pmpCount <= PMP_COUNT && 0 < addrBits <= XLEN
      modifies pmpcfg, pmpaddr
      ensures IsWritten(Programmed(regions, pmpCount, Limits(Roundup(granularity), addrBits)), old(Table()), Table())
      ensures forall n :: pmpCount <= n < PMP_COUNT ==> Table()[n] == old(Table())[n]
      ensures AllAligned(regions) && (forall n :: 0 <= n < PMP_COUNT ==> old(Table())[n].Matching() == OFF) ==>
                Enforced(regions, pmpCount, granularity, addrBits, Table())
    {
      if pmpCount > 0 {
        var gran := Log2Roundup(granularity);
        Program(regions, pmpCount, Limits(gran, addrBits));
      }
      if AllAligned(regions) && forall n :: 0 <= n < PMP_COUNT ==> old(Table())[n].Matching() == OFF {
        ConfigureEnforces(regions, pmpCount, granularity, addrBits, old(Table()), Table());
      }
    }
  }

  /** The granularity as a power of two, and the width of the address registers. */
  datatype Limits = Limits(gran: nat, addrBits: nat)
  {
    predicate Fits(r: Region)
    {
      gran <= r.order && r.base / 4 < Pow2(addrBits) - 1
    }
  }

  /** The regions that sbi_hart_pmp_configure writes into `room` entries. */
  function Programmed(s: seq<Region>, room: nat, limits: Limits): (p: seq<Region>)
    ensures |p| <= room && forall r <- p :: r in s
  {
    if s == [] || room == 0 then []
    else if limits.Fits(s[0]) then [s[0]] + Programmed(s[1..], room - 1, limits)
    else Programmed(s[1..], room, limits)
  }

  ghost predicate IsWritten(p: seq<Region>, before: seq<Entry>, after: seq<Entry>)
  {
    && |p| <= |after| == |before|
    && (forall i :: 0 <= i < |p| ==> after[i] == RegionEntry(p[i]))
    && (forall i :: |p| <= i < |after| ==> after[i] == before[i])
  }

  /** What is written so far and what is still to be written are the whole. */
  ghost predicate Whole(done: seq<Region>, s: seq<Region>, i: nat, count: nat, limits: Limits, all: seq<Region>)
  {
    i <= |s| && |done| <= count && done + Programmed(s[i..], count - |done|, limits) == all
  }

  /** They stay so, region by region. */
  lemma WholeStep(done: seq<Region>, s: seq<Region>, i: nat, count: nat, limits: Limits, all: seq<Region>)
    requires i < |s| && |done| < count && Whole(done, s, i, count, limits, all)
    ensures Whole(if limits.Fits(s[i]) then done + [s[i]] else done, s, i + 1, count, limits, all)
  {
    assert s[i..][1..] == s[i + 1..];
    if limits.Fits(s[i]) {
      var rest := Programmed(s[i + 1..], count - |done| - 1, limits);
      assert done + ([s[i]] + rest) == (done + [s[i]]) + rest;
    }
  }

  /** At the beginning nothing is written; when the regions or the entries are used up, all is. */
  lemma WholeEnds(s: seq<Region>, count: nat, limits: Limits, all: seq<Region>)
    requires all == Programmed(s, count, limits)
    ensures Whole([], s, 0, count, limits, all)
    ensures forall done, i :: Whole(done, s, i, count, limits, all) && (i == |s| || |done| == count) ==> done == all
  {
    assert s[0..] == s;
    forall done, i: nat | Whole(done, s, i, count, limits, all) && (i == |s| || |done| == count)
      ensures done == all
    {
      assert Programmed(s[i..], count - |done|, limits) == [];
    }
  }

  lemma WriteNext(p: seq<Region>, r: Region, before: seq<Entry>, t: seq<Entry>)
    requires IsWritten(p, before, t) && |p| < |t|
    ensures IsWritten(p + [r], before, t[|p| := RegionEntry(r)])
  {
  }

  /** How many of the regions fit. */
  function Fitting(s: seq<Region>, limits: Limits): (n: nat)
    ensures n <= |s|
  {
    if s == [] then 0 else Fitting(s[1..], limits) + if limits.Fits(s[0]) then 1 else 0
  }

  /** The first region that matches is written: it fits, and those before it leave an entry for it. */
  predicate FirstIsProgrammed(s: seq<Region>, room: nat, limits: Limits, mode: Mode, x: Word)
  {
    var i := First(s, mode, x);
    i < |s| ==> limits.Fits(s[i]) && Fitting(s[..i], limits) < room
  }

  /** Where the region that answers is written, leaving out others makes no difference. */
  lemma {:induction false} ProgrammedAnswer(s: seq<Region>, room: nat, limits: Limits, mode: Mode, x: Word)
    requires FirstIsProgrammed(s, room, limits, mode, x)
    ensures Answer(Programmed(s, room, limits), mode, x) == Answer(s, mode, x)
  {
    var i := First(s, mode, x);
    if s == [] || room == 0 || i == 0 {
      return;
    }
    var fits := limits.Fits(s[0]);
    if i < |s| {
      assert s[..i][1..] == s[1..][..i - 1];
    }
    ProgrammedAnswer(s[1..], if fits then room - 1 else room, limits, mode, x);
    if fits {
      FirstOfRest(s[0], Programmed(s[1..], room - 1, limits), mode, x);
    }
  }

  lemma FirstOfRest(r: Region, s: seq<Region>, mode: Mode, x: Word)
    requires !Matches(r, mode, x)
    ensures Answer([r] + s, mode, x) == Answer(s, mode, x)
  {
    assert ([r] + s)[1..] == s;
  }

  /**
    The table that configure leaves, with the entries behind it off, makes the
    hardware allow an access from S-mode or U-mode exactly when check_addr does on
    the regions that were written.
   */
  lemma ConfiguredTableEnforcesProgrammed(s: seq<Region>, pmpCount: nat, limits: Limits, before: seq<Entry>,
                                          after: seq<Entry>, mode: Mode, x: Word, access: Access)
    requires AllAligned(s) && (forall r <- s :: IsRegionValid(r))
    requires IsWritten(Programmed(s, pmpCount, limits), before, after)
    requires forall i :: |Programmed(s, pmpCount, limits)| <= i < |before| ==> before[i].Matching() == OFF
    requires mode != M
    requires var p := Programmed(s, pmpCount, limits);
             Answer(p, mode, x).Some? ==> Answer(p, mode, x).value.mmio == access.mmio
    ensures HwAllows(after, x, access) == Allowed(Programmed(s, pmpCount, limits), mode, x, access)
  {
    TableEnforcesRegions(after, Programmed(s, pmpCount, limits), mode, x, access);
  }

  /** So it decides as the domain does at every address for which the region that answers was written. */
  lemma ConfiguredTableEnforcesDomain(s: seq<Region>, pmpCount: nat, limits: Limits, before: seq<Entry>,
                                      after: seq<Entry>, mode: Mode, x: Word, access: Access)
    requires AllAligned(s) && (forall r <- s :: IsRegionValid(r)) && FirstIsProgrammed(s, pmpCount, limits, mode, x)
    requires IsWritten(Programmed(s, pmpCount, limits), before, after)
    requires forall i :: |Programmed(s, pmpCount, limits)| <= i < |before| ==> before[i].Matching() == OFF
    requires mode != M && (Answer(s, mode, x).Some? ==> Answer(s, mode, x).value.mmio == access.mmio)
    ensures HwAllows(after, x, access) == Allowed(s, mode, x, access)
  {
    ProgrammedAnswer(s, pmpCount, limits, mode, x);
    ConfiguredTableEnforcesProgrammed(s, pmpCount, limits, before, after, mode, x, access);
  }

  /** If every region fits and there are entries for all, that is every address. */
  lemma AllProgrammed(s: seq<Region>, pmpCount: nat, limits: Limits, mode: Mode, x: Word)
    requires (forall r <- s :: limits.Fits(r)) && |s| <= pmpCount
    ensures FirstIsProgrammed(s, pmpCount, limits, mode, x)
    ensures |Programmed(s, pmpCount, limits)| == |s|
  {
    ProgrammedCount(s, pmpCount, limits);
    assert First(s, mode, x) < |s| ==> s[First(s, mode, x)] in s;
  }

  lemma {:induction false} ProgrammedCount(s: seq<Region>, room: nat, limits: Limits)
    requires |s| <= room && forall r <- s :: limits.Fits(r)
    ensures |Programmed(s, room, limits)| == |s|
  {
    if s != [] {
      ProgrammedCount(s[1..], room - 1, limits);
    }
  }

  // ---------------------------------------------------------------------
  // In the terms of sbi_hart_pmp_configure
  // ---------------------------------------------------------------------

  /** The region is no smaller than the granularity, and its address is within the hart's address bits. */
  ghost predicate Protectable(r: Region, granularity: Word, addrBits: nat)
  {
    granularity <= Pow2(r.order) && r.base / 4 < Pow2(addrBits) - 1
  }

  lemma FitsIff(r: Region, granularity: Word, addrBits: nat)
    ensures Limits(Roundup(granularity), addrBits).Fits(r) <==> Protectable(r, granularity, addrBits)
  {
    if Roundup(granularity) <= r.order {
      Pow2Monotone(Roundup(granularity), r.order);
    }
  }

  /** The positions before i of regions that take an entry. */
  ghost function Takers(s: seq<Region>, i: nat, granularity: Word, addrBits: nat): set<nat>
    requires i <= |s|
  {
    set j: nat | j < i && Protectable(s[j], granularity, addrBits)
  }

  lemma {:induction false} FittingIsTakers(s: seq<Region>, i: nat, granularity: Word, addrBits: nat)
    requires i <= |s|
    ensures Fitting(s[..i], Limits(Roundup(granularity), addrBits)) == |Takers(s, i, granularity, addrBits)|
  {
    var limits := Limits(Roundup(granularity), addrBits);
    if i == 0 {
      assert Takers(s, 0, granularity, addrBits) == {};
    } else {
      FittingIsTakers(s, i - 1, granularity, addrBits);
      FitsIff(s[i - 1], granularity, addrBits);
      assert s[..i] == s[..i - 1] + [s[i - 1]];
      FittingAppend(s[..i - 1], s[i - 1], limits);
      NextTaker(s, i - 1, granularity, addrBits);
    }
  }

  lemma NextTaker(s: seq<Region>, i: nat, granularity: Word, addrBits: nat)
    requires i < |s|
    ensures |Takers(s, i + 1, granularity, addrBits)|
            == |Takers(s, i, granularity, addrBits)| + if Protectable(s[i], granularity, addrBits) then 1 else 0
  {
    var before := Takers(s, i, granularity, addrBits);
    assert Takers(s, i + 1, granularity, addrBits)
        == if Protectable(s[i], granularity, addrBits) then before + {i} else before;
  }

  lemma {:induction false} FittingAppend(s: seq<Region>, r: Region, limits: Limits)
    ensures Fitting(s + [r], limits) == Fitting(s, limits) + if limits.Fits(r) then 1 else 0
  {
    if s == [] {
      assert s + [r] == [r];
    } else {
      assert (s + [r])[1..] == s[1..] + [r];
      FittingAppend(s[1..], r, limits);
    }
  }

  /**
    The hardware decides as the domain at every address whose first region, if any,
    is protectable with fewer than `pmpCount` protectable ones before it, for
    accesses from S-mode and U-mode that agree with that region on MMIO.
   */
  ghost predicate Enforced(s: seq<Region>, pmpCount: nat, granularity: Word, addrBits: nat, t: seq<Entry>)
  {
    forall mode: Mode, x: Word, access: Access ::
      mode != M && (forall i :: IsFirstAt(s, i, mode, x) ==>
        && Protectable(s[i], granularity, addrBits) && |Takers(s, i, granularity, addrBits)| < pmpCount
        && s[i].flags.mmio == access.mmio) ==>
        HwAllows(t, x, access) == Allowed(s, mode, x, access)
  }

  /** Position i holds the first region that contains the address. */
  ghost predicate IsFirstAt(s: seq<Region>, i: int, mode: Mode, x: Word)
  {
    0 <= i < |s| && Sees(s[i], mode, x) && forall j :: 0 <= j < i ==> !Sees(s[j], mode, x)
  }

  lemma FirstIsFirstAt(s: seq<Region>, mode: Mode, x: Word)
    requires AllAligned(s) && First(s, mode, x) < |s|
    ensures IsFirstAt(s, First(s, mode, x), mode, x)
  {
    forall i | 0 <= i < |s|
      ensures Sees(s[i], mode, x) <==> Matches(s[i], mode, x)
    {
      assert s[i] in s;
      ContainsAligned(s[i], x);
    }
  }

  lemma ConfigureEnforces(s: seq<Region>, pmpCount: nat, granularity: Word, addrBits: nat,
                          before: seq<Entry>, after: seq<Entry>)
    requires AllAligned(s) && (forall r <- s :: IsRegionValid(r))
    requires IsWritten(Programmed(s, pmpCount, Limits(Roundup(granularity), addrBits)), before, after)
    requires forall i :: 0 <= i < |before| ==> before[i].Matching() == OFF
    ensures Enforced(s, pmpCount, granularity, addrBits, after)
  {
    var limits := Limits(Roundup(granularity), addrBits);
    forall mode: Mode, x: Word, access: Access |
      mode != M && (forall i :: IsFirstAt(s, i, mode, x) ==>
        && Protectable(s[i], granularity, addrBits) && |Takers(s, i, granularity, addrBits)| < pmpCount
        && s[i].flags.mmio == access.mmio)
      ensures HwAllows(after, x, access) == Allowed(s, mode, x, access)
    {
      var i := First(s, mode, x);
      if i < |s| {
        FirstIsFirstAt(s, mode, x);
        FitsIff(s[i], granularity, addrBits);
        FittingIsTakers(s, i, granularity, addrBits);
      }
      ConfiguredTableEnforcesDomain(s, pmpCount, limits, before, after, mode, x, access);
    }
  }

  lemma SameByte(n: nat, m: nat)
    requires n < PMP_COUNT && m < PMP_COUNT
    ensures CfgRegister(n) == CfgRegister(m) && n % 8 == m % 8 <==> n == m
  {
  }
}
