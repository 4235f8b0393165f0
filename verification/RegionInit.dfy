/**
  How OpenSBI makes a region from an address range (sbi_domain_memregion_init in
  opensbi/lib/sbi/sbi_domain.c, log2roundup in opensbi/lib/sbi/sbi_math.c).
 */
module RegionInit {
  import opened Basics
  import opened Bits
  import opened Domain

  // ---------------------------------------------------------------------
  // Orders
  // ---------------------------------------------------------------------

  /** The least order whose power of two is not below x. */
  function Roundup(x: Word): (n: nat)
    ensures n <= XLEN && x <= Pow2(n) && forall o: nat :: o < n ==> Pow2(o) < x
  {
    RoundupFrom(x, 0)
  }

  function RoundupFrom(x: Word, n: nat): (k: nat)
    requires n <= XLEN && forall o: nat :: o < n ==> Pow2(o) < x
    ensures k <= XLEN && x <= Pow2(k) && forall o: nat :: o < k ==> Pow2(o) < x
    decreases XLEN - n
  {
    Pow2Xlen();
    if n == XLEN || x <= Pow2(n) then n else RoundupFrom(x, n + 1)
  }

  lemma RoundupIs(x: Word, n: nat)
    requires x <= Pow2(n) && forall o: nat :: o < n ==> Pow2(o) < x
    ensures n == Roundup(x)
  {
  }

  /** log2roundup */
  method Log2Roundup(x: Word) returns (ret: nat)
    ensures ret == Roundup(x)
  {
    ret := 0;
    while ret < XLEN
      invariant ret <= XLEN && forall o: nat :: o < ret ==> Pow2(o) < x
    {
      if x <= Pow2(ret) {
        RoundupIs(x, ret);
        return;
      }
      ret := ret + 1;
    }
    Pow2Xlen();
    RoundupIs(x, ret);
  }

  // ---------------------------------------------------------------------
  // Blocks
  // ---------------------------------------------------------------------

  /** An aligned block of memory. */
  datatype Block = Block(order: nat, base: nat)
  {
    predicate Ok() { order <= XLEN && base % Pow2(order) == 0 }
    predicate Holds(a: nat) { base <= a < base + Pow2(order) }
    /** One past its last byte, not reduced to a machine word. */
    function End(): nat { base + Pow2(order) }
  }

  const ALL_MEMORY := Block(XLEN, 0)

  /** addr + size - 1 on machine words. */
  function RangeEnd(addr: Word, size: Word): Word
  {
    Plus(addr, if size == 0 then WORDS - 1 else size - 1)
  }

  /** The comparison of the loop, whose sum is a machine word: 0 for a block that ends at 2^64. */
  predicate Passes(addr: Word, last: Word, order: nat)
    requires order < XLEN
  {
    Pow2Below(order);
    var base: Word := RoundDown(addr, Pow2(order));
    var end := Plus(base, Pow2(order));
    base <= addr && addr < end && base <= last && last < end
  }

  /** The loop of sbi_domain_memregion_init. */
  function BlockFrom(addr: Word, last: Word, order: nat): Block
    requires order <= XLEN
    decreases XLEN - order
  {
    if order == XLEN then ALL_MEMORY
    else if Passes(addr, last, order) then Block(order, RoundDown(addr, Pow2(order)))
    else BlockFrom(addr, last, order + 1)
  }

  function Memregion(addr: Word, size: Word): Block
  {
    BlockFrom(addr, RangeEnd(addr, size), Roundup(size))
  }

  /** sbi_domain_memregion_init */
  method MemregionInit(addr: Word, size: Word, flags: Flags) returns (reg: Region)
    ensures Block(reg.order, reg.base) == Memregion(addr, size) && reg.flags == flags
  {
    var last := RangeEnd(addr, size);
    var order := Log2Roundup(size);
    var base: Word := 0;
    while order <= XLEN
      invariant order <= XLEN && BlockFrom(addr, last, order) == Memregion(addr, size)
    {
      if order < XLEN {
        base := RoundDown(addr, Pow2(order));
        if Passes(addr, last, order) {
          break;
        }
      } else {
        base := 0;
        break;
      }
      order := order + 1;
    }
    reg := Region(order, base, flags);
  }

  // ---------------------------------------------------------------------
  // What the block is
  // ---------------------------------------------------------------------

  lemma WithinMemory(addr: Word, order: nat)
    requires order < XLEN
    ensures RoundDown(addr, Pow2(order)) + Pow2(order) <= WORDS
  {
    BlockFits(RoundDown(addr, Pow2(order)), order);
  }

  /** A block passes exactly when it holds the last address and does not end at 2^64. */
  lemma PassesIff(addr: Word, last: Word, order: nat)
    requires order < XLEN
    ensures var b := Block(order, RoundDown(addr, Pow2(order)));
            b.Ok() && b.Holds(addr) && (Passes(addr, last, order) <==> b.Holds(last) && b.End() < WORDS)
  {
    WithinMemory(addr, order);
  }

  /** The region holds both ends of the range. */
  lemma {:induction false} BlockHoldsRange(addr: Word, last: Word, order: nat)
    requires order <= XLEN
    ensures var b := BlockFrom(addr, last, order); b.Ok() && b.Holds(addr) && b.Holds(last)
    decreases XLEN - order
  {
    if order == XLEN {
      Pow2Xlen();
    } else {
      PassesIff(addr, last, order);
      if !Passes(addr, last, order) {
        BlockHoldsRange(addr, last, order + 1);
      }
    }
  }

  /** The smallest block that holds two addresses. */
  ghost predicate IsLeast(b: Block, addr: Word, last: Word)
  {
    && b.Ok() && b.Holds(addr) && b.Holds(last)
    && forall c: Block :: c.Ok() && c.Holds(addr) && c.Holds(last) ==> b.order <= c.order
  }

  /** Larger blocks around an address whose block ends at 2^64 end there too. */
  lemma TopStays(addr: Word, o: nat, order: nat)
    requires o <= order < XLEN && RoundDown(addr, Pow2(o)) + Pow2(o) == WORDS
    ensures RoundDown(addr, Pow2(order)) + Pow2(order) == WORDS
  {
    var b, c := RoundDown(addr, Pow2(o)), RoundDown(addr, Pow2(order));
    WithinMemory(addr, order);
    AlignedDown(c, o, order);
    Pow2Divides(o, order);
    SumOfMultiples(c, Pow2(order), Pow2(o));
    BlockBelow(b, Pow2(o), c + Pow2(order));
  }

  /** From a block at the top of memory on, no order passes. */
  lemma {:induction false} NothingPasses(addr: Word, last: Word, o: nat, order: nat)
    requires o <= order <= XLEN && o < XLEN && RoundDown(addr, Pow2(o)) + Pow2(o) == WORDS
    ensures BlockFrom(addr, last, order) == ALL_MEMORY
    decreases XLEN - order
  {
    if order < XLEN {
      TopStays(addr, o, order);
      PassesIff(addr, last, order);
      NothingPasses(addr, last, o, order + 1);
    }
  }

  lemma {:induction false} LeastIsFound(addr: Word, last: Word, order: nat, b: Block)
    requires IsLeast(b, addr, last) && order <= b.order
    ensures BlockFrom(addr, last, order) == if b.End() < WORDS then b else ALL_MEMORY
    decreases XLEN - order
  {
    Pow2Xlen();
    if order < XLEN {
      PassesIff(addr, last, order);
      if order < b.order {
        assert !Passes(addr, last, order) by {
          var c := Block(order, RoundDown(addr, Pow2(order)));
          assert c.Holds(last) ==> b.order <= c.order;
        }
        LeastIsFound(addr, last, order + 1, b);
      } else {
        SameBlock(b.base, RoundDown(addr, Pow2(order)), Pow2(order), addr);
        WithinMemory(addr, order);
        if b.End() == WORDS {
          NothingPasses(addr, last, order, order);
        }
      }
    }
  }

  /** The search never starts above the least block. */
  lemma StartsLow(addr: Word, size: Word, b: Block)
    requires size == 0 || addr + size <= WORDS
    requires b.Ok() && b.Holds(addr) && b.Holds(RangeEnd(addr, size))
    ensures Roundup(size) <= b.order
  {
    assert b.order < Roundup(size) ==> Pow2(b.order) < size;
  }

  /**
    For a range that does not wrap around, the region is the least block that holds
    it if and only if that block ends below 2^64 or is all of memory; otherwise
    the region is all of memory.
   */
  lemma MemregionIsLeastIff(addr: Word, size: Word, b: Block)
    requires size == 0 || addr + size <= WORDS
    requires IsLeast(b, addr, RangeEnd(addr, size))
    ensures Memregion(addr, size) == b <==> b.End() < WORDS || b == ALL_MEMORY
    ensures b.End() >= WORDS ==> Memregion(addr, size) == ALL_MEMORY
  {
    StartsLow(addr, size, b);
    LeastIsFound(addr, RangeEnd(addr, size), Roundup(size), b);
  }

  /** There is such a block. */
  lemma LeastExists(addr: Word, last: Word) returns (b: Block)
    ensures IsLeast(b, addr, last)
  {
    b := LeastFrom(addr, last, 0);
  }

  lemma {:induction false} LeastFrom(addr: Word, last: Word, order: nat) returns (b: Block)
    requires order <= XLEN
    requires forall c: Block :: c.Ok() && c.Holds(addr) && c.Holds(last) ==> order <= c.order
    ensures IsLeast(b, addr, last)
    decreases XLEN - order
  {
    if order == XLEN {
      Pow2Xlen();
      return ALL_MEMORY;
    }
    b := Block(order, RoundDown(addr, Pow2(order)));
    if !b.Holds(last) {
      forall c: Block | c.Ok() && c.Holds(addr) && c.Holds(last)
        ensures order + 1 <= c.order
      {
        if c.order == order {
          SameBlock(b.base, c.base, Pow2(order), addr);
        }
      }
      b := LeastFrom(addr, last, order + 1);
    }
  }

  /** The last page of memory: a block of its own, but the region made for it is all of memory. */
  lemma TopPageTakesAllMemory()
    ensures IsLeast(Block(12, WORDS - 0x1000), WORDS - 0x1000, RangeEnd(WORDS - 0x1000, 0x1000))
    ensures Memregion(WORDS - 0x1000, 0x1000) == ALL_MEMORY
  {
    var b := Block(12, WORDS - 0x1000);
    assert Pow2(8) == 0x100;
    assert Pow2(12) == 0x1000;
    forall c: Block | c.Ok() && c.Holds(WORDS - 0x1000) && c.Holds(WORDS - 1)
      ensures 12 <= c.order
    {
      if c.order < 12 {
        Pow2Monotone(c.order, 12);
      }
    }
    MemregionIsLeastIff(WORDS - 0x1000, 0x1000, b);
  }
}
