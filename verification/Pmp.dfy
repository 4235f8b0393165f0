/**
  Physical memory protection on a 64-bit hart: the entry encoding of pmp_set and
  pmp_get (opensbi/lib/sbi/riscv_asm.c), the table that sbi_hart_pmp_configure
  writes (opensbi/lib/sbi/sbi_hart.c), and what the hardware makes of it (section
  3.7.1 of the RISC-V Privileged Architecture v20211203).
 */
module Pmp {
  import opened Basics
  import opened Bits

  const PMP_COUNT := 64
  const PMP_SHIFT := 2

  const OFF := 0
  const TOR := 1
  const NA4 := 2
  const NAPOT := 3

  /** One PMP entry: its configuration byte and its address register. */
  datatype Entry = Entry(cfg: nat, addr: Word)
  {
    function Matching(): nat { cfg / 8 % 4 }
    predicate Readable() { cfg % 2 == 1 }
    predicate Writeable() { cfg / 2 % 2 == 1 }
    predicate Executable() { cfg / 4 % 2 == 1 }
    predicate Locked() { cfg / 128 % 2 == 1 }
  }

  datatype Details = Details(prot: nat, addr: Word, log2len: nat)

  // ---------------------------------------------------------------------
  // Bytes of a configuration register
  // ---------------------------------------------------------------------

  function Byte(w: nat, k: nat): (b: nat)
    ensures b < 256
  {
    w / Pow2(8 * k) % 256
  }

  /** The word with byte k replaced. */
  function SetByte(w: nat, k: nat, b: nat): nat
  {
    RoundDown(w, Pow2(8 * k + 8)) + b * Pow2(8 * k) + w % Pow2(8 * k)
  }

  lemma DivDiv(x: nat, c: nat, d: nat)
    requires c > 0 && d > 0
    ensures c * d > 0 && x / c / d == x / (c * d)
  {
    var q := x / c / d;
    var r := x / c % d;
    assert x / c == q * d + r;
    assert x == (q * d + r) * c + x % c;
    assert (q * d + r) * c == q * (c * d) + r * c;
    MultiplesApart(c, r, d);
    Quotient(x, c * d, q, r * c + x % c);
  }

  /** A word split at byte k: what is above, the byte, and what is below. */
  lemma Split(w: nat, k: nat, hi: nat, b: nat, lo: nat)
    requires b < 256 && lo < Pow2(8 * k) && w == hi * Pow2(8 * k + 8) + b * Pow2(8 * k) + lo
    ensures Byte(w, k) == b && w / Pow2(8 * k + 8) == hi && w % Pow2(8 * k) == lo
  {
    var p := Pow2(8 * k);
    BytePower(8 * k);
    Product3(hi, 256, p);
    assert w == (hi * 256 + b) * p + lo;
    Quotient(w, p, hi * 256 + b, lo);
    Quotient(hi * 256 + b, 256, hi, b);
    DivDiv(w, p, 256);
  }

  lemma SetByteSplit(w: nat, k: nat, b: nat)
    requires b < 256
    ensures Byte(SetByte(w, k, b), k) == b
    ensures SetByte(w, k, b) / Pow2(8 * k + 8) == w / Pow2(8 * k + 8)
    ensures SetByte(w, k, b) % Pow2(8 * k) == w % Pow2(8 * k)
  {
    Split(SetByte(w, k, b), k, w / Pow2(8 * k + 8), b, w % Pow2(8 * k));
  }

  lemma ByteAbove(w: nat, v: nat, k: nat, j: nat)
    requires k < j && w / Pow2(8 * k + 8) == v / Pow2(8 * k + 8)
    ensures Byte(w, j) == Byte(v, j)
  {
    Pow2Sum(8 * k + 8, 8 * (j - k - 1));
    assert 8 * k + 8 + 8 * (j - k - 1) == 8 * j;
    DivDiv(w, Pow2(8 * k + 8), Pow2(8 * (j - k - 1)));
    DivDiv(v, Pow2(8 * k + 8), Pow2(8 * (j - k - 1)));
  }

  lemma LowBits(m: nat, s: nat, lo: nat)
    requires s > 0
    ensures (m * (256 * s) + lo) / s % 256 == lo / s % 256
  {
    var u, r := lo / s, lo % s;
    Distribute(m, 256, u, s);
    assert m * (256 * s) + lo == (m * 256 + u) * s + r;
    Quotient(m * (256 * s) + lo, s, m * 256 + u, r);
    ModByte(m, u);
  }

  lemma ModByte(m: nat, u: nat)
    ensures (m * 256 + u) % 256 == u % 256
  {
  }

  /** The low part of a word decides the bytes below it. */
  lemma ByteBelow(w: nat, k: nat, j: nat)
    requires j < k
    ensures Byte(w % Pow2(8 * k), j) == Byte(w, j)
  {
    SizeBelow(k, j);
    BytePower(8 * j);
    LowBitsOf(w, Pow2(8 * k), Pow2(8 * (k - j - 1)), Pow2(8 * j + 8), Pow2(8 * j));
  }

  lemma LowBitsOf(w: nat, p: nat, d: nat, u: nat, s: nat)
    requires s > 0 && p > 0 && p == d * u && u == 256 * s
    ensures w % p / s % 256 == w / s % 256
  {
    var q := w / p;
    assert w == q * p + w % p;
    Product3(q, d, u);
    LowBits(q * d, s, w % p);
  }

  lemma SizeBelow(k: nat, j: nat)
    requires j < k
    ensures Pow2(8 * k) == Pow2(8 * (k - j - 1)) * Pow2(8 * j + 8)
  {
    var a, b := 8 * (k - j - 1), 8 * j + 8;
    Pow2Sum(a, b);
    assert a + b == 8 * k;
  }

  lemma BytePower(n: nat)
    ensures Pow2(n + 8) == 256 * Pow2(n)
  {
    assert Pow2(n + 8) == 4 * Pow2(n + 6);
    assert Pow2(n + 6) == 4 * Pow2(n + 4);
    assert Pow2(n + 4) == 4 * Pow2(n + 2);
    assert Pow2(n + 2) == 4 * Pow2(n);
  }

  lemma Distribute(a: nat, b: nat, c: nat, d: nat)
    ensures (a * b + c) * d == a * (b * d) + c * d
  {
    Product3(a, b, d);
  }

  /** Replacing a byte changes that byte and no other. */
  lemma SetByteAt(w: nat, k: nat, b: nat, j: nat)
    requires b < 256
    ensures Byte(SetByte(w, k, b), j) == if j == k then b else Byte(w, j)
  {
    SetByteSplit(w, k, b);
    if k < j {
      ByteAbove(SetByte(w, k, b), w, k, j);
    } else if j < k {
      ByteBelow(SetByte(w, k, b), k, j);
      ByteBelow(w, k, j);
    }
  }

  // ---------------------------------------------------------------------
  // The entry encoding
  // ---------------------------------------------------------------------

  /** The configuration byte: the matching mode replaced, bits above the byte dropped. */
  function EncodeCfg(prot: Word, mode: nat): (b: nat)
    requires mode < 4
    ensures b < 256 && b / 8 % 4 == mode && b % 8 == prot % 8 && b / 32 == prot / 32 % 8
  {
    prot / 32 % 8 * 32 + mode * 8 + prot % 8
  }

  /** The address register for a block. */
  function EncodeAddr(a: Word, log2len: nat): Word
    requires PMP_SHIFT <= log2len <= XLEN
  {
    if log2len == PMP_SHIFT then a / 4
    else if log2len == XLEN then WORDS - 1
    else
      NapotForm(a, log2len);
      RoundDown(a / 4, Pow2(log2len - PMP_SHIFT)) + (Pow2(log2len - PMP_SHIFT) - 1) / 2
  }

  function Encode(prot: Word, a: Word, log2len: nat): Entry
    requires PMP_SHIFT <= log2len <= XLEN
  {
    Entry(EncodeCfg(prot, if log2len == PMP_SHIFT then NA4 else NAPOT), EncodeAddr(a, log2len))
  }

  function DecodeBlock(e: Entry): (Word, nat)
  {
    if e.Matching() == NAPOT then
      if e.addr == WORDS - 1 then (0, XLEN)
      else
        var t1 := TrailingZeros(WORDS - 1 - e.addr);
        (RoundDown(e.addr, Pow2(t1)) * 4 % WORDS, t1 + PMP_SHIFT + 1)
    else
      (e.addr * 4 % WORDS, PMP_SHIFT)
  }

  function Decode(e: Entry): Details
  {
    Details(e.cfg, DecodeBlock(e).0, DecodeBlock(e).1)
  }

  lemma Sizes(log2len: nat)
    requires PMP_SHIFT < log2len < XLEN
    ensures Pow2(log2len - PMP_SHIFT) == 2 * Pow2(log2len - 3)
    ensures Pow2(log2len) == 8 * Pow2(log2len - 3) && 16 * Pow2(log2len - 3) <= WORDS
  {
    assert Pow2(log2len - 1) == 4 * Pow2(log2len - 3);
    Pow2Below(log2len);
  }

  lemma NapotNumber(a: Word, d: nat)
    requires d > 0
    ensures RoundDown(a / 4, 2 * d) + (2 * d - 1) / 2 == (2 * (a / (8 * d))) * d + (d - 1)
  {
    DivDiv(a, 4, 2 * d);
    var q := a / (8 * d);
    assert RoundDown(a / 4, 2 * d) == q * (2 * d);
    Product3(q, 2, d);
  }

  lemma NapotBound(a: Word, q: nat, d: nat)
    requires q * (8 * d) <= a && 16 * d <= WORDS
    ensures (2 * q) * d + d <= WORDS / 2
  {
    var e := q * d;
    Scaled(q, 8, d);
    Product3(2, q, d);
    TwoBlocks(a, e, d);
  }

  lemma Scaled(q: nat, k: nat, d: nat)
    ensures q * (k * d) == k * (q * d)
  {
    Product3(q, k, d);
    Product3(k, q, d);
  }

  lemma WholeBlocks(a: nat, d: nat)
    requires d > 0
    ensures a / d * d <= a
  {
  }

  lemma TwoBlocks(a: Word, e: nat, d: nat)
    requires 8 * e <= a && 16 * d <= WORDS
    ensures 2 * e + d <= WORDS / 2
  {
  }

  /** The address register of a NAPOT block: the number of the block, a zero, and ones. */
  lemma NapotForm(a: Word, log2len: nat)
    requires PMP_SHIFT < log2len < XLEN
    ensures var d := Pow2(log2len - 3);
            && RoundDown(a / 4, Pow2(log2len - PMP_SHIFT)) + (Pow2(log2len - PMP_SHIFT) - 1) / 2
               == (2 * (a / Pow2(log2len))) * d + (d - 1)
            && (2 * (a / Pow2(log2len))) * d + d <= WORDS / 2
  {
    Sizes(log2len);
    NapotNumber(a, Pow2(log2len - 3));
    WholeBlocks(a, Pow2(log2len));
    NapotBound(a, a / Pow2(log2len), Pow2(log2len - 3));
  }

  lemma {:induction false} TrailingZerosOf(t: nat, odd: nat)
    requires odd % 2 == 1
    ensures odd * Pow2(t) > 0 && TrailingZeros(odd * Pow2(t)) == t
  {
    if t > 0 {
      TrailingZerosOf(t - 1, odd);
      Doubled(odd, Pow2(t - 1));
      TrailingZerosDoubled(odd * Pow2(t - 1));
    }
  }

  lemma Doubled(x: nat, y: nat)
    ensures x * (2 * y) == 2 * (x * y)
  {
  }

  lemma TrailingZerosDoubled(x: nat)
    requires x > 0
    ensures TrailingZeros(2 * x) == TrailingZeros(x) + 1
  {
  }

  lemma DecodeLength(q: nat, t: nat)
    requires t + 3 < XLEN && (2 * q) * Pow2(t) + Pow2(t) <= WORDS / 2
    ensures WORDS - ((2 * q) * Pow2(t) + Pow2(t)) > 0 && TrailingZeros(WORDS - ((2 * q) * Pow2(t) + Pow2(t))) == t
  {
    MemMultiple(t);
    var n, d := Pow2(XLEN - t), Pow2(t);
    OddRest(n, q, d);
    assert (n - 2 * q - 1) * d == WORDS - ((2 * q) * d + d);
    TrailingZerosOf(t, n - 2 * q - 1);
  }

  lemma MemMultiple(t: nat)
    requires t < XLEN
    ensures Pow2(XLEN - t) * Pow2(t) == WORDS && Pow2(XLEN - t) % 2 == 0
  {
    Pow2Xlen();
    Pow2Sum(XLEN - t, t);
    Even(XLEN - t);
  }

  lemma Even(n: nat)
    requires n > 0
    ensures Pow2(n) % 2 == 0
  {
  }

  lemma DecodeBase(q: nat, d: nat, addr: nat)
    requires d > 0 && addr == (2 * q) * d + (d - 1) && q * (8 * d) < WORDS
    ensures RoundDown(addr, d) * 4 % WORDS == q * (8 * d)
  {
    Quotient(addr, d, 2 * q, d - 1);
    Product3(2, q, d);
    Product3(8, q, d);
    Product3(q, 8, d);
    assert RoundDown(addr, d) * 4 == q * (8 * d);
    Quotient(q * (8 * d), WORDS, 0, q * (8 * d));
  }

  /** Decoding q, a zero and ones: the count of ones gives the size, the rest the base. */
  lemma DecodeNapot(q: nat, t: nat, addr: Word)
    requires t + 3 < XLEN && addr == (2 * q) * Pow2(t) + (Pow2(t) - 1) && (2 * q) * Pow2(t) + Pow2(t) <= WORDS / 2
    requires q * Pow2(t + 3) < WORDS
    ensures addr < WORDS - 1 && TrailingZeros(WORDS - 1 - addr) == t
    ensures RoundDown(addr, Pow2(t)) * 4 % WORDS == q * Pow2(t + 3)
  {
    DecodeLength(q, t);
    Sizes(t + 3);
    DecodeBase(q, Pow2(t), addr);
  }

  lemma OddRest(n: nat, q: nat, d: nat)
    requires d > 0 && n % 2 == 0 && (2 * q) * d + d <= n * d
    ensures 2 * q + 1 <= n && (n - 2 * q - 1) % 2 == 1 && (n - 2 * q - 1) * d == n * d - ((2 * q) * d + d)
  {
    MultiplesApart(d, n, 2 * q + 1);
    assert (n - 2 * q - 1) * d == n * d - (2 * q) * d - d;
  }

  /** The block comes back, with its base rounded down to a multiple of its size. */
  lemma BlockRoundTrip(prot: Word, a: Word, log2len: nat)
    requires PMP_SHIFT <= log2len <= XLEN
    ensures DecodeBlock(Encode(prot, a, log2len)) == (RoundDown(a, Pow2(log2len)), log2len)
  {
    if log2len == PMP_SHIFT {
      SmallBlock(a);
    } else if log2len == XLEN {
      WholeBlock(a);
    } else {
      NapotBlock(prot, a, log2len);
    }
  }

  /** The address register holds the number of a block at `base`, a zero and t ones. */
  ghost predicate IsNapot(addr: Word, q: nat, t: nat, base: Word)
  {
    && t + 3 < XLEN && addr == (2 * q) * Pow2(t) + (Pow2(t) - 1) && (2 * q) * Pow2(t) + Pow2(t) <= WORDS / 2
    && base == q * Pow2(t + 3)
  }

  /** Such an entry decodes to that block. */
  lemma NapotDecodes(cfg: nat, addr: Word, q: nat, t: nat, base: Word)
    requires cfg / 8 % 4 == NAPOT && IsNapot(addr, q, t, base)
    ensures DecodeBlock(Entry(cfg, addr)) == (base, t + 3)
  {
    DecodeNapot(q, t, addr);
    DecodesTo(cfg, addr, t, base);
  }

  lemma DecodesTo(cfg: nat, addr: Word, t: nat, base: Word)
    requires cfg / 8 % 4 == NAPOT && addr < WORDS - 1 && TrailingZeros(WORDS - 1 - addr) == t
    requires RoundDown(addr, Pow2(t)) * 4 % WORDS == base
    ensures DecodeBlock(Entry(cfg, addr)) == (base, t + 3)
  {
  }

  lemma SmallBlock(a: Word)
    ensures a / 4 * 4 % WORDS == RoundDown(a, Pow2(PMP_SHIFT))
  {
    assert Pow2(PMP_SHIFT) == 4;
  }

  lemma WholeBlock(a: Word)
    ensures RoundDown(a, Pow2(XLEN)) == 0
  {
    Pow2Xlen();
  }

  lemma NapotBlock(prot: Word, a: Word, log2len: nat)
    requires PMP_SHIFT < log2len < XLEN
    ensures DecodeBlock(Encode(prot, a, log2len)) == (RoundDown(a, Pow2(log2len)), log2len)
  {
    var q := AddrForm(a, log2len);
    NapotDecodes(EncodeCfg(prot, NAPOT), EncodeAddr(a, log2len), q, log2len - 3, RoundDown(a, Pow2(log2len)));
  }

  lemma AddrForm(a: Word, log2len: nat) returns (q: nat)
    requires PMP_SHIFT < log2len < XLEN
    ensures IsNapot(EncodeAddr(a, log2len), q, log2len - 3, RoundDown(a, Pow2(log2len)))
  {
    q := a / Pow2(log2len);
    NapotForm(a, log2len);
  }

  /**
    pmp_get undoes pmp_set: the length and the permission and lock bits come back,
    and the address rounded down to a multiple of the length, so the same address
    if and only if it was aligned.
   */
  lemma RoundTrip(prot: Word, a: Word, log2len: nat)
    requires PMP_SHIFT <= log2len <= XLEN
    ensures var e, d := Encode(prot, a, log2len), Decode(Encode(prot, a, log2len));
            && d.log2len == log2len
            && (d.addr == a <==> a % Pow2(log2len) == 0)
            && d.prot % 8 == prot % 8 && d.prot / 128 % 2 == prot / 128 % 2
  {
    BlockRoundTrip(prot, a, log2len);
    TopBit(Encode(prot, a, log2len).cfg, prot);
    RoundDownExact(a, Pow2(log2len));
  }

  lemma TopBit(b: nat, prot: nat)
    requires b / 32 == prot / 32 % 8
    ensures b / 128 % 2 == prot / 128 % 2
  {
    assert b / 128 == b / 32 / 4;
    assert prot / 128 == prot / 32 / 4;
    var h := prot / 32;
    assert h % 8 / 4 % 2 == h / 4 % 2;
  }

  lemma RoundDownExact(x: nat, d: nat)
    requires d > 0
    ensures RoundDown(x, d) == x <==> x % d == 0
  {
    if x % d == 0 {
      SameBlock(RoundDown(x, d), x, d, x);
    }
  }
}
