/**
  OpenSBI's bit searches over arrays of 64-bit words
  (opensbi/lib/sbi/sbi_bitops.c and opensbi/include/sbi/sbi_bitops.h), against a
  scan of single bits.
 */
module Bitops {
  import opened Basics
  import opened Bits
  import opened Bitwords

  // ---------------------------------------------------------------------
  // The linear scan
  // ---------------------------------------------------------------------

  /** Bit n of the bitmap. */
  predicate Bit(a: seq<Word>, n: nat)
    requires n < XLEN * |a|
  {
    BitAt(a[n / XLEN], n % XLEN)
  }

  /** The first bit with the given value in a range, or the end of the range. */
  function Scan(a: seq<Word>, i: nat, size: nat, value: bool): (r: nat)
    requires i <= size <= XLEN * |a|
    ensures i <= r <= size
    ensures r < size ==> Bit(a, r) == value
    ensures forall j :: i <= j < r ==> Bit(a, j) != value
    decreases size - i
  {
    if i == size || Bit(a, i) == value then i else Scan(a, i + 1, size, value)
  }

  /** No bit of the range has the value. */
  ghost predicate None(a: seq<Word>, i: nat, end: nat, value: bool)
    requires end <= XLEN * |a|
  {
    forall j :: i <= j < end ==> Bit(a, j) != value
  }

  lemma ScanIs(a: seq<Word>, i: nat, size: nat, value: bool, r: nat)
    requires i <= r <= size <= XLEN * |a| && None(a, i, r, value) && (r < size ==> Bit(a, r) == value)
    ensures Scan(a, i, size, value) == r
  {
  }

  lemma WordBit(a: seq<Word>, p: nat, k: nat)
    requires p < |a| && k < XLEN
    ensures Bit(a, XLEN * p + k) == BitAt(a[p], k)
  {
  }

  /** A word that has bit k exactly where the bitmap, from XLEN * p on, has the value, within the limits. */
  ghost predicate Shows(a: seq<Word>, p: nat, tmp: Word, from: nat, to: nat, value: bool)
    requires p < |a| && to <= XLEN
  {
    forall k :: 0 <= k < XLEN ==> BitAt(tmp, k) == (from <= k < to && Bit(a, XLEN * p + k) == value)
  }

  // ---------------------------------------------------------------------
  // Words
  // ---------------------------------------------------------------------

  lemma LowSizes()
    ensures Pow2(1) == 2 && Pow2(2) == 4 && Pow2(4) == 0x10 && Pow2(8) == 0x100 && Pow2(16) == 0x1_0000 &&
            Pow2(32) == 0x1_0000_0000
  {
    assert Pow2(8) == 0x100;
    Pow2Sum(8, 8);
    Pow2Sum(16, 16);
  }

  lemma HighSizes()
    ensures Pow2(48) == 0x1_0000_0000_0000 && Pow2(56) == 0x100_0000_0000_0000 && Pow2(60) == 0x1000_0000_0000_0000
    ensures Pow2(62) == 0x4000_0000_0000_0000 && Pow2(63) == 0x8000_0000_0000_0000
  {
    LowSizes();
    Pow2Sum(32, 16);
    Pow2Sum(48, 8);
    TopSizes();
  }

  lemma TopSizes()
    requires Pow2(56) == 0x100_0000_0000_0000
    ensures Pow2(60) == 0x1000_0000_0000_0000 && Pow2(62) == 0x4000_0000_0000_0000 && Pow2(63) == 0x8000_0000_0000_0000
  {
    assert Pow2(58) == 4 * Pow2(56);
    assert Pow2(60) == 4 * Pow2(58);
    assert Pow2(62) == 4 * Pow2(60);
  }

  /** One step of __ffs: if the low k bits are clear, drop them. `half` is 2^k. */
  method DropLow(word: nat, num: nat, k: nat, half: nat) returns (word': nat, num': nat)
    requires word > 0 && half == Pow2(k) && TrailingZeros(word) < 2 * k
    ensures word' > 0 && TrailingZeros(word') < k && num' + TrailingZeros(word') == num + TrailingZeros(word)
  {
    LowestShift(word, k);
    if word % half == 0 {
      return word / half, num + k;
    }
    return word, num;
  }

  /** __ffs: halve the part of the word in which the lowest set bit must be. */
  method Ffs(w: Word) returns (num: nat)
    requires w > 0
    ensures num == TrailingZeros(w) < XLEN
  {
    var word: nat := w;
    num := 0;
    Pow2Xlen();
    LowestShift(word, XLEN);
    LowSizes();
    word, num := DropLow(word, num, 32, 0x1_0000_0000);
    word, num := DropLow(word, num, 16, 0x1_0000);
    word, num := DropLow(word, num, 8, 0x100);
    word, num := DropLow(word, num, 4, 0x10);
    word, num := DropLow(word, num, 2, 4);
    word, num := DropLow(word, num, 1, 2);
  }

  /**
    One step of __fls: if the k bits from XLEN - k on are clear, shift them out.
    `top` is 2^(XLEN - k), `factor` is 2^k.
   */
  method DropHigh(word: Word, num: int, k: nat, top: nat, factor: nat) returns (word': Word, num': int)
    requires word > 0 && k < XLEN && top == Pow2(XLEN - k) && factor == Pow2(k) && XLEN <= Highest(word) + 2 * k
    ensures word' > 0 && XLEN <= Highest(word') + k && num' + Highest(word') == num + Highest(word)
  {
    HighestBound(word, XLEN - k);
    if word < top {
      HighestShift(word, k);
      HighestBound(word * factor, XLEN);
      Pow2Xlen();
      return word * factor, num - k;
    }
    return word, num;
  }

  /** __fls: shift out the part of the word in which no set bit can be. */
  method Fls(w: Word) returns (num: nat)
    requires w > 0
    ensures num == Highest(w) < XLEN
  {
    var word, n := w, 63;
    LowSizes();
    HighSizes();
    word, n := DropHigh(word, n, 32, 0x1_0000_0000, 0x1_0000_0000);
    word, n := DropHigh(word, n, 16, 0x1_0000_0000_0000, 0x1_0000);
    word, n := DropHigh(word, n, 8, 0x100_0000_0000_0000, 0x100);
    word, n := DropHigh(word, n, 4, 0x1000_0000_0000_0000, 0x10);
    word, n := DropHigh(word, n, 2, 0x4000_0000_0000_0000, 4);
    word, n := DropHigh(word, n, 1, 0x8000_0000_0000_0000, 2);
    HighestIsSmall(word);
    HighestIsSmall(w);
    num := n;
  }

  lemma HighestIsSmall(w: Word)
    requires w > 0
    ensures Highest(w) < XLEN
  {
    Pow2Xlen();
    HighestBound(w, XLEN);
  }

  // ---------------------------------------------------------------------
  // Searches for a set bit
  // ---------------------------------------------------------------------

  /** A word that shows a range of the bitmap answers the search in that range. */
  lemma FoundInWord(a: seq<Word>, p: nat, tmp: Word, from: nat, to: nat, value: bool, i: nat)
    requires p < |a| && from <= to <= XLEN && Shows(a, p, tmp, from, to, value) && tmp > 0
    requires i <= XLEN * p + from && None(a, i, XLEN * p + from, value)
    ensures TrailingZeros(tmp) < XLEN
    ensures var r := XLEN * p + TrailingZeros(tmp);
            from <= TrailingZeros(tmp) < to && Bit(a, r) == value && None(a, i, r, value)
  {
    var t := TrailingZeros(tmp);
    Pow2Xlen();
    LowestShift(tmp, XLEN);
    LowestBits(tmp, 0);
    forall j | i <= j < XLEN * p + t
      ensures Bit(a, j) != value
    {
      if XLEN * p + from <= j {
        var k := j - XLEN * p;
        LowestBits(tmp, k);
      }
    }
  }

  lemma NotInWord(a: seq<Word>, p: nat, from: nat, to: nat, value: bool, i: nat)
    requires p < |a| && from <= to <= XLEN && Shows(a, p, 0, from, to, value)
    requires i <= XLEN * p + from && None(a, i, XLEN * p + from, value)
    ensures None(a, i, XLEN * p + to, value)
  {
    forall j | i <= j < XLEN * p + to
      ensures Bit(a, j) != value
    {
      if XLEN * p + from <= j {
        ZeroBits(j - XLEN * p);
      }
    }
  }

  lemma WholeWordShows(a: seq<Word>, p: nat)
    requires p < |a|
    ensures Shows(a, p, a[p], 0, XLEN, true)
    ensures Shows(a, p, Not(a[p]), 0, XLEN, false)
  {
    forall k | 0 <= k < XLEN
      ensures BitAt(a[p], k) == Bit(a, XLEN * p + k) && BitAt(Not(a[p]), k) == !Bit(a, XLEN * p + k)
    {
      WordBit(a, p, k);
      NotBits(a[p], k);
    }
  }

  lemma LowPartShows(a: seq<Word>, p: nat, tmp: Word, from: nat, to: nat, value: bool)
    requires p < |a| && to < XLEN && Shows(a, p, tmp, from, XLEN, value)
    ensures Shows(a, p, AndWord(tmp, LowMask(to)), from, to, value)
  {
    forall k | 0 <= k < XLEN
      ensures BitAt(AndWord(tmp, LowMask(to)), k) == (BitAt(tmp, k) && k < to)
    {
      AndBits(tmp, LowMask(to), k);
      LowMaskBits(to, k);
    }
  }

  lemma HighPartShows(a: seq<Word>, p: nat, from: nat)
    requires p < |a| && from < XLEN
    ensures Shows(a, p, AndWord(a[p], HighMask(from)), from, XLEN, true)
  {
    forall k | 0 <= k < XLEN
      ensures BitAt(AndWord(a[p], HighMask(from)), k) == (from <= k && Bit(a, XLEN * p + k))
    {
      WordBit(a, p, k);
      AndBits(a[p], HighMask(from), k);
      HighMaskBits(from, k);
    }
  }

  /**
    The part shared by both searches from the label found_first on: only the low
    `size` bits of the last word count.
   */
  method FoundFirst(a: seq<Word>, p: nat, tmp: Word, from: nat, size: nat, ghost i: nat) returns (r: nat)
    requires p < |a| && from <= size && 0 < size < XLEN && Shows(a, p, tmp, from, XLEN, true)
    requires i <= XLEN * p + from && None(a, i, XLEN * p + from, true)
    ensures XLEN * p <= r <= XLEN * p + size && r == Scan(a, i, XLEN * p + size, true)
  {
    var low := AndWord(tmp, LowMask(size));
    LowPartShows(a, p, tmp, from, size, true);
    if low == 0 {
      NotInWord(a, p, from, size, true, i);
      ScanIs(a, i, XLEN * p + size, true, XLEN * p + size);
      return XLEN * p + size;
    }
    FoundInWord(a, p, low, from, size, true, i);
    ScanIs(a, i, XLEN * p + size, true, XLEN * p + TrailingZeros(low));
    var t := Ffs(low);
    return XLEN * p + t;
  }

  /** The word loop of both searches, from word p0 on. */
  method WordLoop(a: seq<Word>, p0: nat, size0: nat, ghost i: nat) returns (r: nat)
    requires i <= XLEN * p0 && XLEN * p0 + size0 <= XLEN * |a| && None(a, i, XLEN * p0, true)
    ensures r == Scan(a, i, XLEN * p0 + size0, true)
  {
    var p: nat, size: nat := p0, size0;
    while size >= XLEN
      invariant p0 <= p && XLEN * p + size == XLEN * p0 + size0 && None(a, i, XLEN * p, true)
      decreases size
    {
      var tmp := a[p];
      WholeWordShows(a, p);
      if tmp != 0 {
        FoundInWord(a, p, tmp, 0, XLEN, true, i);
        ScanIs(a, i, XLEN * p + size, true, XLEN * p + TrailingZeros(tmp));
        var t := Ffs(tmp);
        return XLEN * p + t;
      }
      NotInWord(a, p, 0, XLEN, true, i);
      p, size := p + 1, size - XLEN;
    }
    if size == 0 {
      ScanIs(a, i, XLEN * p, true, XLEN * p);
      return XLEN * p;
    }
    WholeWordShows(a, p);
    r := FoundFirst(a, p, a[p], 0, size, i);
  }

  /** find_first_bit */
  method FindFirstBit(a: seq<Word>, size: nat) returns (r: nat)
    requires size <= XLEN * |a|
    ensures r == Scan(a, 0, size, true)
  {
    r := WordLoop(a, 0, size, 0);
  }

  /** find_next_bit */
  method FindNextBit(a: seq<Word>, size: nat, offset: nat) returns (r: nat)
    requires size <= XLEN * |a|
    ensures r == if offset >= size then size else Scan(a, offset, size, true)
  {
    if offset >= size {
      return size;
    }
    var p, from := offset / XLEN, offset % XLEN;
    var left := size - XLEN * p;
    if from != 0 {
      var tmp := AndWord(a[p], HighMask(from));
      HighPartShows(a, p, from);
      if left < XLEN {
        r := FoundFirst(a, p, tmp, from, left, offset);
        return;
      }
      if tmp != 0 {
        FoundInWord(a, p, tmp, from, XLEN, true, offset);
        ScanIs(a, offset, size, true, XLEN * p + TrailingZeros(tmp));
        var t := Ffs(tmp);
        return XLEN * p + t;
      }
      NotInWord(a, p, from, XLEN, true, offset);
      p, left := p + 1, left - XLEN;
    }
    r := WordLoop(a, p, left, offset);
  }

  // ---------------------------------------------------------------------
  // Searches for a clear bit
  // ---------------------------------------------------------------------

  lemma LowPartShowsZero(a: seq<Word>, p: nat, tmp: Word, from: nat, to: nat)
    requires p < |a| && to < XLEN && Shows(a, p, Not(tmp), from, XLEN, false)
    ensures Shows(a, p, Not(OrWord(tmp, HighMask(to))), from, to, false)
  {
    forall k | 0 <= k < XLEN
      ensures BitAt(Not(OrWord(tmp, HighMask(to))), k) == (BitAt(Not(tmp), k) && k < to)
    {
      NotBits(OrWord(tmp, HighMask(to)), k);
      NotBits(tmp, k);
      OrBits(tmp, HighMask(to), k);
      HighMaskBits(to, k);
    }
  }

  lemma HighPartShowsZero(a: seq<Word>, p: nat, from: nat)
    requires p < |a| && from < XLEN
    ensures Shows(a, p, Not(OrWord(a[p], LowMask(from))), from, XLEN, false)
  {
    forall k | 0 <= k < XLEN
      ensures BitAt(Not(OrWord(a[p], LowMask(from))), k) == (from <= k && !Bit(a, XLEN * p + k))
    {
      WordBit(a, p, k);
      NotBits(OrWord(a[p], LowMask(from)), k);
      OrBits(a[p], LowMask(from), k);
      LowMaskBits(from, k);
    }
  }

  /** From the label found_first on: bits from `size` on are made ones. */
  method FoundFirstZero(a: seq<Word>, p: nat, tmp: Word, from: nat, size: nat, ghost i: nat) returns (r: nat)
    requires p < |a| && from <= size && 0 < size < XLEN && Shows(a, p, Not(tmp), from, XLEN, false)
    requires i <= XLEN * p + from && None(a, i, XLEN * p + from, false)
    ensures XLEN * p <= r <= XLEN * p + size && r == Scan(a, i, XLEN * p + size, false)
  {
    var high := OrWord(tmp, HighMask(size));
    LowPartShowsZero(a, p, tmp, from, size);
    if high == WORDS - 1 {
      NotInWord(a, p, from, size, false, i);
      ScanIs(a, i, XLEN * p + size, false, XLEN * p + size);
      return XLEN * p + size;
    }
    FoundInWord(a, p, Not(high), from, size, false, i);
    ScanIs(a, i, XLEN * p + size, false, XLEN * p + TrailingZeros(Not(high)));
    var t := Ffs(Not(high));
    return XLEN * p + t;
  }

  method WordLoopZero(a: seq<Word>, p0: nat, size0: nat, ghost i: nat) returns (r: nat)
    requires i <= XLEN * p0 && XLEN * p0 + size0 <= XLEN * |a| && None(a, i, XLEN * p0, false)
    ensures r == Scan(a, i, XLEN * p0 + size0, false)
  {
    var p: nat, size: nat := p0, size0;
    while size >= XLEN
      invariant p0 <= p && XLEN * p + size == XLEN * p0 + size0 && None(a, i, XLEN * p, false)
      decreases size
    {
      var tmp := a[p];
      WholeWordShows(a, p);
      if Not(tmp) != 0 {
        FoundInWord(a, p, Not(tmp), 0, XLEN, false, i);
        ScanIs(a, i, XLEN * p + size, false, XLEN * p + TrailingZeros(Not(tmp)));
        var t := Ffs(Not(tmp));
        return XLEN * p + t;
      }
      NotInWord(a, p, 0, XLEN, false, i);
      p, size := p + 1, size - XLEN;
    }
    if size == 0 {
      ScanIs(a, i, XLEN * p, false, XLEN * p);
      return XLEN * p;
    }
    WholeWordShows(a, p);
    r := FoundFirstZero(a, p, a[p], 0, size, i);
  }

  /** find_first_zero_bit */
  method FindFirstZeroBit(a: seq<Word>, size: nat) returns (r: nat)
    requires size <= XLEN * |a|
    ensures r == Scan(a, 0, size, false)
  {
    r := WordLoopZero(a, 0, size, 0);
  }

  /** find_next_zero_bit */
  method FindNextZeroBit(a: seq<Word>, size: nat, offset: nat) returns (r: nat)
    requires size <= XLEN * |a|
    ensures r == if offset >= size then size else Scan(a, offset, size, false)
  {
    if offset >= size {
      return size;
    }
    var p, from := offset / XLEN, offset % XLEN;
    var left := size - XLEN * p;
    if from != 0 {
      var tmp := OrWord(a[p], LowMask(from));
      HighPartShowsZero(a, p, from);
      if left < XLEN {
        r := FoundFirstZero(a, p, tmp, from, left, offset);
        return;
      }
      if Not(tmp) != 0 {
        FoundInWord(a, p, Not(tmp), from, XLEN, false, offset);
        ScanIs(a, offset, size, false, XLEN * p + TrailingZeros(Not(tmp)));
        var t := Ffs(Not(tmp));
        return XLEN * p + t;
      }
      NotInWord(a, p, from, XLEN, false, offset);
      p, left := p + 1, left - XLEN;
    }
    r := WordLoopZero(a, p, left, offset);
  }

  // ---------------------------------------------------------------------
  // The last set bit, and visiting all
  // ---------------------------------------------------------------------

  lemma LastInWord(a: seq<Word>, p: nat, tmp: Word, to: nat, size: nat)
    requires p < |a| && to <= XLEN && Shows(a, p, tmp, 0, to, true) && tmp > 0
    requires XLEN * p + to <= size <= XLEN * |a| && None(a, XLEN * p + to, size, true)
    ensures Highest(tmp) < to && Bit(a, XLEN * p + Highest(tmp)) && None(a, XLEN * p + Highest(tmp) + 1, size, true)
  {
    var t := Highest(tmp);
    HighestIsSmall(tmp);
    HighestBits(tmp, 0);
    forall j | XLEN * p + t < j < size
      ensures !Bit(a, j)
    {
      if j < XLEN * p + to {
        HighestBits(tmp, j - XLEN * p);
      }
    }
  }

  /** find_last_bit: the last set bit below size, or size. */
  method FindLastBit(a: seq<Word>, size: nat) returns (r: nat)
    requires size <= XLEN * |a|
    ensures r <= size && (r < size ==> Bit(a, r) && None(a, r + 1, size, true))
    ensures r == size ==> None(a, 0, size, true)
  {
    var words: nat := size / XLEN;
    if size % XLEN != 0 {
      var tmp := AndWord(a[words], LowMask(size % XLEN));
      WholeWordShows(a, words);
      LowPartShows(a, words, a[words], 0, size % XLEN, true);
      if tmp != 0 {
        LastInWord(a, words, tmp, size % XLEN, size);
        var t := Fls(tmp);
        return words * XLEN + t;
      }
      NotInWord(a, words, 0, size % XLEN, true, XLEN * words);
    }
    while words > 0
      invariant words * XLEN <= size && None(a, XLEN * words, size, true)
    {
      words := words - 1;
      var tmp := a[words];
      WholeWordShows(a, words);
      if tmp != 0 {
        LastInWord(a, words, tmp, XLEN, size);
        var t := Fls(tmp);
        return words * XLEN + t;
      }
      NotInWord(a, words, 0, XLEN, true, XLEN * words);
    }
    return size;
  }

  /** for_each_set_bit: visits each set bit below size once, in increasing order. */
  method ForEachSetBit(a: seq<Word>, size: nat) returns (visited: seq<nat>)
    requires size <= XLEN * |a|
    ensures forall i, j :: 0 <= i < j < |visited| ==> visited[i] < visited[j]
    ensures forall b: nat :: b in visited <==> b < size && Bit(a, b)
  {
    visited := [];
    var bit := FindFirstBit(a, size);
    while bit < size
      invariant bit <= size && (bit < size ==> Bit(a, bit))
      invariant forall i :: 0 <= i < |visited| ==> visited[i] < bit
      invariant forall i, j :: 0 <= i < j < |visited| ==> visited[i] < visited[j]
      invariant forall b: nat :: b in visited <==> b < bit && Bit(a, b)
      decreases size - bit
    {
      visited := visited + [bit];
      bit := FindNextBit(a, size, bit + 1);
    }
  }
}
