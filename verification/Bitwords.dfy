/**
  Bits of machine words: masks, shifts and complement by what they do to each bit,
  and the search for the lowest and highest set bit by halving
  (opensbi/include/sbi/sbi_bitops.h).
 */
module Bitwords {
  import opened Basics
  import opened Bits

  /** Bit i of w. */
  predicate BitAt(w: nat, i: nat)
  {
    if i == 0 then w % 2 == 1 else BitAt(w / 2, i - 1)
  }

  function And(x: nat, y: nat): nat
  {
    if x == 0 then 0 else 2 * And(x / 2, y / 2) + (x % 2) * (y % 2)
  }

  function Or(x: nat, y: nat): nat
    decreases x + y
  {
    if x == 0 && y == 0 then 0 else 2 * Or(x / 2, y / 2) + (if x % 2 + y % 2 > 0 then 1 else 0)
  }

  function Not(x: Word): Word
  {
    WORDS - 1 - x
  }

  /** ~0UL >> (XLEN - n) */
  function LowMask(n: nat): Word
    requires n < XLEN
  {
    Pow2Below(n);
    Pow2(n) - 1
  }

  /** ~0UL << n */
  function HighMask(n: nat): Word
    requires n < XLEN
  {
    Pow2Below(n);
    WORDS - Pow2(n)
  }

  // ---------------------------------------------------------------------
  // Bit by bit
  // ---------------------------------------------------------------------

  lemma {:induction false} ZeroBits(i: nat)
    ensures !BitAt(0, i)
  {
    if i > 0 {
      ZeroBits(i - 1);
    }
  }

  lemma {:induction false} AndBits(x: nat, y: nat, i: nat)
    ensures BitAt(And(x, y), i) == (BitAt(x, i) && BitAt(y, i))
    decreases i
  {
    if x == 0 {
      ZeroBits(i);
    } else if i > 0 {
      AndBits(x / 2, y / 2, i - 1);
      assert And(x, y) / 2 == And(x / 2, y / 2);
    }
  }

  lemma {:induction false} OrBits(x: nat, y: nat, i: nat)
    ensures BitAt(Or(x, y), i) == (BitAt(x, i) || BitAt(y, i))
    decreases i
  {
    if x == 0 && y == 0 {
      ZeroBits(i);
    } else if i > 0 {
      OrBits(x / 2, y / 2, i - 1);
      assert Or(x, y) / 2 == Or(x / 2, y / 2);
    }
  }

  lemma {:induction false} ComplementBits(x: nat, n: nat, i: nat)
    requires x < Pow2(n) && i < n
    ensures BitAt(Pow2(n) - 1 - x, i) == !BitAt(x, i)
  {
    var y := Pow2(n) - 1 - x;
    assert Pow2(n) == 2 * Pow2(n - 1);
    if i > 0 {
      assert y / 2 == Pow2(n - 1) - 1 - x / 2;
      ComplementBits(x / 2, n - 1, i - 1);
    }
  }

  lemma NotBits(x: Word, i: nat)
    requires i < XLEN
    ensures BitAt(Not(x), i) == !BitAt(x, i)
  {
    Pow2Xlen();
    ComplementBits(x, XLEN, i);
  }

  lemma {:induction false} BitsBelow(x: nat, n: nat, i: nat)
    requires x < Pow2(n) && n <= i
    ensures !BitAt(x, i)
  {
    if n == 0 {
      ZeroBits(i);
    } else {
      BitsBelow(x / 2, n - 1, i - 1);
    }
  }

  lemma LowMaskBits(n: nat, i: nat)
    requires n < XLEN
    ensures BitAt(LowMask(n), i) == (i < n)
  {
    if i < n {
      ComplementBits(0, n, i);
      ZeroBits(i);
    } else {
      BitsBelow(LowMask(n), n, i);
    }
  }

  lemma HighMaskBits(n: nat, i: nat)
    requires n < XLEN && i < XLEN
    ensures BitAt(HighMask(n), i) == (n <= i)
  {
    assert HighMask(n) == Not(LowMask(n));
    NotBits(LowMask(n), i);
    LowMaskBits(n, i);
  }

  // ---------------------------------------------------------------------
  // Results stay words
  // ---------------------------------------------------------------------

  lemma {:induction false} AndBound(x: nat, y: nat)
    ensures And(x, y) <= x
  {
    if x > 0 {
      AndBound(x / 2, y / 2);
      assert (x % 2) * (y % 2) <= x % 2;
    }
  }

  lemma {:induction false} OrBound(x: nat, y: nat, n: nat)
    requires x < Pow2(n) && y < Pow2(n)
    ensures Or(x, y) < Pow2(n)
  {
    if n > 0 {
      OrBound(x / 2, y / 2, n - 1);
    }
  }

  function AndWord(x: Word, y: Word): Word
  {
    AndBound(x, y);
    And(x, y)
  }

  function OrWord(x: Word, y: Word): Word
  {
    Pow2Xlen();
    OrBound(x, y, XLEN);
    Or(x, y)
  }

  // ---------------------------------------------------------------------
  // Lowest and highest set bit
  // ---------------------------------------------------------------------

  function Highest(w: nat): nat
    requires w > 0
  {
    if w == 1 then 0 else Highest(w / 2) + 1
  }

  lemma {:induction false} LowestBits(w: nat, i: nat)
    requires w > 0
    ensures BitAt(w, TrailingZeros(w)) && (i < TrailingZeros(w) ==> !BitAt(w, i))
  {
    if w % 2 == 0 {
      LowestBits(w / 2, if i > 0 then i - 1 else 0);
    }
  }

  lemma {:induction false} HighestBits(w: nat, i: nat)
    requires w > 0
    ensures BitAt(w, Highest(w)) && (Highest(w) < i ==> !BitAt(w, i))
  {
    if w > 1 {
      HighestBits(w / 2, if i > 0 then i - 1 else 0);
    } else if i > 0 {
      ZeroBits(i - 1);
    }
  }

  lemma {:induction false} LowestShift(w: nat, k: nat)
    requires w > 0
    ensures w % Pow2(k) == 0 ==> w / Pow2(k) > 0 && TrailingZeros(w) == k + TrailingZeros(w / Pow2(k))
    ensures w % Pow2(k) != 0 ==> TrailingZeros(w) < k
  {
    if k > 0 {
      Halve(w, k);
      if w % 2 == 0 {
        LowestShift(w / 2, k - 1);
      }
    }
  }

  /** Dividing by 2^k is halving, then dividing by 2^(k-1). */
  lemma Halve(w: nat, k: nat)
    requires k > 0
    ensures w / Pow2(k) == w / 2 / Pow2(k - 1)
    ensures w % Pow2(k) == 2 * (w / 2 % Pow2(k - 1)) + w % 2
  {
    var d, h := Pow2(k - 1), w / 2;
    var q, r := h / d, h % d;
    assert h == q * d + r;
    Product3(q, 2, d);
    Product3(2, q, d);
    Quotient(w, 2 * d, q, 2 * r + w % 2);
  }

  lemma {:induction false} HighestShift(w: nat, k: nat)
    requires w > 0
    ensures w * Pow2(k) > 0 && Highest(w * Pow2(k)) == Highest(w) + k
  {
    if k > 0 {
      HighestShift(w, k - 1);
      Product3(2, w, Pow2(k - 1));
      Product3(w, 2, Pow2(k - 1));
      assert w * Pow2(k) == 2 * (w * Pow2(k - 1));
    }
  }

  lemma {:induction false} HighestBound(w: nat, k: nat)
    requires w > 0
    ensures w < Pow2(k) <==> Highest(w) < k
  {
    if k > 0 && w > 1 {
      HighestBound(w / 2, k - 1);
    }
  }
}
