/**
  Powers of two, and alignment: the arithmetic behind masks and shifts on
  unsigned machine words.
 */
module Bits {
  import opened Basics

  function Pow2(n: nat): (p: nat)
    ensures p > 0
  {
    if n == 0 then 1 else 2 * Pow2(n - 1)
  }

  lemma Product3(a: nat, b: nat, c: nat)
    ensures a * (b * c) == (a * b) * c
  {
  }

  lemma {:induction false} Pow2Sum(a: nat, b: nat)
    ensures Pow2(a + b) == Pow2(a) * Pow2(b)
  {
    if a > 0 {
      Pow2Sum(a - 1, b);
      Product3(2, Pow2(a - 1), Pow2(b));
    }
  }

  lemma {:induction false} Pow2Monotone(a: nat, b: nat)
    requires a <= b
    ensures Pow2(a) <= Pow2(b)
    ensures a < b ==> 2 * Pow2(a) <= Pow2(b)
  {
    if a < b {
      Pow2Monotone(a, b - 1);
    }
  }

  /** Distinct multiples of d are at least d apart. */
  lemma MultiplesApart(d: nat, p: nat, q: nat)
    ensures p < q ==> p * d + d <= q * d
    ensures q < p ==> q * d + d <= p * d
  {
    if p < q {
      MultiplesBelow(d, p, q);
    } else if q < p {
      MultiplesBelow(d, q, p);
    }
  }

  lemma MultiplesBelow(d: nat, p: nat, q: nat)
    requires p < q
    ensures p * d + d <= q * d
  {
    var k: nat := q - p - 1;
    ProductNonNegative(k, d);
    assert q * d == (p + 1 + k) * d == p * d + d + k * d;
  }

  lemma {:induction false} ProductNonNegative(k: nat, d: nat)
    ensures 0 <= k * d
  {
    if k > 0 {
      ProductNonNegative(k - 1, d);
      assert k * d == (k - 1) * d + d;
    }
  }

  /** Division with remainder is unique. */
  lemma Unique(d: nat, p: nat, s: nat, q: nat, r: nat)
    requires s < d && r < d && p * d + s == q * d + r
    ensures p == q && s == r
  {
    MultiplesApart(d, p, q);
  }

  lemma Quotient(x: nat, d: nat, q: nat, r: nat)
    requires r < d && x == q * d + r
    ensures x / d == q && x % d == r
  {
    assert x == (x / d) * d + x % d;
    Unique(d, x / d, x % d, q, r);
  }

  /** The multiple of d at or below x: the low bits cleared, when d is a power of two. */
  function RoundDown(x: nat, d: nat): (r: nat)
    requires d > 0
    ensures r % d == 0 && r <= x < r + d
  {
    Quotient((x / d) * d, d, x / d, 0);
    (x / d) * d
  }

  lemma MultipleOfMultiple(q: nat, m: nat, d: nat)
    requires d > 0
    ensures (q * (m * d)) % d == 0
  {
    Product3(q, m, d);
    Quotient(q * (m * d), d, q * m, 0);
  }

  /** A multiple of a larger power of two is a multiple of a smaller one. */
  lemma AlignedDown(x: nat, a: nat, b: nat)
    requires a <= b && x % Pow2(b) == 0
    ensures x % Pow2(a) == 0
  {
    Pow2Sum(b - a, a);
    var m, d, q := Pow2(b - a), Pow2(a), x / Pow2(b);
    assert x == q * (m * d);
    MultipleOfMultiple(q, m, d);
  }

  lemma Pow2Divides(a: nat, b: nat)
    requires a <= b
    ensures Pow2(b) % Pow2(a) == 0
  {
    Pow2Sum(b - a, a);
    Quotient(Pow2(b), Pow2(a), Pow2(b - a), 0);
  }

  lemma SumOfMultiples(x: nat, y: nat, d: nat)
    requires d > 0 && x % d == 0 && y % d == 0
    ensures (x + y) % d == 0
  {
    Quotient(x + y, d, x / d + y / d, 0);
  }

  /** Aligned blocks of one size that share an address are the same block. */
  lemma SameBlock(b: nat, c: nat, d: nat, x: nat)
    requires d > 0 && b % d == 0 && c % d == 0 && b <= x < b + d && c <= x < c + d
    ensures b == c
  {
    Unique(d, b / d, x - b, c / d, x - c);
  }

  /** An aligned block that starts below a multiple of its size ends below it. */
  lemma BlockBelow(b: nat, d: nat, e: nat)
    requires d > 0 && b % d == 0 && e % d == 0 && b < e
    ensures b + d <= e
  {
    MultiplesApart(d, b / d, e / d);
  }

  // ---------------------------------------------------------------------
  // Congruence
  // ---------------------------------------------------------------------

  lemma AddMultiple(x: nat, k: nat, d: nat)
    requires d > 0
    ensures (x + k * d) % d == x % d
  {
    var q, r := x / d, x % d;
    assert x + k * d == (q + k) * d + r;
    Quotient(x + k * d, d, q + k, r);
  }

  /** Numbers that the same number completes to a multiple of d leave the same remainder. */
  lemma SameComplement(x: nat, y: nat, z: nat, d: nat)
    requires d > 0 && (x + z) % d == 0 && (y + z) % d == 0 && x <= y
    ensures x % d == y % d
  {
    var a, b := (x + z) / d, (y + z) / d;
    assert x + z == a * d && y + z == b * d;
    MultiplesApart(d, a, b);
    assert b * d - a * d == (b - a) * d;
    AddMultiple(x, b - a, d);
  }

  /** Adding numbers with the same remainder leaves the same remainder. */
  lemma SameSum(x: nat, y: nat, z: nat, d: nat)
    requires d > 0 && x % d == y % d && x <= y
    ensures (z + x) % d == (z + y) % d
  {
    var a, b := x / d, y / d;
    assert x == a * d + x % d && y == b * d + x % d;
    MultiplesApart(d, a, b);
    assert b * d - a * d == (b - a) * d;
    AddMultiple(z + x, b - a, d);
  }

  /** Reducing a number modulo a span of whole pages keeps its page modulo the entries, and its offset. */
  lemma ReductionDecides(va: nat, span: nat, count: nat, size: nat, entries: nat)
    requires span > 0 && size > 0 && entries > 0 && count * size == span && count % entries == 0
    ensures va % span / size % entries == va / size % entries
    ensures va % span % size == va % size
  {
    Recompose(va, span);
    SameReduced(va, va / span, va % span, span, count, size, entries);
  }

  lemma Recompose(x: nat, d: nat)
    requires d > 0
    ensures x == x / d * d + x % d
  {
  }

  lemma SameReduced(va: nat, q: nat, r: nat, span: nat, count: nat, size: nat, entries: nat)
    requires size > 0 && entries > 0 && count * size == span && count % entries == 0 && va == q * span + r
    ensures r / size % entries == va / size % entries && r % size == va % size
  {
    Reduced(q, r, count, size, entries);
  }

  lemma Reduced(q: nat, r: nat, count: nat, size: nat, entries: nat)
    requires size > 0 && entries > 0 && count % entries == 0
    ensures (q * (count * size) + r) / size % entries == r / size % entries
    ensures (q * (count * size) + r) % size == r % size
  {
    SplitQuotient(q, count, size, r);
    RemainderKept(q, count, r / size, entries);
  }

  lemma SplitQuotient(q: nat, count: nat, size: nat, r: nat)
    requires size > 0
    ensures (q * (count * size) + r) / size == q * count + r / size
    ensures (q * (count * size) + r) % size == r % size
  {
    var n := r / size;
    assert r == n * size + r % size;
    Product3(q, count, size);
    assert q * (count * size) + r == (q * count + n) * size + r % size;
    Quotient(q * (count * size) + r, size, q * count + n, r % size);
  }

  lemma RemainderKept(q: nat, count: nat, n: nat, entries: nat)
    requires entries > 0 && count % entries == 0
    ensures (q * count + n) % entries == n % entries
  {
    var c := count / entries;
    assert count == c * entries;
    Product3(q, c, entries);
    AddMultiple(n, q * c, entries);
  }

  // ---------------------------------------------------------------------
  // The machine's word size
  // ---------------------------------------------------------------------

  lemma Pow2Xlen()
    ensures Pow2(XLEN) == WORDS
  {
    assert Pow2(8) == 0x100;
    Pow2Sum(8, 8);
    Pow2Sum(16, 16);
    Pow2Sum(32, 32);
  }

  lemma Pow2Below(n: nat)
    requires n < XLEN
    ensures 2 * Pow2(n) <= WORDS
  {
    Pow2Xlen();
    Pow2Monotone(n, XLEN);
  }

  /** The number of low zero bits. */
  function TrailingZeros(x: nat): nat
    requires x > 0
  {
    if x % 2 == 1 then 0 else TrailingZeros(x / 2) + 1
  }
}
