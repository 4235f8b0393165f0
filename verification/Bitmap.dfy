/**
  Bao's bitmap searches (bao-hypervisor/src/lib/bitmap.c and
  bao-hypervisor/src/lib/inc/bitmap.h), over an array of bits. Every map has at
  least one bit beyond its size, because the search for a run reads it.
 */
module Bitmap {
  import opened Basics

  const SIZE_MAX: nat := 0xFFFF_FFFF_FFFF_FFFF

  // ---------------------------------------------------------------------
  // Meaning
  // ---------------------------------------------------------------------

  /** How many bits of s are equal to b. */
  function Count(s: seq<bool>, b: bool): (c: nat)
    ensures c <= |s|
  {
    if s == [] then 0 else Count(s[..|s| - 1], b) + (if s[|s| - 1] == b then 1 else 0)
  }

  /** A run of n bits equal to b starts at i, below size. */
  predicate Fits(s: seq<bool>, size: nat, i: nat, n: nat, b: bool)
    requires size <= |s|
  {
    i < size && i + n <= size && s[i] == b && forall k :: i <= k < i + n ==> s[k] == b
  }

  /** The first place at or after i where a run of n bits equal to b starts. */
  function FindRun(s: seq<bool>, size: nat, i: nat, n: nat, b: bool): (r: Option<nat>)
    requires size <= |s|
    ensures r.Some? ==> i <= r.value && Fits(s, size, r.value, n, b)
    ensures forall j :: i <= j < (if r.Some? then r.value else size) ==> !Fits(s, size, j, n, b)
    decreases size - i
  {
    if i >= size then None
    else if Fits(s, size, i, n, b) then Some(i)
    else FindRun(s, size, i + 1, n, b)
  }

  /** The run found is the only one with these properties. */
  lemma FindRunIs(s: seq<bool>, size: nat, i: nat, n: nat, b: bool, r: nat)
    requires size <= |s| && i <= r && (forall j :: i <= j < r && j < size ==> !Fits(s, size, j, n, b))
    requires r < size ==> Fits(s, size, r, n, b)
    ensures FindRun(s, size, i, n, b) == if r < size then Some(r) else None
  {
  }

  lemma {:induction false} CountAppend(s: seq<bool>, t: seq<bool>, b: bool)
    ensures Count(s + t, b) == Count(s, b) + Count(t, b)
  {
    if t == [] {
      assert s + t == s;
    } else {
      assert (s + t)[..|s + t| - 1] == s + t[..|t| - 1];
      CountAppend(s, t[..|t| - 1], b);
    }
  }

  lemma {:induction false} CountAll(s: seq<bool>, b: bool)
    requires forall k :: 0 <= k < |s| ==> s[k] == b
    ensures Count(s, b) == |s| && Count(s, !b) == 0
  {
    if s != [] {
      CountAll(s[..|s| - 1], b);
    }
  }

  /** s with n bits from i on set to b. */
  function Filled(s: seq<bool>, i: nat, n: nat, b: bool): (t: seq<bool>)
    requires i + n <= |s|
    ensures |t| == |s| && forall k :: 0 <= k < |s| ==> t[k] == if i <= k < i + n then b else s[k]
  {
    s[..i] + seq(n, _ => b) + s[i + n..]
  }

  /** Filling n bits takes away exactly the bits among them that had the other value. */
  lemma CountFilled(s: seq<bool>, i: nat, n: nat, b: bool)
    requires i + n <= |s|
    ensures Count(Filled(s, i, n, b), !b) == Count(s, !b) - Count(s[i..i + n], !b)
    ensures Count(s[i..i + n], !b) <= Count(s, !b)
  {
    var mid: seq<bool> := seq(n, _ => b);
    CountAll(mid, b);
    assert s == s[..i] + s[i..i + n] + s[i + n..];
    CountAppend(s[..i], s[i..i + n], !b);
    CountAppend(s[..i] + s[i..i + n], s[i + n..], !b);
    CountAppend(s[..i], mid, !b);
    CountAppend(s[..i] + mid, s[i + n..], !b);
  }

  lemma {:induction false} CountFull(s: seq<bool>, b: bool)
    requires Count(s, b) == |s|
    ensures forall k :: 0 <= k < |s| ==> s[k] == b
  {
    if s != [] {
      CountFull(s[..|s| - 1], b);
    }
  }

  lemma {:induction false} CountNone(s: seq<bool>, b: bool)
    requires Count(s, b) == 0
    ensures forall k :: 0 <= k < |s| ==> s[k] != b
  {
    if s != [] {
      CountNone(s[..|s| - 1], b);
    }
  }

  // ---------------------------------------------------------------------
  // The searches
  // ---------------------------------------------------------------------

  /** bitmap_find_nth: the nth bit with the given value from start on; -1 if there are fewer. */
  method FindNth(bits: array<bool>, size: nat, nth: nat, start: nat, value: bool) returns (r: int)
    requires size <= bits.Length
    ensures r == -1 || start <= r < size
    ensures r >= 0 ==> bits[r] == value && Count(bits[start..r], value) == nth - 1
    ensures r == -1 ==> nth == 0 || size == 0 || start > size || Count(bits[start..size], value) < nth
  {
    if size == 0 || nth == 0 {
      return -1;
    }
    var count := 0;
    var i := start;
    while i < size
      invariant start <= i && (start <= size ==> i <= size && count == Count(bits[start..i], value)) && count < nth
      invariant start > size ==> i == start
    {
      assert bits[start..i + 1] == bits[start..i] + [bits[i]];
      assert bits[start..i + 1][..i - start] == bits[start..i];
      if bits[i] == value {
        count := count + 1;
        if count == nth {
          return i;
        }
      }
      i := i + 1;
    }
    return -1;
  }

  /** bitmap_count_consecutive: the length of the run at start, looked at no further than n bits or the size. */
  method CountConsecutive(bits: array<bool>, size: nat, start: nat, n: nat) returns (count: nat)
    requires start <= size < bits.Length
    ensures n <= 1 ==> count == n
    ensures n > 1 ==> 1 <= count <= n && (start < size ==> start + count <= size) && (start == size ==> count == 1)
    ensures forall k :: start <= k < start + count ==> bits[k] == bits[start]
    ensures n > 1 ==> count == n || start + count >= size || bits[start + count] != bits[start]
  {
    if n <= 1 {
      return n;
    }
    var b := bits[start];
    var i := start + 1;
    count := 1;
    while i < size
      invariant count == i - start && 1 <= count < n && (start < size ==> i <= size) &&
                (start == size ==> i == size + 1)
      invariant forall k :: start <= k < i && k < bits.Length ==> bits[k] == b
    {
      if bits[i] == b {
        count := count + 1;
      } else {
        break;
      }
      if count == n {
        break;
      }
      i := i + 1;
    }
  }

  /** bitmap_find_consec: the first run of n bits with the given value. */
  method FindConsec(bits: array<bool>, size: nat, start: nat, n: nat, value: bool) returns (r: int)
    requires size < bits.Length && size <= SIZE_MAX
    ensures r == match FindRun(bits[..], size, start, n, value) { case Some(i) => i case None => -1 }
  {
    var i := FindNth(bits, size, 1, start, value);
    if i < 0 {
      NoBitNoRun(bits[..], size, start, n, value);
      return -1;
    }
    CountNone(bits[start..i], value);
    assert forall k :: start <= k < i ==> bits[..][k] == bits[start..i][k - start];
    while i < size
      invariant start <= i && (forall j :: start <= j < i && j < size ==> !Fits(bits[..], size, j, n, value))
      invariant i < size ==> bits[i] == value
      decreases size - i
    {
      var count := CountConsecutive(bits, size, i, n);
      if count < n {
        ShortRun(bits[..], size, i, count, n, value);
        var j := i + count;
        var other := CountConsecutive(bits, size, j, SIZE_MAX);
        i := j + other;
      } else {
        break;
      }
    }
    FindRunIs(bits[..], size, start, n, value, i);
    if i >= size {
      i := -1;
    }
    return i;
  }

  /** No long run starts inside a short one. */
  lemma ShortRun(s: seq<bool>, size: nat, i: nat, count: nat, n: nat, b: bool)
    requires size < |s| && i + count <= size && count < n
    requires i + count == size || s[i + count] != b
    ensures forall j :: i <= j < i + count ==> !Fits(s, size, j, n, b)
  {
  }

  lemma NoBitNoRun(s: seq<bool>, size: nat, start: nat, n: nat, b: bool)
    requires size <= |s| && (size == 0 || start > size || Count(s[start..size], b) < 1)
    ensures FindRun(s, size, start, n, b) == None
  {
    if start <= size {
      if size > 0 {
        CountNone(s[start..size], b);
        assert forall k :: start <= k < size ==> s[k] == s[start..size][k - start];
      }
    }
  }

  /** bitmap_set_consecutive */
  method SetConsecutive(bits: array<bool>, start: nat, n: nat)
    requires start + n <= bits.Length
    modifies bits
    ensures bits[..] == Filled(old(bits[..]), start, n, true)
  {
    var i := 0;
    while i < n
      invariant 0 <= i <= n
      invariant bits[..] == Filled(old(bits[..]), start, i, true)
    {
      bits[start + i] := true;
      i := i + 1;
    }
  }

  /** bitmap_count, whose n is the end of the range and not its length. */
  method CountBits(bits: array<bool>, start: nat, n: nat, value: bool) returns (count: nat)
    requires n <= bits.Length
    ensures count == if start <= n then Count(bits[start..n], value) else 0
  {
    count := 0;
    var i := start;
    while i < n
      invariant start <= i && (start <= n ==> i <= n && count == Count(bits[start..i], value)) &&
                (start > n ==> count == 0)
    {
      assert bits[start..i + 1][..i - start] == bits[start..i];
      if bits[i] == value {
        count := count + 1;
      }
      i := i + 1;
    }
  }
}
