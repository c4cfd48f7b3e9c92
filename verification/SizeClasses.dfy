/** How the allocator rounds a request: power-of-two classes for small ones, whole pages for large. */
module SizeClasses {

  const HEADER := 16
  const MIN_SIZE := 16
  const MAX_CLASS := 65536
  const CLASSES := 13
  const PAGE := 4096
  const SIZE_RANGE := 0x1_0000_0000_0000_0000   // size_t has 64 bits

  function Pow2(k: nat): (r: nat)
    ensures r >= 1
  {
    if k == 0 then 1 else 2 * Pow2(k - 1)
  }

  // The number of significant bits: 64 less the leading zeros.
  function BitLength(m: nat): nat {
    if m == 0 then 0 else 1 + BitLength(m / 2)
  }

  function TrailingZeros(m: nat): nat
    requires m > 0
  {
    if m % 2 == 1 then 0 else 1 + TrailingZeros(m / 2)
  }

  function SizeToPow2(n: nat): nat {
    if n <= MIN_SIZE then MIN_SIZE else Pow2(BitLength(n - 1))
  }

  function ClassIndex(usable: nat): int
    requires usable > 0
  {
    TrailingZeros(usable) - 4
  }

  function ClassSize(k: nat): nat { MIN_SIZE * Pow2(k) }

  // A length rounded up to whole pages, in the width of size_t.
  function PagesFor(total: nat): nat {
    (total + PAGE - 1) % SIZE_RANGE / PAGE * PAGE
  }

  lemma {:induction false} BitLengthBounds(m: nat)
    requires m > 0
    ensures BitLength(m) > 0 && Pow2(BitLength(m) - 1) <= m < Pow2(BitLength(m))
  {
    if m > 1 { BitLengthBounds(m / 2); }
  }

  lemma {:induction false} Pow2Trailing(k: nat)
    ensures TrailingZeros(Pow2(k)) == k
  {
    if k > 0 { Pow2Trailing(k - 1); }
  }

  lemma {:induction false} Pow2Grows(i: nat, j: nat)
    requires i <= j
    ensures Pow2(i) <= Pow2(j)
  {
    if i < j { Pow2Grows(i, j - 1); }
  }

  lemma {:induction false} Pow2Values()
    ensures Pow2(3) == 8 && Pow2(4) == 16 && Pow2(12) == 4096 && Pow2(16) == 65536
  {
    assert Pow2(8) == 256;
    assert Pow2(12) == 16 * Pow2(8);
    assert Pow2(16) == 16 * Pow2(12);
  }

  lemma {:induction false} ShiftedPow2(k: nat)
    ensures Pow2(k + 4) == ClassSize(k)
  {
    assert Pow2(k + 4) == 2 * Pow2(k + 3) == 4 * Pow2(k + 2) == 8 * Pow2(k + 1);
  }

  /** A small request gets the least class that is large enough, and the index computed from the
      class size is that class. */
  lemma {:induction false} LeastAdequateClass(n: nat)
    requires 0 < n <= MAX_CLASS
    ensures var k := ClassIndex(SizeToPow2(n));
            && 0 <= k < CLASSES && SizeToPow2(n) == ClassSize(k)
            && n <= ClassSize(k) && (k > 0 ==> ClassSize(k - 1) < n)
  {
    Pow2Values();
    if n <= MIN_SIZE {
      Pow2Trailing(4);
      assert ClassSize(0) == 16;
    } else {
      var b := BitLength(n - 1);
      BitLengthBounds(n - 1);
      Pow2Trailing(b);
      if b < 5 { Pow2Grows(b, 4); }
      if b > 16 { Pow2Grows(16, b - 1); }
      ShiftedPow2(b - 4);
      ShiftedPow2(b - 5);
    }
  }

  lemma {:induction false} IndexOfClass(k: nat)
    requires k < CLASSES
    ensures ClassIndex(ClassSize(k)) == k
    ensures 16 <= ClassSize(k) <= MAX_CLASS && ClassSize(k) % 16 == 0
  {
    hide Pow2, TrailingZeros;
    ShiftedPow2(k);
    Pow2Trailing(k + 4);
    Pow2Values();
    Pow2Grows(k + 4, 16);
  }

  /** The mapping made for a large request is the least number of whole pages that holds header and request
      exactly when the rounded length does not wrap; when it wraps it is empty or one page. */
  lemma {:induction false} LargeLengthCovers(n: nat)
    requires MAX_CLASS < n < SIZE_RANGE
    ensures PagesFor(HEADER + n) - HEADER >= n <==> n < SIZE_RANGE - 4111
    ensures n >= SIZE_RANGE - 4111 ==> PagesFor(HEADER + n) == if n < SIZE_RANGE - 15 then 0 else PAGE
    ensures n < SIZE_RANGE - 4111 ==> 16 + n <= PagesFor(HEADER + n) < 16 + n + 4096
    ensures PagesFor(HEADER + n) % 4096 == 0 && PagesFor(HEADER + n) < SIZE_RANGE
  {
  }
}
