/** How many buckets and pairs emhash8 allocates. */
module EmhashSizes {
  import opened Modular
  import opened Powers
  import opened Triangular

  /** Load factors are kept as `MLF_UNIT / mlf`, with `mlf` above `MLF_UNIT` and at most four
      times as large. */
  const MLF_UNIT: nat := 0x800_0000

  /** No bucket number reaches the sign bit that marks an empty bucket. */
  const MAX_SIZE: nat := 0x8000_0000

  predicate LoadOk(mlf: nat)
  {
    MLF_UNIT < mlf <= 4 * MLF_UNIT
  }

  /** How many buckets `m` entries ask for. */
  function Required(m: nat, mlf: nat): nat
  {
    m * mlf / MLF_UNIT
  }

  /** How many pairs are allocated along with `n` buckets. */
  function PairCapacity(n: nat, mlf: nat): nat
    requires mlf > 0
  {
    n * MLF_UNIT / mlf + 4
  }

  /** Doubling from `n` until there are enough buckets. */
  function DoubleUntil(n: nat, required: nat): nat
    requires n > 0
    decreases required - n
  {
    if n >= required then n else DoubleUntil(2 * n, required)
  }

  function StartSize(filled: nat): (n: nat)
    ensures n > 0
  {
    if filled > 0x10000 then 0x10000 else 4
  }

  lemma {:induction false} DoubledIsPow2(n: nat, required: nat)
    requires IsPow2(n)
    ensures IsPow2(DoubleUntil(n, required)) && DoubleUntil(n, required) >= n
    ensures required <= DoubleUntil(n, required)
    decreases required - n
  {
    if n < required {
      DoublePow2(n);
      DoubledIsPow2(2 * n, required);
    }
  }

  lemma {:induction false} DoubledWithin(n: nat, required: nat, k: nat)
    requires n > 0 && required <= n * Pow2(k)
    ensures DoubleUntil(n, required) <= n * Pow2(k)
    decreases k
  {
    if n < required {
      assert n * Pow2(k) == (2 * n) * Pow2(k - 1);
      DoubledWithin(2 * n, required, k - 1);
    } else {
      PowPositive(k);
      MulOrder(1, Pow2(k), n);
    }
  }

  /** A request that a bucket number can still express leads to at most `MAX_SIZE` buckets. */
  lemma BucketsFit(filled: nat, required: nat)
    requires required < MAX_SIZE
    ensures IsPow2(DoubleUntil(StartSize(filled), required))
    ensures 4 <= DoubleUntil(StartSize(filled), required) <= MAX_SIZE
    ensures required <= DoubleUntil(StartSize(filled), required)
  {
    StartIsPow2(filled);
    DoubledIsPow2(StartSize(filled), required);
    assert Pow2(29) == 0x2000_0000 && Pow2(15) == 0x8000;
    hide DoubleUntil, IsPow2, Pow2;
    DoubledWithin(StartSize(filled), required, if filled > 0x10000 then 15 else 29);
  }

  lemma QuotientAtLeast(a: nat, b: nat, q: nat)
    requires b > 0 && q * b <= a
    ensures q <= a / b
  {
    if a / b < q {
      MulMonotone(b, a / b, q);
    }
  }

  lemma QuotientReached(a: nat, b: nat, q: nat)
    requires b > 0
    ensures q <= a / b <==> q * b <= a
  {
    if q <= a / b {
      MulOrder(q, a / b, b);
    } else {
      MulOrder(a / b + 1, q, b);
    }
  }

  /** `m` entries ask for `x` buckets when their number times the inverse load factor does. */
  lemma RequiredMeans(m: nat, mlf: nat, x: nat)
    ensures Required(m, mlf) >= x <==> m * mlf >= x * 0x800_0000
  {
    QuotientReached(m * mlf, MLF_UNIT, x);
  }

  lemma {:induction false} DoubledIsLeast(n: nat, required: nat)
    requires IsPow2(n)
    ensures var c := DoubleUntil(n, required); c == n || c / 2 < required
    decreases required - n
  {
    if n < required {
      DoublePow2(n);
      DoubledIsLeast(2 * n, required);
    }
  }

  /** What a rehash to `required` buckets comes to: the least doubling of the start size that
      suffices. */
  ghost predicate LeastDoubling(n: nat, filled: nat, required: nat)
  {
    var start := if filled > 0x10000 then 0x10000 else 4;
    IsPow2(n) && n >= start && n >= required && (n == start || n / 2 < required)
  }

  lemma RehashMeans(filled: nat, required: nat)
    ensures LeastDoubling(DoubleUntil(StartSize(filled), required), filled, required)
  {
    StartIsPow2(filled);
    DoubledIsPow2(StartSize(filled), required);
    DoubledIsLeast(StartSize(filled), required);
  }

  /** When `m` entries make a table of `n` buckets grow, and to how many buckets, without the
      division. */
  ghost predicate ReserveLine(filled: nat, m: nat, mlf: nat, n: nat)
  {
    var start := if filled > 0x10000 then 0x10000 else 4;
    && IsPow2(n) && n >= start && n * 0x800_0000 > m * mlf + 0x800_0000
    && (n == start || n / 2 * 0x800_0000 <= m * mlf + 0x800_0000)
  }

  lemma ReserveMeans(filled: nat, m: nat, mlf: nat, n: nat)
    requires n > 0
    ensures Required(m, mlf) >= n - 1 <==> m * mlf >= (n - 1) * 0x800_0000
    ensures ReserveLine(filled, m, mlf, DoubleUntil(StartSize(filled), Required(m, mlf) + 2))
  {
    var c := DoubleUntil(StartSize(filled), Required(m, mlf) + 2);
    RequiredMeans(m, mlf, n - 1);
    RehashMeans(filled, Required(m, mlf) + 2);
    RequiredMeans(m, mlf, c - 1);
    RequiredMeans(m, mlf, c / 2 - 1);
    hide DoubleUntil, IsPow2, Required;
  }

  /** The pairs allocated: the largest number within the load factor, and four more. */
  lemma PairCapacityMeans(n: nat, mlf: nat)
    requires mlf > 0
    ensures var p := PairCapacity(n, mlf);
            p >= 4 && (p - 4) * mlf <= n * 0x800_0000 < (p - 3) * mlf
  {
    QuotientReached(n * MLF_UNIT, mlf, n * MLF_UNIT / mlf);
    QuotientReached(n * MLF_UNIT, mlf, n * MLF_UNIT / mlf + 1);
  }

  lemma MulOrder(a: nat, b: nat, k: nat)
    requires a <= b
    ensures a * k <= b * k
  {
  }

  /** When the required buckets stay below the mask, both the buckets and the allocated
      pairs have room for one entry more. */
  lemma CheckLeavesRoom(m: nat, n: nat, mlf: nat)
    requires LoadOk(mlf) && Required(m, mlf) + 1 < n
    ensures m + 1 < n && m + 4 <= PairCapacity(n, mlf)
  {
    assert m * mlf < (Required(m, mlf) + 1) * MLF_UNIT;
    assert m * mlf <= n * MLF_UNIT;
    MulOrder(MLF_UNIT, mlf, m);
    assert m * MLF_UNIT == MLF_UNIT * m && m * mlf == mlf * m;
    QuotientAtLeast(n * MLF_UNIT, mlf, m);
  }

  lemma PairsGrow(n: nat, n': nat, mlf: nat)
    requires mlf > 0 && n <= n'
    ensures PairCapacity(n, mlf) <= PairCapacity(n', mlf)
  {
    MulOrder(n, n', MLF_UNIT);
    QuotientAtLeast(n' * MLF_UNIT, mlf, n * MLF_UNIT / mlf);
  }

  /** The least number of buckets. */
  lemma StartIsPow2(filled: nat)
    ensures IsPow2(StartSize(filled)) && 4 <= StartSize(filled) <= 0x10000
  {
    PowIsPow2(2);
    PowIsPow2(16);
    assert Pow2(2) == 4 && Pow2(16) == 0x10000;
  }

  /** A rehash to `required` buckets of a table with `filled` pairs has room for them: either
      the call returns at once, or all pairs but four, times the inverse load factor, do not
      exceed the buckets. */
  predicate RehashSafe(filled: nat, required: nat, mlf: nat)
  {
    required < filled || filled <= 4 || (filled - 4) * mlf <= DoubleUntil(StartSize(filled), required) * MLF_UNIT
  }

  /** The pairs fit the array that a rehash allocates exactly if the request is safe. */
  lemma RehashSafeExactly(filled: nat, required: nat, mlf: nat)
    requires mlf > 0
    ensures RehashSafe(filled, required, mlf) <==>
            required < filled || filled <= PairCapacity(DoubleUntil(StartSize(filled), required), mlf)
  {
    hide DoubleUntil, StartSize;
    if filled > 4 {
      QuotientReached(DoubleUntil(StartSize(filled), required) * MLF_UNIT, mlf, filled - 4);
    }
  }

  /** The load factor 0.8. */
  const FOUR_FIFTHS: nat := 167772160

  /** A rehash requested directly may provide fewer pairs than there are: with a load factor
      of 0.8, 64 entries rehashed to 64 buckets. */
  lemma RehashCanFallShort()
    ensures LoadOk(FOUR_FIFTHS) && !RehashSafe(64, 64, FOUR_FIFTHS)
    ensures PairCapacity(DoubleUntil(StartSize(64), 64), FOUR_FIFTHS) == 55
  {
    assert DoubleUntil(4, 64) == DoubleUntil(8, 64) == DoubleUntil(16, 64) == DoubleUntil(32, 64) == 64;
  }
}
