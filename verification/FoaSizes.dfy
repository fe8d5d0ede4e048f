/** How many groups Boost allocates, and how many elements it then allows. */
module FoaSizes {
  import opened FoaBytes
  import opened Powers

  function BitWidth(x: nat): nat
  {
    if x == 0 then 0 else 1 + BitWidth(x / 2)
  }

  /** The logarithm of the group count for at least `m` groups: 64 minus the size index. */
  function Exponent(m: nat): nat
  {
    if m <= 2 then 1 else BitWidth(m - 1)
  }

  /** The exponent for at least `n` elements; the `+ 1` leaves room for the sentinel. */
  function ExponentFor(n: nat): nat
  {
    Exponent(n / N + 1)
  }

  function CapacityFor(n: nat): nat
  {
    PowPositive(ExponentFor(n));
    N * Pow2(ExponentFor(n)) - 1
  }

  /** The load at which a fresh table of the given capacity is full: everything for small
      tables, seven eighths otherwise. */
  function InitialMaxLoad(capacity: nat): nat
  {
    if capacity <= 2 * N - 1 then capacity else 7 * capacity / 8
  }

  /** `ceil(x / mlf)` for the maximum load factor 7/8. */
  function CeilDivLoad(x: nat): nat
  {
    (8 * x + 6) / 7
  }

  /** What a full table of `size` elements asks for when it grows. */
  function GrowthRequest(size: nat): nat
  {
    CeilDivLoad(size + size / 61 + 1)
  }

  lemma {:induction false} BitWidthBounds(x: nat)
    ensures x < Pow2(BitWidth(x))
    ensures x > 0 ==> Pow2(BitWidth(x) - 1) <= x
  {
    if x > 0 {
      BitWidthBounds(x / 2);
    }
  }

  /** The group count is the least power of two, from 2 up, that is large enough. */
  lemma ExponentBounds(m: nat)
    ensures m <= Pow2(Exponent(m)) && Exponent(m) >= 1
    ensures m > 2 ==> Pow2(Exponent(m) - 1) < m
  {
    if m > 2 {
      BitWidthBounds(m - 1);
    } else {
      assert Pow2(1) == 2;
    }
  }

  lemma CapacitySuffices(n: nat)
    ensures CapacityFor(n) >= n
    ensures Pow2(ExponentFor(n)) >= 2
  {
    hide Pow2;
    ExponentBounds(n / N + 1);
    PowMonotone(1, ExponentFor(n));
    PowOne();
  }

  lemma PowOne()
    ensures Pow2(1) == 2
  {
  }

  /** A fresh load bound: the whole capacity of a small table, and else the largest number
      that is at most seven eighths of the capacity. */
  lemma InitialMaxLoadMeans(capacity: nat)
    ensures capacity <= 29 ==> InitialMaxLoad(capacity) == capacity
    ensures capacity > 29 ==> 8 * InitialMaxLoad(capacity) <= 7 * capacity < 8 * (InitialMaxLoad(capacity) + 1)
  {
  }

  /** The least capacity of which `x` elements are at most seven eighths. */
  lemma CeilDivLoadMeans(x: nat)
    ensures 7 * CeilDivLoad(x) >= 8 * x
    ensures forall c: nat :: 7 * c >= 8 * x ==> c >= CeilDivLoad(x)
  {
  }

  lemma CeilDivLoadOrder(x: nat, y: nat)
    ensures x <= y ==> CeilDivLoad(x) <= CeilDivLoad(y)
    ensures CeilDivLoad(x) == 0 <==> x == 0
  {
  }

  /** Growth asks for the least capacity that fits the elements, a sixty-first of them, and
      the new one. */
  lemma GrowthRequestMeans(size: nat)
    ensures 7 * GrowthRequest(size) >= 8 * (size + size / 61 + 1)
    ensures forall c: nat :: 7 * c >= 8 * (size + size / 61 + 1) ==> c >= GrowthRequest(size)
  {
    CeilDivLoadMeans(size + size / 61 + 1);
  }

  /** The capacities of a table that only grows. */
  lemma KnownCapacities()
    ensures CapacityFor(GrowthRequest(0)) == 29 && InitialMaxLoad(29) == 29
    ensures CapacityFor(GrowthRequest(29)) == 59 && InitialMaxLoad(59) == 51
    ensures CapacityFor(GrowthRequest(51)) == 119 && InitialMaxLoad(119) == 104
  {
    assert BitWidth(0) == 0 && BitWidth(1) == 1 && BitWidth(2) == 2 && BitWidth(4) == 3;
    assert Pow2(1) == 2 && Pow2(2) == 4 && Pow2(3) == 8;
    assert Exponent(2 / 15 + 1) == 1 && Exponent(35 / 15 + 1) == 2 && Exponent(60 / 15 + 1) == 3;
    assert GrowthRequest(0) == 2 && GrowthRequest(29) == 35 && GrowthRequest(51) == 60;
  }

  /** A capacity is fifteen times a power of two less one, and no smaller one would do. */
  lemma CapacityIsLeast(n: nat, e: nat)
    requires e >= 1 && n < 15 * Pow2(e)
    ensures ExponentFor(n) >= 1 && CapacityFor(n) + 1 == 15 * Pow2(ExponentFor(n)) <= 15 * Pow2(e)
  {
    hide Pow2, Exponent;
    var m := n / N + 1;
    ExponentBounds(m);
    if ExponentFor(n) > e {
      PowMonotone(e, ExponentFor(n) - 1);
      PowMonotone(1, e);
      PowOne();
      assert m <= Pow2(e);
      SmallExponent(m);
    }
    PowMonotone(ExponentFor(n), e);
  }

  lemma SmallExponent(m: nat)
    ensures m <= 2 ==> Exponent(m) == 1
  {
  }

  lemma InitialMaxLoadBounds(capacity: nat)
    ensures InitialMaxLoad(capacity) <= capacity
  {
  }

  /** A capacity of at least `x / mlf` takes `x` elements before it is full. */
  lemma LoadSuffices(x: nat, capacity: nat)
    requires CeilDivLoad(x) <= capacity
    ensures x <= InitialMaxLoad(capacity)
  {
  }

  /** Growth always makes room for one more element. */
  lemma GrowthSuffices(size: nat)
    ensures GrowthRequest(size) > 0
    ensures size + 1 <= InitialMaxLoad(CapacityFor(GrowthRequest(size)))
  {
    hide CapacityFor;
    CapacitySuffices(GrowthRequest(size));
    LoadSuffices(size + size / 61 + 1, CapacityFor(GrowthRequest(size)));
  }

  /** Asking for exactly a capacity returns it. */
  lemma CapacityIsStable(n: nat)
    ensures ExponentFor(CapacityFor(n)) == ExponentFor(n)
    ensures CapacityFor(CapacityFor(n)) == CapacityFor(n)
  {
    hide Pow2, BitWidth;
    CapacitySuffices(n);
    var m := n / N + 1;
    var g := Pow2(Exponent(m));
    assert (N * g - 1) / N + 1 == g;
    ExponentBounds(m);
    if m > 2 {
      BitWidthOfPred(Exponent(m));
    } else {
      PowOne();
    }
  }

  lemma {:induction false} BitWidthOfPred(e: nat)
    ensures Pow2(e) >= 1 && BitWidth(Pow2(e) - 1) == e
  {
    if e > 0 {
      BitWidthOfPred(e - 1);
      assert (Pow2(e) - 1) / 2 == Pow2(e - 1) - 1;
    }
  }

  /** The largest request whose capacity a 64-bit word can hold. */
  const MAX_REQUEST: nat := 15 * 0x1000_0000_0000_0000 - 1

  lemma Pow60()
    ensures Pow2(60) == 0x1000_0000_0000_0000 && Pow2(61) == 0x2000_0000_0000_0000
  {
    Pow64();
    assert Pow2(61) == 2 * Pow2(60);
  }

  /** Exactly the requests up to the largest one get a capacity that fits its word; for them
      the shift that sizes the group array stays within the word, too. */
  lemma RequestFits(n: nat)
    ensures n <= MAX_REQUEST <==> CapacityFor(n) < 0x1_0000_0000_0000_0000
    ensures n <= MAX_REQUEST <==> ExponentFor(n) <= 60
  {
    hide Pow2, BitWidth;
    ExponentBounds(n / N + 1);
    Pow60();
    if ExponentFor(n) > 60 {
      PowMonotone(60, ExponentFor(n) - 1);
      PowMonotone(61, ExponentFor(n));
    } else {
      PowMonotone(ExponentFor(n), 60);
    }
  }
}
