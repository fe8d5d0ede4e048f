/** Powers of two and the top bits of a hash code. */
module Powers {
  import opened Entries
  import opened Modular
  import opened Triangular

  function Pow2(e: nat): nat
  {
    if e == 0 then 1 else 2 * Pow2(e - 1)
  }

  lemma {:induction false} PowPositive(e: nat)
    ensures Pow2(e) > 0
  {
    if e > 0 {
      PowPositive(e - 1);
    }
  }

  lemma {:induction false} PowSplits(a: nat, b: nat)
    ensures Pow2(a) * Pow2(b) == Pow2(a + b)
  {
    if b > 0 {
      PowSplits(a, b - 1);
      assert Pow2(a) * Pow2(b) == 2 * (Pow2(a) * Pow2(b - 1));
    }
  }

  lemma {:induction false} PowMonotone(a: nat, b: nat)
    requires a <= b
    ensures Pow2(a) <= Pow2(b)
    decreases b
  {
    if a < b {
      PowMonotone(a, b - 1);
    }
  }

  lemma DivBound(x: nat, a: nat, b: nat)
    requires a > 0 && x < a * b
    ensures x / a < b
  {
    if b < x / a {
      MulMonotone(a, b, x / a);
    }
  }

  lemma Pow64()
    ensures Pow2(64) == 0x1_0000_0000_0000_0000
  {
    PowSplits(8, 8);
    PowSplits(16, 16);
    PowSplits(32, 32);
    assert Pow2(8) == 256;
  }

  lemma ShiftedHashBound(h: Hash64, shifts: nat)
    requires shifts <= 64
    ensures Pow2(shifts) > 0 && h / Pow2(shifts) < Pow2(64 - shifts)
  {
    hide Pow2;
    PowPositive(shifts);
    PowSplits(shifts, 64 - shifts);
    Pow64();
    DivBound(h, Pow2(shifts), Pow2(64 - shifts));
  }

  lemma {:induction false} PowIsPow2(e: nat)
    ensures IsPow2(Pow2(e))
  {
    if e > 0 {
      PowIsPow2(e - 1);
      PowPositive(e - 1);
    }
  }
}
