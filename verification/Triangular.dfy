/** Triangular probing modulo a power of two: the displacement sequence
    0, 1, 3, 6, 10, ... shared by Verstable's `cc_quadratic` and Boost's
    `pow2_quadratic_prober`. The main result is that it is a bijection, with an
    explicit two-sided inverse. */
module Triangular {
  import opened Modular

  ghost predicate IsPow2(n: nat)
  {
    n == 1 || (n >= 2 && n % 2 == 0 && IsPow2(n / 2))
  }

  lemma DoublePow2(n: nat)
    requires IsPow2(n)
    ensures IsPow2(2 * n)
  {
    assert 2 * n / 2 == n;
  }

  lemma EightIsPow2()
    ensures IsPow2(8)
  {
    DoublePow2(1);
    DoublePow2(2);
    DoublePow2(4);
  }

  function Tri(d: nat): nat
  {
    (d * d + d) / 2
  }

  lemma {:induction false} TriDouble(d: nat)
    ensures 2 * Tri(d) == d * d + d
  {
    if d > 0 {
      TriDouble(d - 1);
      assert d * d + d == (d - 1) * (d - 1) + (d - 1) + 2 * d;
    }
  }

  /** The loops compute the sequence incrementally. */
  lemma TriStep(d: nat)
    ensures Tri(d + 1) == Tri(d) + d + 1
  {
    TriDouble(d);
    TriDouble(d + 1);
    assert (d + 1) * (d + 1) == d * d + 2 * d + 1;
  }

  /** The displacement below `n` that reaches offset `x`. */
  ghost function Inverse(n: nat, x: nat): (d: nat)
    requires IsPow2(n) && x < n
    ensures d < n
  {
    if n == 1 then 0
    else
      var d := Inverse(n / 2, x % (n / 2));
      if Tri(d) % n == x then d else n - 1 - d
  }

  /** Reflecting `d` in the range shifts the offset by half the range. */
  lemma TriReflect(m: nat, d: nat)
    requires d < 2 * m
    ensures Tri(2 * m - 1 - d) + m * (2 * d + 1) == Tri(d) + 2 * m * m
  {
    var e := 2 * m - 1 - d;
    TriDouble(d);
    TriDouble(e);
    assert e * e + e == e * (e + 1);
    assert e * (e + 1) == (2 * m - 1 - d) * (2 * m - d);
    assert (2 * m - 1 - d) * (2 * m - d) == 4 * m * m - 2 * m * (2 * d + 1) + d * (d + 1);
  }

  /** Below a doubled modulus there are two candidates for each remainder. */
  lemma ModHalf(m: nat, t: nat, x: nat)
    requires m > 0 && x < 2 * m && t % m == x % m
    ensures t % (2 * m) == x || t % (2 * m) == (x + m) % (2 * m)
  {
    var r := t % (2 * m);
    ModDown(m, t);
    SmallMod(m, r);
    SmallMod(m, x);
    SmallMod(2 * m, x + m);
  }

  /** The reflected displacement sits exactly half the range away. */
  lemma ReflectMod(m: nat, d: nat)
    requires m > 0 && d < 2 * m
    ensures Tri(2 * m - 1 - d) % (2 * m) == (Tri(d) + m) % (2 * m)
  {
    TriReflect(m, d);
    var e := 2 * m - 1 - d;
    assert Tri(e) + 2 * m * (d + 1) == Tri(d) + m + 2 * m * m by {
      assert m * (2 * d + 1) + m == 2 * m * (d + 1);
    }
    ModAdd(2 * m, d + 1, Tri(e));
    ModAdd(2 * m, m, Tri(d) + m);
  }

  /** Right inverse: every offset is reached. */
  lemma {:induction false} InverseReaches(n: nat, x: nat)
    requires IsPow2(n) && x < n
    ensures Tri(Inverse(n, x)) % n == x
  {
    if n > 1 {
      var m := n / 2;
      InverseReaches(m, x % m);
      var d := Inverse(m, x % m);
      ModHalf(m, Tri(d), x);
      if Tri(d) % n != x {
        ReflectMod(m, d);
        ModShift(m, Tri(d), x);
      }
    }
  }

  /** Adding half the modulus twice is the identity. */
  lemma ModShift(m: nat, t: nat, x: nat)
    requires m > 0 && x < 2 * m
    requires t % (2 * m) == (x + m) % (2 * m)
    ensures (t + m) % (2 * m) == x
  {
    SmallMod(2 * m, x + m);
    ModOfSum(2 * m, t, m);
    SmallMod(2 * m, t % (2 * m) + m);
  }

  /** Left inverse: every displacement below `n` is recovered from its offset. */
  lemma {:induction false} InverseUnique(n: nat, d: nat)
    requires IsPow2(n) && d < n
    ensures Inverse(n, Tri(d) % n) == d
  {
    if n > 1 {
      var m := n / 2;
      ModDown(m, Tri(d));
      if d < m {
        InverseUnique(m, d);
      } else {
        InverseUniqueUpper(m, n - 1 - d);
        InverseUnique(m, n - 1 - d);
      }
    }
  }

  lemma InverseUniqueUpper(m: nat, e: nat)
    requires m > 0 && e < m
    ensures Tri(2 * m - 1 - e) % (2 * m) % m == Tri(e) % m
    ensures Tri(2 * m - 1 - e) % (2 * m) != Tri(e) % (2 * m)
  {
    ReflectMod(m, e);
    ModOfSum(2 * m, Tri(e), m);
    SmallMod(2 * m, Tri(e) % (2 * m) + m);
    ModDown(m, Tri(e) + m);
    ModAdd(m, 1, Tri(e));
  }

  /** Modulo a power of two, displacements below it reach distinct offsets. */
  lemma DistinctOffsets(n: nat, i: nat, j: nat)
    requires IsPow2(n) && i < n && j < n
    requires Tri(i) % n == Tri(j) % n
    ensures i == j
  {
    InverseUnique(n, i);
    InverseUnique(n, j);
  }

  /** The bucket at quadratic displacement `d` from bucket `h`. */
  function Slot(n: nat, h: nat, d: nat): (s: nat)
    requires n > 0
    ensures s < n
  {
    (h + Tri(d)) % n
  }

  lemma SlotZero(n: nat, h: nat)
    requires h < n
    ensures Slot(n, h, 0) == h
  {
    SmallMod(n, h);
  }

  /** Quadratic probing from any home reaches every bucket below displacement `n`. */
  lemma ProbingReaches(n: nat, h: nat, e: nat) returns (d: nat)
    requires IsPow2(n) && h < n && e < n
    ensures d < n && Slot(n, h, d) == e
  {
    var x := if e >= h then e - h else e + n - h;
    d := Inverse(n, x);
    InverseReaches(n, x);
    ModOfSum(n, Tri(d), h);
    assert Slot(n, h, d) == (x + h) % n;
    SmallMod(n, x + h);
  }

  lemma DistinctSlots(n: nat, h: nat, i: nat, j: nat)
    requires IsPow2(n) && i < n && j < n && Slot(n, h, i) == Slot(n, h, j)
    ensures i == j
  {
    ModOfDifference(n, h, Tri(i));
    ModOfDifference(n, h, Tri(j));
    DistinctOffsets(n, i, j);
  }

  /** Position `e` lies on the probe path from `h`. */
  ghost predicate Visited(n: nat, h: nat, e: nat)
    requires n > 0
  {
    exists d :: 0 <= d < n && Slot(n, h, d) == e
  }

  /** The probe path from any start visits every position exactly once within `n` steps. */
  lemma ProbingVisitsOnce(n: nat, h: nat)
    requires IsPow2(n) && h < n
    ensures forall e: nat | e < n :: Visited(n, h, e)
    ensures forall i, j | 0 <= i < j < n :: Slot(n, h, i) != Slot(n, h, j)
  {
    hide Slot, IsPow2;
    forall e: nat | e < n ensures Visited(n, h, e) {
      var d := ProbingReaches(n, h, e);
    }
    forall i, j | 0 <= i < j < n ensures Slot(n, h, i) != Slot(n, h, j) {
      if Slot(n, h, i) == Slot(n, h, j) {
        DistinctSlots(n, h, i, j);
      }
    }
  }
}
