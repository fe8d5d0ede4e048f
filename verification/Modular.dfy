/** Facts about remainders that the solver's nonlinear arithmetic does not find alone. */
module Modular {

  lemma {:induction false} MulMonotone(m: nat, q: int, q': int)
    requires q < q'
    ensures m * q + m <= m * q'
    decreases q' - q
  {
    assert m * q' == m * (q' - 1) + m;
    if q < q' - 1 {
      MulMonotone(m, q, q' - 1);
    }
  }

  lemma OneRepresentation(m: nat, q: int, r: int, q': int, r': int)
    requires 0 <= r < m && 0 <= r' < m && q <= q'
    requires m * q + r == m * q' + r'
    ensures q == q' && r == r'
  {
    if q < q' {
      MulMonotone(m, q, q');
    }
  }

  /** Quotient and remainder are unique. */
  lemma DivModUnique(m: nat, q: int, r: int)
    requires 0 <= r < m
    ensures (m * q + r) / m == q && (m * q + r) % m == r
  {
    var t := m * q + r;
    if q <= t / m {
      OneRepresentation(m, q, r, t / m, t % m);
    } else {
      OneRepresentation(m, t / m, t % m, q, r);
    }
  }

  /** Adding a multiple of the modulus changes nothing. */
  lemma ModAdd(m: nat, q: int, t: int)
    requires m > 0
    ensures (m * q + t) % m == t % m
  {
    var q', r' := t / m, t % m;
    assert t == m * q' + r';
    assert m * q + t == m * (q + q') + r' by {
      assert m * (q + q') == m * q + m * q';
    }
    DivModUnique(m, q + q', r');
  }

  lemma SmallMod(m: nat, r: nat)
    requires m > 0 && r < 2 * m
    ensures r % m == if r < m then r else r - m
  {
    if r < m {
      DivModUnique(m, 0, r);
    } else {
      DivModUnique(m, 1, r - m);
    }
  }

  /** A remainder may be taken before an addition. */
  lemma ModOfSum(m: nat, a: int, b: int)
    requires m > 0
    ensures (a % m + b) % m == (a + b) % m
  {
    assert a == m * (a / m) + a % m;
    ModAdd(m, a / m, a % m + b);
  }

  /** `t % (2m)` determines `t % m`. */
  lemma ModDown(m: nat, t: int)
    requires m > 0
    ensures t % (2 * m) % m == t % m
  {
    var q, r := t / (2 * m), t % (2 * m);
    assert t == (2 * m) * q + r;
    assert m * (2 * q) == (2 * m) * q;
    ModAdd(m, 2 * q, r);
  }

  /** Subtracting what was added before. */
  lemma ModOfDifference(m: nat, h: int, a: int)
    requires m > 0
    ensures ((h + a) % m - h) % m == a % m
  {
    ModOfSum(m, h + a, -h);
  }
}
