/** 64-bit words as numbers: arithmetic that wraps at 2^64, shifts, and exclusive or. */
module Words {
  import opened Modular
  import opened Powers
  import opened Triangular

  const HALF: nat := 0x1_0000_0000
  const WORD: nat := 0x1_0000_0000_0000_0000

  type Word = w: nat | w < WORD

  function Wrap(t: nat): Word { t % WORD }
  function Add(x: Word, y: Word): Word { Wrap(x + y) }
  function Mul(x: Word, y: Word): Word { Wrap(x * y) }

  lemma WrapSmall(t: nat)
    requires t < WORD
    ensures Wrap(t) == t
  {
  }

  /** Multiplying by a factor and then by its inverse modulo 2^64 changes nothing. */
  lemma MulCancels(x: Word, c: Word, d: Word)
    requires c * d % WORD == 1
    ensures Mul(Mul(x, c), d) == x
  {
    var q, k := x * c / WORD, c * d / WORD;
    assert Mul(x, c) == x * c - WORD * q;
    assert Mul(x, c) * d == WORD * (x * k - q * d) + x by {
      calc {
        Mul(x, c) * d;
        (x * c - WORD * q) * d;
        x * c * d - WORD * q * d;
        { assert x * c * d == x * (c * d) == x * (WORD * k + 1) == WORD * (x * k) + x; assert WORD * q * d == WORD * (q * d); }
        WORD * (x * k) + x - WORD * (q * d);
        WORD * (x * k - q * d) + x;
      }
    }
    DivModUnique(WORD, x * k - q * d, x);
  }

  // ----- exclusive or, bit by bit -----

  function Xor(a: nat, b: nat): nat
  {
    if a == 0 && b == 0 then 0
    else 2 * Xor(a / 2, b / 2) + if a % 2 == b % 2 then 0 else 1
  }

  lemma {:induction false} XorZero(a: nat)
    ensures Xor(a, 0) == a
  {
    if a > 0 {
      XorZero(a / 2);
    }
  }

  lemma {:induction false} XorCancels(a: nat, b: nat)
    ensures Xor(Xor(a, b), b) == a
  {
    if a > 0 || b > 0 {
      XorCancels(a / 2, b / 2);
    }
  }

  lemma XorLowBit(a: nat, b: nat)
    ensures Xor(a, b) % 2 == (a % 2 + b % 2) % 2
  {
  }

  lemma AndLowBit(a: nat, b: nat)
    ensures And(a, b) % 2 == (a % 2) * (b % 2)
  {
  }

  /** Each bit of an exclusive or tells whether the operands differ in it. */
  lemma XorBits(a: nat, b: nat, k: nat)
    ensures Pow2(k) > 0 && Xor(a, b) / Pow2(k) % 2 == (a / Pow2(k) % 2 + b / Pow2(k) % 2) % 2
  {
    hide Pow2, ShiftRight, Xor;
    ShiftOfXor(a, b, k);
    XorLowBit(ShiftRight(a, k), ShiftRight(b, k));
    ShiftDivides(a, k);
    ShiftDivides(b, k);
    ShiftDivides(Xor(a, b), k);
  }

  /** The bits determine a number. */
  lemma {:induction false} BitsDetermine(a: nat, b: nat)
    requires forall k: nat :: ShiftRight(a, k) % 2 == ShiftRight(b, k) % 2
    ensures a == b
    decreases a + b
  {
    assert ShiftRight(a, 0) == a && ShiftRight(b, 0) == b;
    if a > 0 || b > 0 {
      forall k: nat ensures ShiftRight(a / 2, k) % 2 == ShiftRight(b / 2, k) % 2 {
        assert ShiftRight(a, k + 1) == ShiftRight(a / 2, k) && ShiftRight(b, k + 1) == ShiftRight(b / 2, k);
      }
      BitsDetermine(a / 2, b / 2);
    }
  }

  /** Exclusive or works bit by bit, from the lowest. */
  lemma XorBit(a: nat, b: nat, c: nat, d: nat)
    requires c < 2 && d < 2
    ensures Xor(2 * a + c, 2 * b + d) == 2 * Xor(a, b) + Differ(c, d)
  {
    assert (2 * a + c) / 2 == a && (2 * b + d) / 2 == b;
  }

  function Differ(c: nat, d: nat): nat
  {
    if c == d then 0 else 1
  }

  /** Exclusive or of numbers that end in a given hexadecimal digit each. */
  lemma XorDigit(a: nat, b: nat, c3: nat, c2: nat, c1: nat, c0: nat, d3: nat, d2: nat, d1: nat, d0: nat)
    requires c3 < 2 && c2 < 2 && c1 < 2 && c0 < 2 && d3 < 2 && d2 < 2 && d1 < 2 && d0 < 2
    ensures Xor(16 * a + 8 * c3 + 4 * c2 + 2 * c1 + c0, 16 * b + 8 * d3 + 4 * d2 + 2 * d1 + d0)
            == 16 * Xor(a, b) + 8 * Differ(c3, d3) + 4 * Differ(c2, d2) + 2 * Differ(c1, d1) + Differ(c0, d0)
  {
    hide Xor;
    XorBit(a, b, c3, d3);
    XorBit(2 * a + c3, 2 * b + d3, c2, d2);
    XorBit(4 * a + 2 * c3 + c2, 4 * b + 2 * d3 + d2, c1, d1);
    XorBit(8 * a + 4 * c3 + 2 * c2 + c1, 8 * b + 4 * d3 + 2 * d2 + d1, c0, d0);
  }

  // ----- masks, bit by bit -----

  function And(a: nat, b: nat): nat
  {
    if a == 0 || b == 0 then 0
    else 2 * And(a / 2, b / 2) + if a % 2 == 1 && b % 2 == 1 then 1 else 0
  }

  lemma {:induction false} ShiftOfAnd(a: nat, b: nat, k: nat)
    ensures ShiftRight(And(a, b), k) == And(ShiftRight(a, k), ShiftRight(b, k))
  {
    if k > 0 {
      assert And(a, b) / 2 == And(a / 2, b / 2);
      ShiftOfAnd(a / 2, b / 2, k - 1);
    }
  }

  /** Each bit of a mask expression is set if it is set in both operands. */
  lemma AndBits(a: nat, b: nat, k: nat)
    ensures Pow2(k) > 0 && And(a, b) / Pow2(k) % 2 == (a / Pow2(k) % 2) * (b / Pow2(k) % 2)
  {
    hide Pow2, ShiftRight, And;
    ShiftOfAnd(a, b, k);
    AndLowBit(ShiftRight(a, k), ShiftRight(b, k));
    ShiftDivides(a, k);
    ShiftDivides(b, k);
    ShiftDivides(And(a, b), k);
  }

  /** Masking with a power of two less one is taking the remainder. */
  lemma {:induction false} MaskIsRemainder(h: nat, n: nat)
    requires IsPow2(n)
    ensures And(h, n - 1) == h % n
  {
    if n > 1 {
      MaskIsRemainder(h / 2, n / 2);
      HalfRemainder(h, n / 2);
      assert (n - 1) / 2 == n / 2 - 1 && (n - 1) % 2 == 1;
    }
  }

  lemma HalfRemainder(h: nat, m: nat)
    requires m > 0
    ensures h % (2 * m) == 2 * (h / 2 % m) + h % 2
  {
    var q, t := h / 2 / m, h / 2 % m;
    assert h == 2 * (m * q + t) + h % 2;
    assert 2 * (m * q + t) == (2 * m) * q + 2 * t;
    DivModUnique(2 * m, q, 2 * t + h % 2);
  }

  lemma {:induction false} XorBound(a: nat, b: nat, n: nat)
    requires a < Pow2(n) && b < Pow2(n)
    ensures Xor(a, b) < Pow2(n)
  {
    if n > 0 {
      XorBound(a / 2, b / 2, n - 1);
    }
  }

  function ShiftRight(a: nat, k: nat): nat
  {
    if k == 0 then a else ShiftRight(a / 2, k - 1)
  }

  lemma {:induction false} ShiftOfXor(a: nat, b: nat, k: nat)
    ensures ShiftRight(Xor(a, b), k) == Xor(ShiftRight(a, k), ShiftRight(b, k))
  {
    if k > 0 {
      assert Xor(a, b) / 2 == Xor(a / 2, b / 2);
      ShiftOfXor(a / 2, b / 2, k - 1);
    }
  }

  lemma {:induction false} ShiftedOut(a: nat, k: nat)
    requires a < Pow2(k)
    ensures ShiftRight(a, k) == 0
  {
    if k > 0 {
      ShiftedOut(a / 2, k - 1);
    }
  }

  lemma {:induction false} ShiftTwice(a: nat, j: nat, k: nat)
    ensures ShiftRight(ShiftRight(a, j), k) == ShiftRight(a, j + k)
  {
    if j > 0 {
      ShiftTwice(a / 2, j - 1, k);
    }
  }

  /** A shift is a division by a power of two, and shrinks its operand. */
  lemma {:induction false} ShiftDivides(a: nat, k: nat)
    ensures Pow2(k) > 0 && ShiftRight(a, k) == a / Pow2(k) && ShiftRight(a, k) <= a
  {
    PowPositive(k);
    if k > 0 {
      ShiftDivides(a / 2, k - 1);
      DivideTwice(a, Pow2(k - 1));
    }
  }

  lemma DivideTwice(a: nat, m: nat)
    requires m > 0
    ensures a / 2 / m == a / (2 * m)
  {
    var q, r := a / 2 / m, a / 2 % m;
    assert a == 2 * (m * q + r) + a % 2;
    assert 2 * (m * q + r) == (2 * m) * q + 2 * r;
    DivModUnique(2 * m, q, 2 * r + a % 2);
  }
}
