/** The benchmarks' own key material: the hash function of the integer keys, and the string
    keys. */
module Blueprints {
  import opened Modular
  import opened Powers
  import opened Words

  // ----- the 64-bit finalizer -----

  function XorShift(x: Word): (y: Word)
  {
    XorShiftBound(x);
    Xor(x, ShiftRight(x, 33))
  }

  lemma XorShiftBound(x: Word)
    ensures Xor(x, ShiftRight(x, 33)) < WORD
  {
    hide Pow2, Xor, ShiftRight;
    Pow64();
    ShiftDivides(x, 33);
    XorBound(x, ShiftRight(x, 33), 64);
  }

  const FACTOR1: Word := 0xff51_afd7_ed55_8ccd
  const FACTOR2: Word := 0xc4ce_b9fe_1a85_ec53

  /** The multiplicative inverses of the two factors modulo 2^64. */
  const INVERSE1: Word := 0x4f74_430c_22a5_4005
  const INVERSE2: Word := 0x9cb4_b2f8_1293_37db

  function HashKey(key: Word): Word
  {
    XorShift(Mul(XorShift(Mul(XorShift(key), FACTOR1)), FACTOR2))
  }

  lemma Pow33()
    ensures Pow2(33) == 0x2_0000_0000
  {
    Pow64();
    PowSplits(16, 16);
    assert Pow2(8) == 256;
    PowSplits(8, 8);
  }

  lemma FirstShift()
    ensures XorShift(1) == 1
  {
    hide Xor, Pow2, ShiftRight;
    Pow33();
    ShiftDivides(1, 33);
    XorZero(1);
  }

  lemma SecondShift()
    ensures XorShift(0xff51afd7ed558ccd) == 0xff51afd792fd5b26
  {
    hide Xor, Pow2, ShiftRight;
    Pow33();
    ShiftDivides(0xff51afd7ed558ccd, 33);
    XorZero(0xff51afd7);
    XorDigit(0xff51afd7, 0x0, 1, 1, 1, 0, 0, 1, 1, 1);
    XorDigit(0xff51afd7e, 0x7, 1, 1, 0, 1, 1, 1, 1, 1);
    XorDigit(0xff51afd7ed, 0x7f, 0, 1, 0, 1, 1, 0, 1, 0);
    XorDigit(0xff51afd7ed5, 0x7fa, 0, 1, 0, 1, 1, 0, 0, 0);
    XorDigit(0xff51afd7ed55, 0x7fa8, 1, 0, 0, 0, 1, 1, 0, 1);
    XorDigit(0xff51afd7ed558, 0x7fa8d, 1, 1, 0, 0, 0, 1, 1, 1);
    XorDigit(0xff51afd7ed558c, 0x7fa8d7, 1, 1, 0, 0, 1, 1, 1, 0);
    XorDigit(0xff51afd7ed558cc, 0x7fa8d7e, 1, 1, 0, 1, 1, 0, 1, 1);
  }

  lemma ThirdShift()
    ensures XorShift(0xb456bcfc6ee99552) == 0xb456bcfc34c2cb2c
  {
    hide Xor, Pow2, ShiftRight;
    Pow33();
    ShiftDivides(0xb456bcfc6ee99552, 33);
    XorZero(0xb456bcfc);
    XorDigit(0xb456bcfc, 0x0, 0, 1, 1, 0, 0, 1, 0, 1);
    XorDigit(0xb456bcfc6, 0x5, 1, 1, 1, 0, 1, 0, 1, 0);
    XorDigit(0xb456bcfc6e, 0x5a, 1, 1, 1, 0, 0, 0, 1, 0);
    XorDigit(0xb456bcfc6ee, 0x5a2, 1, 0, 0, 1, 1, 0, 1, 1);
    XorDigit(0xb456bcfc6ee9, 0x5a2b, 1, 0, 0, 1, 0, 1, 0, 1);
    XorDigit(0xb456bcfc6ee99, 0x5a2b5, 0, 1, 0, 1, 1, 1, 1, 0);
    XorDigit(0xb456bcfc6ee995, 0x5a2b5e, 0, 1, 0, 1, 0, 1, 1, 1);
    XorDigit(0xb456bcfc6ee9955, 0x5a2b5e7, 0, 0, 1, 0, 1, 1, 1, 0);
  }

  /** A known answer of the finalizer. */
  lemma KnownAnswer()
    ensures HashKey(1) == 0xb456_bcfc_34c2_cb2c
  {
    hide XorShift;
    FirstShift();
    SecondShift();
    ThirdShift();
    assert Mul(0x1, FACTOR1) == 0xff51afd7ed558ccd;
    assert Mul(0xff51afd792fd5b26, FACTOR2) == 0xb456bcfc6ee99552;
  }

  /** Undoes `HashKey`, step by step in the opposite order. */
  function Unhash(h: Word): Word
  {
    XorShift(Mul(XorShift(Mul(XorShift(h), INVERSE2)), INVERSE1))
  }

  lemma XorShiftInvolution(x: Word)
    ensures XorShift(XorShift(x)) == x
  {
    hide Pow2, Xor, ShiftRight;
    var s := ShiftRight(x, 33);
    ShiftOfXor(x, s, 33);
    ShiftTwice(x, 33, 33);
    Pow64();
    PowMonotone(64, 66);
    ShiftedOut(x, 66);
    XorZero(s);
    XorCancels(x, s);
  }

  /** The hash function has a two-sided inverse. */
  lemma HashIsInvertible(x: Word)
    ensures Unhash(HashKey(x)) == x && HashKey(Unhash(x)) == x
  {
    hide XorShift, Mul;
    var a := XorShift(x);
    var b := XorShift(Mul(a, FACTOR1));
    XorShiftInvolution(x);
    XorShiftInvolution(Mul(a, FACTOR1));
    XorShiftInvolution(Mul(b, FACTOR2));
    MulCancels(a, FACTOR1, INVERSE1);
    MulCancels(b, FACTOR2, INVERSE2);
    var c := XorShift(Mul(a, INVERSE2));
    XorShiftInvolution(Mul(a, INVERSE2));
    XorShiftInvolution(Mul(c, INVERSE1));
    MulCancels(a, INVERSE2, FACTOR2);
    MulCancels(c, INVERSE1, FACTOR1);
  }

  /** Distinct integer keys have distinct hash codes. */
  lemma HashIsInjective(x: Word, y: Word)
    requires x != y
    ensures HashKey(x) != HashKey(y)
  {
    hide HashKey, Unhash;
    HashIsInvertible(x);
    HashIsInvertible(y);
  }

  // ----- the string keys -----

  /** The length of a key, the terminating zero included, and its letters' codes. */
  const STRING_LENGTH := 16
  const LETTER_A: nat := 97
  const LETTER_Z: nat := 122

  /** The first `n` letters for `i`: its digits to the base 26, the lowest one first. */
  function Numeral(i: nat, n: nat): (s: seq<nat>)
    ensures |s| == n
  {
    if n == 0 then [] else [LETTER_A + i % 26] + Numeral(i / 26, n - 1)
  }

  function KeyString(i: nat): (s: seq<nat>)
    ensures |s| == STRING_LENGTH
  {
    Numeral(i, STRING_LENGTH - 1) + [0]
  }

  function As(n: nat): (s: seq<nat>)
    ensures |s| == n
  {
    seq(n, _ => LETTER_A)
  }

  /** `i + 1` has the same digits as `i` above a position where no carry arrives. */
  lemma NumeralStep(q: nat, n: nat)
    requires n > 0
    ensures Numeral(q, n)[0] == LETTER_A + q % 26
    ensures q % 26 < 25 ==> Numeral(q + 1, n) == Numeral(q, n)[0 := LETTER_A + q % 26 + 1]
    ensures q % 26 == 25 ==> Numeral(q + 1, n) == [LETTER_A] + Numeral(q / 26 + 1, n - 1)
    ensures Numeral(q, n)[1..] == Numeral(q / 26, n - 1)
  {
    if q % 26 < 25 {
      assert (q + 1) / 26 == q / 26 && (q + 1) % 26 == q % 26 + 1;
    } else {
      assert (q + 1) / 26 == q / 26 + 1 && (q + 1) % 26 == 0;
    }
  }

  lemma {:induction false} ZeroNumeral(n: nat)
    ensures Numeral(0, n) == As(n)
  {
    if n > 0 {
      ZeroNumeral(n - 1);
    }
  }

  /** What the buffer holds while the carry is at position `j`: the letters below it have
      wrapped around, the others still show the digits of `q`. */
  function Carrying(j: nat, q: nat): seq<nat>
    requires j <= STRING_LENGTH - 1
  {
    As(j) + Numeral(q, STRING_LENGTH - 1 - j) + [0]
  }

  lemma CarryStep(j: nat, q: nat)
    requires j < STRING_LENGTH - 1
    ensures |Carrying(j, q)| == STRING_LENGTH && Carrying(j, q)[j] == LETTER_A + q % 26
    ensures q % 26 < 25 ==> Carrying(j, q + 1) == Carrying(j, q)[j := Carrying(j, q)[j] + 1]
    ensures q % 26 == 25 ==> Carrying(j, q)[j := LETTER_A] == Carrying(j + 1, q / 26)
    ensures q % 26 == 25 ==> Carrying(j, q + 1) == Carrying(j + 1, q / 26 + 1)
  {
    hide Numeral;
    var n := STRING_LENGTH - 1 - j;
    NumeralStep(q, n);
    assert As(j + 1) == As(j) + [LETTER_A];
    assert Numeral(q, n) == [LETTER_A + q % 26] + Numeral(q / 26, n - 1);
  }

  /** Advances the letters in `current` like an odometer. */
  method Advance(current: array<nat>, ghost i: nat)
    requires current.Length == STRING_LENGTH && current[..] == KeyString(i)
    modifies current
    ensures current[..] == KeyString(i + 1)
  {
    hide Numeral, Carrying;
    CarryStart(i);
    CarryStart(i + 1);
    var j := 0;
    ghost var q := i;
    while j < STRING_LENGTH - 1
      invariant j <= STRING_LENGTH - 1 && current[..] == Carrying(j, q) && Carrying(j, q + 1) == KeyString(i + 1)
    {
      CarryStep(j, q);
      assert current[j] == current[..][j];
      ghost var before := current[..];
      current[j] := current[j] + 1;
      assert current[..] == before[j := before[j] + 1];
      if current[j] <= LETTER_Z {
        return;
      }
      current[j] := LETTER_A;
      assert current[..] == before[j := LETTER_A];
      j := j + 1;
      q := q / 26;
    }
    CarryEnd(q);
    CarryEnd(q + 1);
  }

  lemma CarryStart(i: nat)
    ensures Carrying(0, i) == KeyString(i)
  {
    hide Numeral;
    assert As(0) == [];
  }

  lemma CarryEnd(q: nat)
    ensures Carrying(STRING_LENGTH - 1, q) == As(STRING_LENGTH - 1) + [0]
  {
  }

  /** The first `n` strings, one after the other. */
  function AllKeys(n: nat): (s: seq<nat>)
    ensures |s| == STRING_LENGTH * n
  {
    if n == 0 then [] else AllKeys(n - 1) + KeyString(n - 1)
  }

  lemma {:induction false} AllKeysAt(n: nat, i: nat)
    requires i < n
    ensures AllKeys(n)[STRING_LENGTH * i..STRING_LENGTH * (i + 1)] == KeyString(i)
  {
    hide KeyString;
    if i < n - 1 {
      AllKeysAt(n - 1, i);
    }
  }

  /** Fills `keys` with the positions, in one block of memory, of the strings that number
      them. */
  method FillUniqueKeys(keys: array<nat>) returns (backing: array<nat>)
    modifies keys
    ensures backing.Length == STRING_LENGTH * keys.Length
    ensures forall i | 0 <= i < keys.Length ::
              keys[i] == STRING_LENGTH * i && backing[STRING_LENGTH * i..STRING_LENGTH * (i + 1)] == KeyString(i)
  {
    hide Numeral, KeyString, AllKeys;
    backing := new nat[STRING_LENGTH * keys.Length];
    var current := new nat[STRING_LENGTH](j => if j < STRING_LENGTH - 1 then LETTER_A else 0);
    FirstKey(current[..]);
    var i := 0;
    NoKeysYet();
    while i < keys.Length
      invariant i <= keys.Length && current[..] == KeyString(i) && backing[..STRING_LENGTH * i] == AllKeys(i)
      invariant forall k | 0 <= k < i :: keys[k] == STRING_LENGTH * k
    {
      keys[i] := STRING_LENGTH * i;
      NextKey(i);
      CopyTo(backing, keys[i], current);
      Advance(current, i);
      i := i + 1;
    }
    assert backing[..] == AllKeys(keys.Length);
    forall k | 0 <= k < keys.Length ensures backing[STRING_LENGTH * k..STRING_LENGTH * (k + 1)] == KeyString(k) {
      AllKeysAt(keys.Length, k);
    }
  }

  lemma NoKeysYet()
    ensures AllKeys(0) == []
  {
  }

  lemma NextKey(i: nat)
    ensures AllKeys(i + 1) == AllKeys(i) + KeyString(i)
  {
  }

  /** Copies one string into the block. */
  method CopyTo(backing: array<nat>, at: nat, current: array<nat>)
    requires current.Length == STRING_LENGTH && at + STRING_LENGTH <= backing.Length && backing != current
    modifies backing
    ensures backing[..at + STRING_LENGTH] == old(backing[..at]) + current[..]
  {
    forall j | 0 <= j < STRING_LENGTH {
      backing[at + j] := current[j];
    }
  }

  lemma FirstKey(s: seq<nat>)
    requires |s| == STRING_LENGTH && s[STRING_LENGTH - 1] == 0
    requires forall j | 0 <= j < STRING_LENGTH - 1 :: s[j] == LETTER_A
    ensures s == KeyString(0)
  {
    hide Numeral;
    ZeroNumeral(STRING_LENGTH - 1);
  }

  // ----- distinctness -----

  function Pow26(n: nat): nat
  {
    if n == 0 then 1 else 26 * Pow26(n - 1)
  }

  lemma {:induction false} NumeralInjective(i: nat, k: nat, n: nat)
    requires i < Pow26(n) && k < Pow26(n) && Numeral(i, n) == Numeral(k, n)
    ensures i == k
  {
    if n > 0 {
      assert Numeral(i, n)[0] == Numeral(k, n)[0];
      assert Numeral(i, n)[1..] == Numeral(i / 26, n - 1) && Numeral(k, n)[1..] == Numeral(k / 26, n - 1);
      NumeralInjective(i / 26, k / 26, n - 1);
    }
  }

  lemma {:induction false} NumeralWraps(i: nat, n: nat)
    ensures Numeral(i + Pow26(n), n) == Numeral(i, n)
  {
    if n > 0 {
      assert (i + Pow26(n)) / 26 == i / 26 + Pow26(n - 1) && (i + Pow26(n)) % 26 == i % 26;
      NumeralWraps(i / 26, n - 1);
    }
  }

  /** The first `size` strings are distinct if and only if there are at most 26^15 of them. */
  lemma KeysDistinct(size: nat)
    ensures (forall i, k | 0 <= i < k < size :: KeyString(i) != KeyString(k)) <==> size <= 1677259342285725925376
  {
    LimitOfKeys();
    hide Numeral, Pow26;
    var letters := STRING_LENGTH - 1;
    if size <= Pow26(letters) {
      forall i, k | 0 <= i < k < size ensures KeyString(i) != KeyString(k) {
        assert KeyString(i)[..letters] == Numeral(i, letters) && KeyString(k)[..letters] == Numeral(k, letters);
        if Numeral(i, letters) == Numeral(k, letters) {
          NumeralInjective(i, k, letters);
        }
      }
    } else {
      NumeralWraps(0, letters);
      PowPositive26(letters);
      assert KeyString(0) == KeyString(0 + Pow26(letters));
    }
  }

  lemma {:induction false} PowPositive26(n: nat)
    ensures Pow26(n) > 0
  {
    if n > 0 {
      PowPositive26(n - 1);
    }
  }

  lemma LimitOfKeys()
    ensures Pow26(STRING_LENGTH - 1) == 1677259342285725925376
  {
    assert Pow26(3) == 17576;
    assert Pow26(6) == 308915776;
    assert Pow26(9) == 5429503678976;
    assert Pow26(12) == 95428956661682176;
    assert Pow26(15) == 1677259342285725925376;
  }

  lemma DivTwice26(i: nat, m: nat)
    requires m > 0
    ensures i / 26 / m == i / (26 * m)
  {
    var q, t := i / 26 / m, i / 26 % m;
    assert i == 26 * (m * q + t) + i % 26;
    assert 26 * (m * q + t) == (26 * m) * q + 26 * t;
    DivModUnique(26 * m, q, 26 * t + i % 26);
  }

  /** The letters of key `i` are the digits of `i` to the base 26, 'a' for 0, the lowest
      digit first; a zero ends the string. */
  lemma {:induction false} NumeralLetters(i: nat, n: nat, k: nat)
    requires k < n
    ensures Pow26(k) > 0 && Numeral(i, n)[k] == 97 + i / Pow26(k) % 26
  {
    PowPositive26(k);
    if k > 0 {
      NumeralLetters(i / 26, n - 1, k - 1);
      DivTwice26(i, Pow26(k - 1));
    }
  }

  lemma KeyLetters(i: nat, k: nat)
    requires k < 16
    ensures Pow26(k) > 0 && KeyString(i)[k] == if k == 15 then 0 else 97 + i / Pow26(k) % 26
  {
    hide Numeral, Pow26;
    PowPositive26(k);
    if k < 15 {
      NumeralLetters(i, 15, k);
    }
  }
}
