/** The two portable 64-by-64-bit multiplications, in words that wrap at 2^64: wyhash's `mum`,
    which detects carries by comparison, and Boost's `mulx64`, which splits the middle
    products so that none can occur. */
module WideMultiply {
  import opened Modular
  import opened Powers
  import opened Words

  // ----- halves of a word -----

  function High(x: Word): Word { x / HALF }
  function Low(x: Word): Word { x % HALF }
  /** A shift to the left by 32 bits. */
  function Up(x: Word): Word { x * HALF % WORD }

  /** A product as its low and its high word. */
  datatype Product = Product(lo: Word, hi: Word)

  /** What both words of a product stand for. */
  function Full(p: Product): nat { p.lo + p.hi * WORD }

  /** `wyhash::mum`, without a wide integer type. */
  method Mum(a: Word, b: Word) returns (p: Product)
    ensures Full(p) == a * b && p.lo == a * b % WORD && p.hi == a * b / WORD
  {
    hide Mul, High, Low, Up, Add;
    var ha, hb := High(a), High(b);
    var la, lb := Low(a), Low(b);
    var rh := Mul(ha, hb);
    var rm0 := Mul(ha, lb);
    var rm1 := Mul(hb, la);
    var rl := Mul(la, lb);
    var t := Add(rl, Up(rm0));
    var c: Word := if t < rl then 1 else 0;
    var lo := Add(t, Up(rm1));
    c := Add(c, if lo < t then 1 else 0);
    var hi := Add(Add(Add(rh, High(rm0)), High(rm1)), c);
    HalvesExact(a, b);
    ProductBound(a, b);
    MumExact(rh, rm0, rm1, rl);
    DivModUnique(WORD, hi, lo);
    return Product(lo, hi);
  }

  /** The words that Boost's `mulx64` folds, without a wide integer type. */
  method Mulx(x: Word, y: Word) returns (p: Product)
    ensures Full(p) == x * y && p.lo == x * y % WORD && p.hi == x * y / WORD
  {
    hide Mul, High, Low, Up, Add;
    var x1, x2 := Low(x), High(x);
    var y1, y2 := Low(y), High(y);
    var r3 := Mul(x2, y2);
    var r2a := Mul(x1, y2);
    r3 := Add(r3, High(r2a));
    var r2b := Mul(x2, y1);
    r3 := Add(r3, High(r2b));
    var r1 := Mul(x1, y1);
    var r2 := Add(Add(High(r1), Low(r2a)), Low(r2b));
    HalvesExact(x, y);
    ProductBound(x, y);
    MulxExact(Mul(x2, y2), r2a, r2b, r1);
    r1 := Add(Up(r2), Low(r1));
    r3 := Add(r3, High(r2));
    DivModUnique(WORD, r3, r1);
    return Product(r1, r3);
  }

  /** The sum that the four partial products stand for, and its greatest value. */
  function Total(high: Word, mid0: Word, mid1: Word, low: Word): nat
  {
    high * WORD + (mid0 + mid1) * HALF + low
  }

  const MAX_PRODUCT := (WORD - 1) * (WORD - 1)

  /** The high word of a product is summed up without wrapping. */
  lemma HighSum(a: Word, b: Word, c: Word, d: Word, lo: Word)
    requires lo + (a + b + c + d) * WORD <= MAX_PRODUCT
    ensures Add(Add(Add(a, b), c), d) == a + b + c + d
  {
    hide Wrap;
    WrapSmall(a + b);
    WrapSmall(a + b + c);
    WrapSmall(a + b + c + d);
  }

  /** No carry is lost: with each carry seen by a comparison, both words are right. */
  lemma MumExact(rh: Word, rm0: Word, rm1: Word, rl: Word)
    requires Total(rh, rm0, rm1, rl) <= MAX_PRODUCT
    ensures var t := Add(rl, Up(rm0));
            var lo := Add(t, Up(rm1));
            var c := Add(if t < rl then 1 else 0, if lo < t then 1 else 0);
            lo + Add(Add(Add(rh, High(rm0)), High(rm1)), c) * WORD == Total(rh, rm0, rm1, rl)
  {
    UpReads(rm0);
    UpReads(rm1);
    var t := Add(rl, Up(rm0));
    CarrySeen(rl, Up(rm0));
    CarrySeen(t, Up(rm1));
    var lo := Add(t, Up(rm1));
    var c0: Word, c1: Word := if t < rl then 1 else 0, if lo < t then 1 else 0;
    hide Up, High, Low, Wrap;
    assert lo + (rh + High(rm0) + High(rm1) + c0 + c1) * WORD == Total(rh, rm0, rm1, rl);
    WrapSmall(c0 + c1);
    HighSum(rh, High(rm0), High(rm1), Add(c0, c1), lo);
  }

  /** No carry can occur: the middle products are added up by halves. */
  lemma MulxExact(rh: Word, r2a: Word, r2b: Word, rl: Word)
    requires Total(rh, r2a, r2b, rl) <= MAX_PRODUCT
    ensures var r2 := Add(Add(High(rl), Low(r2a)), Low(r2b));
            Add(Up(r2), Low(rl)) + Add(Add(Add(rh, High(r2a)), High(r2b)), High(r2)) * WORD == Total(rh, r2a, r2b, rl)
  {
    HalfBounds(rl);
    HalfBounds(r2a);
    HalfBounds(r2b);
    var r2 := High(rl) + Low(r2a) + Low(r2b);
    UpReads(r2);
    HalfBounds(r2);
    hide Up, High, Low, Wrap;
    WrapSmall(High(rl) + Low(r2a));
    WrapSmall(r2);
    WrapSmall(Up(r2) + Low(rl));
    assert Up(r2) + Low(rl) + (rh + High(r2a) + High(r2b) + High(r2)) * WORD == Total(rh, r2a, r2b, rl);
    HighSum(rh, High(r2a), High(r2b), High(r2), Up(r2) + Low(rl));
  }

  /** The products of the halves are exact, and make up the whole product. */
  lemma HalvesExact(a: Word, b: Word)
    ensures Mul(Low(a), High(b)) == Mul(High(b), Low(a))
    ensures a * b == Total(Mul(High(a), High(b)), Mul(High(a), Low(b)), Mul(High(b), Low(a)), Mul(Low(a), Low(b)))
  {
    HalfBounds(a);
    HalfBounds(b);
    hide High, Low;
    HalfProduct(High(a), High(b));
    HalfProduct(High(a), Low(b));
    HalfProduct(High(b), Low(a));
    HalfProduct(Low(a), High(b));
    HalfProduct(Low(a), Low(b));
    Expand(High(a), Low(a), High(b), Low(b));
  }

  lemma HalfBounds(a: Word)
    ensures High(a) < HALF && Low(a) < HALF && a == High(a) * HALF + Low(a)
  {
  }

  lemma HalfProduct(x: Word, y: Word)
    requires x < HALF && y < HALF
    ensures Mul(x, y) == x * y == y * x
  {
    hide Wrap;
    BoundedProduct(x, y, HALF - 1);
    WrapSmall(x * y);
  }

  lemma MulOrder(a: nat, b: nat, k: nat)
    requires a <= b
    ensures a * k <= b * k
  {
  }

  lemma BoundedProduct(x: nat, y: nat, m: nat)
    requires x <= m && y <= m
    ensures x * y <= m * m
  {
    MulOrder(x, m, y);
    MulOrder(y, m, m);
  }

  lemma Expand(ha: nat, la: nat, hb: nat, lb: nat)
    ensures (ha * HALF + la) * (hb * HALF + lb) == ha * hb * WORD + (ha * lb + hb * la) * HALF + la * lb
  {
    calc {
      (ha * HALF + la) * (hb * HALF + lb);
      (ha * HALF) * (hb * HALF + lb) + la * (hb * HALF + lb);
      (ha * HALF) * (hb * HALF) + (ha * HALF) * lb + la * (hb * HALF) + la * lb;
      { assert (ha * HALF) * (hb * HALF) == ha * hb * (HALF * HALF); assert la * (hb * HALF) == hb * la * HALF; }
      ha * hb * WORD + (ha * lb + hb * la) * HALF + la * lb;
    }
  }

  lemma UpReads(x: Word)
    ensures Up(x) == Low(x) * HALF && x == High(x) * HALF + Low(x)
  {
  }

  /** A sum that has wrapped is less than its first summand, and only then. */
  lemma CarrySeen(x: Word, y: Word)
    ensures x + y == Add(x, y) + if Add(x, y) < x then WORD else 0
  {
  }

  lemma ProductBound(a: Word, b: Word)
    ensures a * b <= MAX_PRODUCT
  {
    BoundedProduct(a, b, WORD - 1);
  }

  // ----- the mixers -----

  /** The low and high words of a number below 2^128 are unique. */
  lemma WordsUnique(p: Product, q: Product)
    requires Full(p) == Full(q)
    ensures p == q
  {
    OneRepresentation(WORD, if p.hi <= q.hi then p.hi else q.hi, if p.hi <= q.hi then p.lo else q.lo,
                      if p.hi <= q.hi then q.hi else p.hi, if p.hi <= q.hi then q.lo else p.lo);
  }

  /** The words of the product, by definition. */
  function ProductOf(x: Word, y: Word): Product
  {
    ProductBound(x, y);
    Product(x * y % WORD, x * y / WORD)
  }

  /** Every bit of a mixed word tells whether the two words of the product differ in it. */
  lemma MixedBits(x: Word, y: Word)
    ensures forall k: nat :: Pow2(k) > 0 &&
              Xor(ProductOf(x, y).lo, ProductOf(x, y).hi) / Pow2(k) % 2
              == (x * y % WORD / Pow2(k) % 2 + x * y / WORD / Pow2(k) % 2) % 2
  {
    hide Pow2, Xor;
    forall k: nat
      ensures Pow2(k) > 0
      ensures Xor(ProductOf(x, y).lo, ProductOf(x, y).hi) / Pow2(k) % 2
              == (x * y % WORD / Pow2(k) % 2 + x * y / WORD / Pow2(k) % 2) % 2
    {
      XorBits(ProductOf(x, y).lo, ProductOf(x, y).hi, k);
    }
  }

  method Mix(a: Word, b: Word) returns (r: nat)
    ensures r == Xor(ProductOf(a, b).lo, ProductOf(a, b).hi)
    ensures forall k: nat :: Pow2(k) > 0 &&
              r / Pow2(k) % 2 == (a * b % WORD / Pow2(k) % 2 + a * b / WORD / Pow2(k) % 2) % 2
  {
    hide Xor, Pow2;
    var p := Mum(a, b);
    WordsUnique(p, ProductOf(a, b));
    MixedBits(a, b);
    return Xor(p.lo, p.hi);
  }

  method Mulx64(x: Word, y: Word) returns (r: nat)
    ensures r == Xor(ProductOf(x, y).lo, ProductOf(x, y).hi)
    ensures forall k: nat :: Pow2(k) > 0 &&
              r / Pow2(k) % 2 == (x * y % WORD / Pow2(k) % 2 + x * y / WORD / Pow2(k) % 2) % 2
  {
    hide Xor, Pow2;
    var p := Mulx(x, y);
    WordsUnique(p, ProductOf(x, y));
    MixedBits(x, y);
    return Xor(p.lo, p.hi);
  }

  /** Both libraries mix two words to the same hash code, the exclusive or of the words of
      their exact product. */
  method MixersAgree(x: Word, y: Word) returns (mixed: nat, folded: nat)
    ensures mixed == folded == Xor(ProductOf(x, y).lo, ProductOf(x, y).hi)
    ensures forall k: nat :: Pow2(k) > 0 &&
              mixed / Pow2(k) % 2 == (x * y % WORD / Pow2(k) % 2 + x * y / WORD / Pow2(k) % 2) % 2
  {
    hide Pow2, Xor;
    mixed := Mix(x, y);
    folded := Mulx64(x, y);
  }
}
