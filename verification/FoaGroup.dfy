/** Boost's non-SIMD `group15`: sixteen bytes, one per slot and an overflow byte, stored bit
    by bit across two 64-bit words so that all slots can be compared at once. Bit `i` of the
    byte at position `pos` is bit `pos` of the `i`-th 16-bit lane. */
module FoaGroup {

  datatype Group = Group(m0: bv64, m1: bv64)

  const AVAILABLE: bv64 := 0
  const SENTINEL: bv64 := 1
  /** The position of the overflow byte, and the one of the last slot. */
  const OVERFLOW: bv64 := 15
  const LAST_SLOT: bv64 := 14

  /** The four bits that a word holds for position `pos`. */
  function Nibble(x: bv64, pos: bv64): bv64
    requires pos < 16
  {
    var y := x >> pos;
    (y & 1) | ((y >> 15) & 2) | ((y >> 30) & 4) | ((y >> 45) & 8)
  }

  /** The byte at `pos`: the plain view of a group. */
  function Byte(g: Group, pos: bv64): bv64
    requires pos < 16
  {
    Join(Nibble(g.m0, pos), Nibble(g.m1, pos))
  }

  function Lo(n: bv64): bv64 { n & 0xF }
  function Hi(n: bv64): bv64 { n >> 4 }
  function Join(lo: bv64, hi: bv64): bv64 { lo | (hi << 4) }

  // ----- the lookup tables of the source -----

  const MASK: seq<bv64> := [
    0x0000000000000000, 0x0000000000000001, 0x0000000000010000, 0x0000000000010001,
    0x0000000100000000, 0x0000000100000001, 0x0000000100010000, 0x0000000100010001,
    0x0001000000000000, 0x0001000000000001, 0x0001000000010000, 0x0001000000010001,
    0x0001000100000000, 0x0001000100000001, 0x0001000100010000, 0x0001000100010001]

  const IMASK: seq<bv64> := [
    0x0001000100010001, 0x0001000100010000, 0x0001000100000001, 0x0001000100000000,
    0x0001000000010001, 0x0001000000010000, 0x0001000000000001, 0x0001000000000000,
    0x0000000100010001, 0x0000000100010000, 0x0000000100000001, 0x0000000100000000,
    0x0000000000010001, 0x0000000000010000, 0x0000000000000001, 0x0000000000000000]

  const LANES: seq<bv64> := [
    0x0000000000000000, 0x000000000000ffff, 0x00000000ffff0000, 0x00000000ffffffff,
    0x0000ffff00000000, 0x0000ffff0000ffff, 0x0000ffffffff0000, 0x0000ffffffffffff,
    0xffff000000000000, 0xffff00000000ffff, 0xffff0000ffff0000, 0xffff0000ffffffff,
    0xffffffff00000000, 0xffffffff0000ffff, 0xffffffffffff0000, 0xffffffffffffffff]

  /** One bit per lane: what the table entry for `n` looks like. */
  function Spread(n: bv64): bv64
  {
    (n & 1) | ((n & 2) << 15) | ((n & 4) << 30) | ((n & 8) << 45)
  }

  /** Whole lanes: what the comparison table's entry for `n` looks like. */
  function Fill(n: bv64): bv64
  {
    (if n & 1 == 0 then 0 else 0xffff) | (if n & 2 == 0 then 0 else 0xffff_0000)
    | (if n & 4 == 0 then 0 else 0xffff_0000_0000) | (if n & 8 == 0 then 0 else 0xffff_0000_0000_0000)
  }

  function TableEntry(table: seq<bv64>, n: bv64): bv64
    requires |table| == 16 && n < 16
  {
    if n == 0 then table[0] else if n == 1 then table[1] else if n == 2 then table[2]
    else if n == 3 then table[3] else if n == 4 then table[4] else if n == 5 then table[5]
    else if n == 6 then table[6] else if n == 7 then table[7] else if n == 8 then table[8]
    else if n == 9 then table[9] else if n == 10 then table[10] else if n == 11 then table[11]
    else if n == 12 then table[12] else if n == 13 then table[13] else if n == 14 then table[14]
    else table[15]
  }

  lemma MaskTable(n: bv64)
    requires n < 16
    ensures TableEntry(MASK, n) == Spread(n)
  {
  }

  lemma IMaskTable(n: bv64)
    requires n < 16
    ensures TableEntry(IMASK, n) == Spread(15 - n)
  {
  }

  lemma LanesTable(n: bv64)
    requires n < 16
    ensures TableEntry(LANES, n) == Fill(n)
  {
  }

  // ----- writing a byte -----

  function SetNibble(x: bv64, pos: bv64, n: bv64): bv64
    requires pos < 16 && n < 16
  {
    (x | (TableEntry(MASK, n) << pos)) & !(TableEntry(IMASK, n) << pos)
  }

  function SetImpl(g: Group, pos: bv64, n: bv64): Group
    requires pos < 16 && n < 256
  {
    Group(SetNibble(g.m0, pos, Lo(n)), SetNibble(g.m1, pos, Hi(n)))
  }

  lemma SetNibbleReads(x: bv64, pos: bv64, n: bv64, q: bv64)
    requires pos < 16 && n < 16 && q < 16
    ensures Nibble(SetNibble(x, pos, n), q) == if q == pos then n else Nibble(x, q)
  {
    hide TableEntry;
    MaskTable(n);
    IMaskTable(n);
  }

  lemma Halves(n: bv64)
    requires n < 256
    ensures Lo(n) < 16 && Hi(n) < 16 && Join(Lo(n), Hi(n)) == n
  {
  }

  /** Setting a byte sets that byte and no other. */
  lemma SetImplReads(g: Group, pos: bv64, n: bv64, q: bv64)
    requires pos < 16 && n < 256 && q < 16
    ensures Byte(SetImpl(g, pos, n), q) == if q == pos then n else Byte(g, q)
  {
    hide Nibble, SetNibble, Lo, Hi, Join;
    Halves(n);
    SetNibbleReads(g.m0, pos, Lo(n), q);
    SetNibbleReads(g.m1, pos, Hi(n), q);
  }

  // ----- reduced hashes -----

  /** The low byte of a hash with the two special values mapped away: 0 marks an available
      slot and 1 the sentinel. */
  function ReducedHash(hash: bv64): bv64
  {
    var b := hash & 0xFF;
    if b == 0 then 8 else if b == 1 then 9 else b
  }

  /** A reduced hash is a byte, is neither special value, and keeps the hash modulo 8. */
  lemma ReducedHashProperties(hash: bv64)
    ensures ReducedHash(hash) != AVAILABLE && ReducedHash(hash) != SENTINEL && ReducedHash(hash) < 256
    ensures ReducedHash(hash) & 7 == hash & 7
  {
  }

  /** The reduced hash is the low byte, with 8 and 9 in place of 0 and 1. */
  lemma ReducedHashMeans(hash: bv64)
    ensures hash & 0xFF > 1 ==> ReducedHash(hash) == hash & 0xFF
    ensures hash & 0xFF == 0 ==> ReducedHash(hash) == 8
    ensures hash & 0xFF == 1 ==> ReducedHash(hash) == 9
  {
  }

  // ----- comparing all slots at once -----

  /** Bit `pos` of a match result. */
  predicate HasBit(mask: bv64, pos: bv64)
    requires pos < 64
  {
    (mask >> pos) & 1 == 1
  }

  /** ANDs the four lanes of `x` and keeps the bits of the slots. */
  function AndLanes(x: bv64): bv64
  {
    var y := (x & (x >> 32)) & 0xFFFF_FFFF;
    (y & (y >> 16)) & 0x7FFF
  }

  /** Zero in the lanes of the positions whose nibble is `n`. */
  function LaneDiff(x: bv64, n: bv64): bv64
    requires n < 16
  {
    x ^ TableEntry(LANES, n)
  }

  function BothZero(x: bv64, y: bv64): bv64
  {
    AndLanes(!(x | y))
  }

  function MatchImpl(g: Group, n: bv64): bv64
    requires n < 256
  {
    Halves(n);
    BothZero(LaneDiff(g.m1, Hi(n)), LaneDiff(g.m0, Lo(n)))
  }

  function Match(g: Group, hash: bv64): bv64
  {
    ReducedHashProperties(hash);
    MatchImpl(g, ReducedHash(hash))
  }

  function MatchAvailable(g: Group): bv64
  {
    BothZero(g.m0, g.m1)
  }

  function MatchOccupied(g: Group): bv64
  {
    var x := g.m0 | g.m1;
    var y := (x | (x >> 32)) & 0xFFFF_FFFF;
    (y | (y >> 16)) & 0x7FFF
  }

  predicate IsOccupied(g: Group, pos: bv64)
    requires pos < 15
  {
    (g.m0 | g.m1) & (0x0001_0001_0001_0001 << pos) != 0
  }

  predicate IsSentinel(g: Group, pos: bv64)
    requires pos < 15
  {
    pos == LAST_SLOT && g.m0 & 0x4000_4000_4000_4000 == 0x4000 && g.m1 & 0x4000_4000_4000_4000 == 0
  }

  lemma XorFill(x: bv64, n: bv64, pos: bv64)
    requires n < 16 && pos < 16
    ensures Nibble(x ^ Fill(n), pos) == Nibble(x, pos) ^ n
  {
  }

  lemma LaneDiffFill(x: bv64, n: bv64)
    requires n < 16
    ensures LaneDiff(x, n) == x ^ Fill(n)
  {
    hide TableEntry, Fill;
    LanesTable(n);
  }

  lemma XorZero(a: bv64, b: bv64)
    ensures a ^ b == 0 <==> a == b
  {
  }

  lemma MatchNibble(x: bv64, n: bv64, pos: bv64)
    requires n < 16 && pos < 16
    ensures Nibble(LaneDiff(x, n), pos) == 0 <==> Nibble(x, pos) == n
  {
    hide Nibble, LaneDiff, Fill;
    LaneDiffFill(x, n);
    XorFill(x, n, pos);
    XorZero(Nibble(x, pos), n);
  }

  lemma AndLanesBit(x: bv64, pos: bv64)
    requires pos < 15
    ensures HasBit(AndLanes(x), pos) <==> Nibble(x, pos) == 15
  {
  }

  lemma NorNibble(x: bv64, y: bv64, pos: bv64)
    requires pos < 16
    ensures Nibble(!(x | y), pos) == 15 <==> Nibble(x, pos) == 0 && Nibble(y, pos) == 0
  {
  }

  lemma BothZeroBit(x: bv64, y: bv64, pos: bv64)
    requires pos < 15
    ensures HasBit(BothZero(x, y), pos) <==> Nibble(x, pos) == 0 && Nibble(y, pos) == 0
  {
    hide Nibble, AndLanes, HasBit;
    AndLanesBit(!(x | y), pos);
    NorNibble(x, y, pos);
  }

  lemma NibbleBound(x: bv64, pos: bv64)
    requires pos < 16
    ensures Nibble(x, pos) < 16
  {
  }

  lemma ByteOfHalves(lo: bv64, hi: bv64, n: bv64)
    requires lo < 16 && hi < 16 && n < 256
    ensures Join(lo, hi) == n <==> lo == Lo(n) && hi == Hi(n)
  {
  }

  lemma MatchImplBit(g: Group, n: bv64, pos: bv64)
    requires n < 256 && pos < 15
    ensures HasBit(MatchImpl(g, n), pos) <==> Byte(g, pos) == n
  {
    hide Nibble, LaneDiff, BothZero, HasBit, Lo, Hi, Join;
    Halves(n);
    BothZeroBit(LaneDiff(g.m1, Hi(n)), LaneDiff(g.m0, Lo(n)), pos);
    MatchNibble(g.m0, Lo(n), pos);
    MatchNibble(g.m1, Hi(n), pos);
    NibbleBound(g.m0, pos);
    NibbleBound(g.m1, pos);
    ByteOfHalves(Nibble(g.m0, pos), Nibble(g.m1, pos), n);
  }

  /** `match` finds exactly the slots that hold the reduced hash. */
  lemma MatchBit(g: Group, hash: bv64, pos: bv64)
    requires pos < 15
    ensures HasBit(Match(g, hash), pos) <==> Byte(g, pos) == ReducedHash(hash)
  {
    hide ReducedHash, Byte, HasBit, MatchImpl;
    ReducedHashProperties(hash);
    MatchImplBit(g, ReducedHash(hash), pos);
  }

  /** `match_available` finds exactly the available slots. */
  lemma MatchAvailableBit(g: Group, pos: bv64)
    requires pos < 15
    ensures HasBit(MatchAvailable(g), pos) <==> Byte(g, pos) == AVAILABLE
  {
  }

  /** `match_occupied` and `is_occupied` agree on the slots that are not available. */
  lemma OccupiedBit(g: Group, pos: bv64)
    requires pos < 15
    ensures HasBit(MatchOccupied(g), pos) <==> Byte(g, pos) != AVAILABLE
    ensures IsOccupied(g, pos) <==> Byte(g, pos) != AVAILABLE
  {
  }

  /** `is_sentinel` tests for the sentinel byte in the last slot. */
  lemma SentinelByte(g: Group, pos: bv64)
    requires pos < 15
    ensures IsSentinel(g, pos) <==> pos == LAST_SLOT && Byte(g, pos) == SENTINEL
  {
  }

  // ----- the overflow byte -----

  function IsNotOverflowed(g: Group, hash: bv64): bool
  {
    var i := hash & 7;
    var word := if i < 4 then g.m0 else g.m1;
    (word >> (16 * (i & 3))) & 0x8000 == 0
  }

  function MarkOverflow(g: Group, hash: bv64): Group
  {
    var i := hash & 7;
    var bit: bv64 := 0x8000 << (16 * (i & 3));
    if i < 4 then g.(m0 := g.m0 | bit) else g.(m1 := g.m1 | bit)
  }

  /** Whether the entry at `pos` may have caused overflow, judged from its byte alone. */
  function MaybeCausedOverflow(g: Group, pos: bv64): bool
    requires pos < 15
  {
    var x := (g.m0 >> pos) & 0x0001_0001_0001;
    var y := (x | (x >> 15) | (x >> 30)) & 0xFFFF_FFFF;
    !IsNotOverflowed(g, y)
  }

  /** The overflow bit of a hash is bit `hash % 8` of the overflow byte. */
  lemma OverflowBit(g: Group, hash: bv64)
    ensures IsNotOverflowed(g, hash) <==> (Byte(g, OVERFLOW) >> (hash & 7)) & 1 == 0
  {
  }

  /** A byte with bit `hash % 8` set. */
  function WithBit(b: bv64, hash: bv64): bv64
  {
    b | (1 << (hash & 7))
  }

  /** Marking sets one bit of the overflow byte and changes no slot. */
  lemma MarkOverflowReads(g: Group, hash: bv64, q: bv64)
    requires q < 16
    ensures Byte(MarkOverflow(g, hash), q) ==
            if q == OVERFLOW then WithBit(Byte(g, q), hash) else Byte(g, q)
  {
  }

  /** Marking records overflow for all hashes that agree modulo 8, and only for them. */
  lemma MarkOverflowMarks(g: Group, hash: bv64, other: bv64)
    ensures IsNotOverflowed(MarkOverflow(g, hash), other) <==> IsNotOverflowed(g, other) && other & 7 != hash & 7
  {
  }

  /** The judgement from a stored byte agrees with the hash it was reduced from. */
  lemma MaybeCausedOverflowAgrees(g: Group, pos: bv64, hash: bv64)
    requires pos < 15 && Byte(g, pos) == ReducedHash(hash)
    ensures MaybeCausedOverflow(g, pos) <==> !IsNotOverflowed(g, hash)
  {
    ReducedHashProperties(hash);
    LowBits(g, pos);
  }

  /** The judgement from a stored byte reads the overflow bit that the byte selects. */
  lemma CausedOverflowBit(g: Group, pos: bv64)
    requires pos < 15
    ensures MaybeCausedOverflow(g, pos) <==> (Byte(g, OVERFLOW) >> (Byte(g, pos) & 7)) & 1 == 1
  {
    hide Byte, IsNotOverflowed;
    LowBits(g, pos);
    var x := (g.m0 >> pos) & 0x0001_0001_0001;
    var y := (x | (x >> 15) | (x >> 30)) & 0xFFFF_FFFF;
    LowBitsOfWord(x | (x >> 15) | (x >> 30));
    OverflowBit(g, y);
    OneBit(Byte(g, OVERFLOW) >> (y & 7));
  }

  lemma LowBitsOfWord(x: bv64)
    ensures (x & 0xFFFF_FFFF) & 7 == x & 7
  {
  }

  lemma OneBit(x: bv64)
    ensures x & 1 == 0 || x & 1 == 1
  {
  }

  lemma LowBits(g: Group, pos: bv64)
    requires pos < 15
    ensures var x := (g.m0 >> pos) & 0x0001_0001_0001;
            (x | (x >> 15) | (x >> 30)) & 7 == Byte(g, pos) & 7
  {
  }
}
