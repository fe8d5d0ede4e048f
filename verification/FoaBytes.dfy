/** Groups with slots numbered by natural numbers: the sixteen plain bytes that the two
    words of a group stand for, and iteration over match results. */
module FoaBytes {
  import opened FoaGroup

  const N: nat := 15

  /** A position as a machine word. */
  function Pos(n: nat): (p: bv64)
    requires n < 16
    ensures p < 16
  {
    [0, 1, 2, 3, 4, 5, 6, 7, 8, 9, 10, 11, 12, 13, 14, 15][n]
  }

  lemma PosInjective(n: nat, q: nat)
    requires n < 16 && q < 16
    ensures Pos(n) == Pos(q) <==> n == q
    ensures Pos(n) < 15 <==> n < N
  {
  }

  function At(g: Group, n: nat): bv64
    requires n < 16
  {
    Byte(g, Pos(n))
  }

  /** The plain sixteen-byte view of a group. */
  function Bytes(g: Group): seq<bv64>
  {
    seq(16, i requires 0 <= i < 16 => At(g, i))
  }

  function Overflowed(g: Group, hash: bv64): bool
  {
    !IsNotOverflowed(g, hash)
  }

  datatype GroupOp =
    | SetOp(pos: nat, hash: bv64)
    | ResetOp(pos: nat)
    | MarkOp(hash: bv64)
    | SentinelOp

  predicate OpOk(op: GroupOp)
  {
    (op.SetOp? ==> op.pos < N) && (op.ResetOp? ==> op.pos < N)
  }

  function SetSlot(g: Group, pos: nat, hash: bv64): Group
    requires pos < N
  {
    ReducedHashProperties(hash);
    SetImpl(g, Pos(pos), ReducedHash(hash))
  }

  function Reset(g: Group, pos: nat): Group
    requires pos < N
  {
    SetImpl(g, Pos(pos), AVAILABLE)
  }

  function SetSentinel(g: Group): Group
  {
    SetImpl(g, Pos(N - 1), SENTINEL)
  }

  function ApplyToGroup(op: GroupOp, g: Group): Group
    requires OpOk(op)
  {
    match op
    case SetOp(pos, hash) => SetSlot(g, pos, hash)
    case ResetOp(pos) => Reset(g, pos)
    case MarkOp(hash) => MarkOverflow(g, hash)
    case SentinelOp => SetSentinel(g)
  }

  /** The same operations on sixteen plain bytes. */
  function ApplyToBytes(op: GroupOp, bytes: seq<bv64>): seq<bv64>
    requires OpOk(op) && |bytes| == 16
  {
    match op
    case SetOp(pos, hash) => bytes[pos := ReducedHash(hash)]
    case ResetOp(pos) => bytes[pos := AVAILABLE]
    case MarkOp(hash) => bytes[15 := WithBit(bytes[15], hash)]
    case SentinelOp => bytes[14 := SENTINEL]
  }

  lemma SetImplBytes(g: Group, pos: nat, n: bv64)
    requires pos < 16 && n < 256
    ensures Bytes(SetImpl(g, Pos(pos), n)) == Bytes(g)[pos := n]
  {
    hide Byte, SetImpl;
    forall q | 0 <= q < 16 ensures At(SetImpl(g, Pos(pos), n), q) == if q == pos then n else At(g, q) {
      SetImplReads(g, Pos(pos), n, Pos(q));
      PosInjective(pos, q);
    }
  }

  lemma MarkBytes(g: Group, hash: bv64)
    ensures Bytes(MarkOverflow(g, hash)) == Bytes(g)[15 := WithBit(Bytes(g)[15], hash)]
  {
    hide Byte, MarkOverflow, WithBit, Pos;
    forall q | 0 <= q < 16
      ensures At(MarkOverflow(g, hash), q) == if q == 15 then WithBit(At(g, q), hash) else At(g, q)
    {
      MarkOverflowReads(g, hash, Pos(q));
      PosInjective(15, q);
    }
  }

  /** One operation on the two words is the same operation on the sixteen bytes. */
  lemma OperationRefines(op: GroupOp, g: Group)
    requires OpOk(op)
    ensures Bytes(ApplyToGroup(op, g)) == ApplyToBytes(op, Bytes(g))
  {
    hide Bytes, SetImpl, MarkOverflow;
    match op {
      case SetOp(pos, hash) =>
        ReducedHashProperties(hash);
        SetImplBytes(g, pos, ReducedHash(hash));
      case ResetOp(pos) => SetImplBytes(g, pos, AVAILABLE);
      case MarkOp(hash) => MarkBytes(g, hash);
      case SentinelOp => SetImplBytes(g, N - 1, SENTINEL);
    }
  }

  ghost function RunOnGroup(ops: seq<GroupOp>, g: Group): Group
    requires forall op | op in ops :: OpOk(op)
  {
    if ops == [] then g else RunOnGroup(ops[1..], ApplyToGroup(ops[0], g))
  }

  ghost function RunOnBytes(ops: seq<GroupOp>, bytes: seq<bv64>): (r: seq<bv64>)
    requires (forall op | op in ops :: OpOk(op)) && |bytes| == 16
    ensures |r| == 16
  {
    if ops == [] then bytes else RunOnBytes(ops[1..], ApplyToBytes(ops[0], bytes))
  }

  /** Any sequence of operations on the two words refines the plain bytes. */
  lemma {:induction false} RunRefines(ops: seq<GroupOp>, g: Group)
    requires forall op | op in ops :: OpOk(op)
    ensures Bytes(RunOnGroup(ops, g)) == RunOnBytes(ops, Bytes(g))
  {
    if ops != [] {
      assert ops[0] in ops;
      OperationRefines(ops[0], g);
      RunRefines(ops[1..], ApplyToGroup(ops[0], g));
    }
  }

  /** The queries about slots are queries on their bytes. */
  lemma SlotsAgree(g: Group, hash: bv64, n: nat)
    requires n < N
    ensures HasBit(Match(g, hash), Pos(n)) <==> At(g, n) == ReducedHash(hash)
    ensures HasBit(MatchAvailable(g), Pos(n)) <==> At(g, n) == AVAILABLE
    ensures HasBit(MatchOccupied(g), Pos(n)) <==> At(g, n) != AVAILABLE
    ensures IsOccupied(g, Pos(n)) <==> At(g, n) != AVAILABLE
    ensures IsSentinel(g, Pos(n)) <==> n == N - 1 && At(g, n) == SENTINEL
  {
    hide Byte, HasBit, Match, MatchAvailable, MatchOccupied, IsOccupied, IsSentinel, ReducedHash;
    PosInjective(n, N - 1);
    MatchBit(g, hash, Pos(n));
    MatchAvailableBit(g, Pos(n));
    OccupiedBit(g, Pos(n));
    SentinelByte(g, Pos(n));
  }

  /** All queries on the two words are queries on the plain bytes; those about overflow read
      one bit of the last byte, chosen by the hash or by the byte of the slot. */
  lemma QueriesAgree(g: Group, hash: bv64, n: nat)
    requires n < N
    ensures HasBit(Match(g, hash), Pos(n)) <==> Bytes(g)[n] == ReducedHash(hash)
    ensures HasBit(MatchAvailable(g), Pos(n)) <==> Bytes(g)[n] == AVAILABLE
    ensures HasBit(MatchOccupied(g), Pos(n)) <==> Bytes(g)[n] != AVAILABLE
    ensures IsOccupied(g, Pos(n)) <==> Bytes(g)[n] != AVAILABLE
    ensures IsSentinel(g, Pos(n)) <==> n == N - 1 && Bytes(g)[n] == SENTINEL
    ensures IsNotOverflowed(g, hash) <==> (Bytes(g)[15] >> (hash & 7)) & 1 == 0
    ensures MaybeCausedOverflow(g, Pos(n)) <==> (Bytes(g)[15] >> (Bytes(g)[n] & 7)) & 1 == 1
  {
    hide Byte, HasBit, Match, MatchAvailable, MatchOccupied, IsOccupied, IsSentinel, ReducedHash, IsNotOverflowed, MaybeCausedOverflow;
    PosInjective(n, N - 1);
    SlotsAgree(g, hash, n);
    OverflowBit(g, hash);
    CausedOverflowBit(g, Pos(n));
  }

  // ----- what the table needs to know -----

  lemma SetSlotReads(g: Group, pos: nat, hash: bv64, q: nat)
    requires pos < N && q < 16
    ensures At(SetSlot(g, pos, hash), q) == if q == pos then ReducedHash(hash) else At(g, q)
  {
    hide Byte, SetImpl, ReducedHash, Pos;
    ReducedHashProperties(hash);
    SetImplReads(g, Pos(pos), ReducedHash(hash), Pos(q));
    PosInjective(pos, q);
  }

  lemma ResetReads(g: Group, pos: nat, q: nat)
    requires pos < N && q < 16
    ensures At(Reset(g, pos), q) == if q == pos then AVAILABLE else At(g, q)
  {
    hide Byte, SetImpl, Pos;
    SetImplReads(g, Pos(pos), AVAILABLE, Pos(q));
    PosInjective(pos, q);
  }

  lemma MarkReads(g: Group, hash: bv64, q: nat)
    requires q < N
    ensures At(MarkOverflow(g, hash), q) == At(g, q)
  {
    hide Byte, MarkOverflow, WithBit, Pos;
    MarkOverflowReads(g, hash, Pos(q));
    PosInjective(15, q);
  }

  /** The overflow bits are a function of the overflow byte. */
  lemma SameOverflow(g: Group, g': Group, hash: bv64)
    requires At(g, 15) == At(g', 15)
    ensures Overflowed(g, hash) == Overflowed(g', hash)
  {
    hide Byte, IsNotOverflowed;
    OverflowBit(g, hash);
    OverflowBit(g', hash);
  }

  lemma MarkMarks(g: Group, hash: bv64, other: bv64)
    ensures Overflowed(MarkOverflow(g, hash), hash)
    ensures Overflowed(g, other) ==> Overflowed(MarkOverflow(g, hash), other)
  {
    MarkOverflowMarks(g, hash, hash);
    MarkOverflowMarks(g, hash, other);
  }

  // ----- iterating over a match result -----

  /** No bit below `p` is set. */
  predicate LowClear(mask: bv64, p: bv64)
    requires p < 64
  {
    mask & ((1 << p) - 1) == 0
  }

  lemma LowStep(mask: bv64, p: bv64)
    requires p < 15 && LowClear(mask, p) && !HasBit(mask, p)
    ensures LowClear(mask, p + 1)
  {
  }

  lemma LowAll(mask: bv64)
    requires IsMask(mask) && LowClear(mask, 15)
    ensures mask == 0
  {
  }

  /** A mask of at most the fifteen slots. */
  predicate IsMask(mask: bv64)
  {
    mask & 0x7FFF == mask
  }

  /** A mask without its lowest bit. */
  function ClearLowestBit(mask: bv64): bv64
  {
    mask & (mask - 1)
  }

  lemma ClearLowest(mask: bv64, p: bv64, q: bv64)
    requires p < 15 && q < 15 && LowClear(mask, p) && HasBit(mask, p)
    ensures HasBit(mask & (mask - 1), q) <==> HasBit(mask, q) && q != p
  {
  }

  lemma StaysSmall(mask: bv64)
    requires IsMask(mask)
    ensures IsMask(ClearLowestBit(mask))
  {
  }

  lemma PosStep(n: nat)
    requires n < 15
    ensures Pos(n + 1) == Pos(n) + 1
  {
  }

  /** The slots of a match result. */
  ghost function SlotsOf(mask: bv64): set<nat>
  {
    set n: nat | n < N && HasBit(mask, Pos(n))
  }

  /** The position of the lowest set bit. */
  method CountrZero(mask: bv64) returns (n: nat)
    requires mask != 0 && IsMask(mask)
    ensures n < N && HasBit(mask, Pos(n)) && LowClear(mask, Pos(n))
    ensures forall q | 0 <= q < n :: !HasBit(mask, Pos(q))
  {
    hide HasBit, LowClear, Pos, IsMask;
    n := 0;
    LowZero(mask);
    while !HasBit(mask, Pos(n))
      invariant n < N && LowClear(mask, Pos(n)) && forall q | 0 <= q < n :: !HasBit(mask, Pos(q))
      decreases N - n
    {
      PosInjective(n, n);
      LowStep(mask, Pos(n));
      PosStep(n);
      n := n + 1;
      if n == N {
        Pos15();
        LowAll(mask);
        assert false;
      }
    }
  }

  lemma LowClearBit(mask: bv64, p: bv64, q: bv64)
    requires q < p < 16 && LowClear(mask, p)
    ensures !HasBit(mask, q)
  {
  }

  lemma {:induction false} PosMonotone(n: nat, q: nat)
    requires q < n < 16
    ensures Pos(q) < Pos(n)
  {
    hide Pos;
    PosStep(n - 1);
    PosInjective(n - 1, 15);
    if q < n - 1 {
      PosMonotone(n - 1, q);
    }
  }

  /** The lowest set bit is the first slot of a match result. */
  lemma LowestSlot(mask: bv64, n: nat)
    requires n < N && HasBit(mask, Pos(n)) && LowClear(mask, Pos(n))
    ensures n in SlotsOf(mask) && forall q :: q in SlotsOf(mask) ==> n <= q
  {
    hide HasBit, LowClear, Pos;
    forall q: nat | q < n ensures !HasBit(mask, Pos(q)) {
      PosMonotone(n, q);
      LowClearBit(mask, Pos(n), Pos(q));
    }
  }

  lemma LowZero(mask: bv64)
    ensures LowClear(mask, Pos(0))
  {
  }

  lemma Pos15()
    ensures Pos(15) == 15
  {
  }

  /** Clearing the lowest bit takes its slot off the match result. */
  lemma ClearLowestSlot(mask: bv64, n: nat)
    requires n < N && HasBit(mask, Pos(n)) && LowClear(mask, Pos(n))
    ensures SlotsOf(ClearLowestBit(mask)) == SlotsOf(mask) - {n}
  {
    hide HasBit, LowClear, Pos;
    forall q: nat | q < N ensures HasBit(ClearLowestBit(mask), Pos(q)) <==> HasBit(mask, Pos(q)) && q != n {
      PosInjective(n, q);
      PosInjective(q, n);
      ClearLowest(mask, Pos(n), Pos(q));
    }
  }

  /** A match result without slots is zero, and match results have no other bits. */
  lemma MatchesAreSmall(g: Group, hash: bv64)
    ensures IsMask(Match(g, hash)) && IsMask(MatchAvailable(g)) && IsMask(MatchOccupied(g))
  {
    hide TableEntry, ReducedHash;
  }
}
