/** Boost's `foa::table_core`: group and element arrays changed in place, without
    tombstones, under a load bound that shrinks when an erasure may leave overflow behind. */
module FoaTable {
  import opened Entries
  import opened FoaBytes
  import opened FoaGroup
  import opened FoaIndex
  import opened FoaPlacement
  import opened FoaSizes
  import opened Powers
  import opened Triangular

  /** Where probing starts: the `e` most significant bits of the hash. */
  function Hashing(hash: Key -> Hash64, e: nat): Hasher
    requires e <= 64
  {
    Hasher(k => Position(hash(k), e), k => hash(k) as bv64)
  }

  function Position(h: Hash64, e: nat): nat
    requires e <= 64
  {
    PowPositive(64 - e);
    Quotient(h, Pow2(64 - e))
  }

  function Quotient(x: nat, d: nat): nat
    requires d > 0
  {
    x / d
  }

  /** Probing starts at the group whose number the top `e` bits of the hash code form; slots
      are marked by the hash code itself. */
  lemma StartIsTopBits(hash: Key -> Hash64, e: nat, k: Key)
    requires e <= 64
    ensures var p := Hashing(hash, e).start(k);
            p * Pow2(64 - e) <= hash(k) < (p + 1) * Pow2(64 - e)
    ensures Hashing(hash, e).code(k) == hash(k) as bv64
  {
    hide Pow2;
    PowPositive(64 - e);
    var q := hash(k) / Pow2(64 - e);
    assert hash(k) == Pow2(64 - e) * q + hash(k) % Pow2(64 - e);
  }

  lemma HashingOk(hash: Key -> Hash64, e: nat)
    requires e <= 64
    ensures HasherOk(Hashing(hash, e), Pow2(e))
  {
    hide Pow2;
    forall k ensures Hashing(hash, e).start(k) < Pow2(e) {
      ShiftedHashBound(hash(k), 64 - e);
    }
  }

  /** A freshly initialised group, and the group that stands in where nothing is allocated. */
  const ZERO_GROUP := Group(0, 0)
  const DUMMY_GROUP := Group(0x4000, 0)

  lemma InitialGroups(n: nat)
    requires n < N
    ensures At(ZERO_GROUP, n) == AVAILABLE
    ensures At(DUMMY_GROUP, n) == if n == N - 1 then SENTINEL else AVAILABLE
  {
    hide Pos;
    PosInjective(n, N - 1);
    Pos14();
    ZeroBytes(Pos(n));
  }

  lemma Pos14()
    ensures Pos(N - 1) == LAST_SLOT
  {
  }

  lemma ZeroBytes(p: bv64)
    requires p < 15
    ensures Byte(ZERO_GROUP, p) == 0
    ensures Byte(DUMMY_GROUP, p) == if p == 14 then 1 else 0
  {
  }

  /** Groups as they are allocated or wiped: all bytes zero but for the sentinel's. */
  ghost predicate Wiped(t: FoaIndex.Tab)
  {
    forall g | 0 <= g < |t.gs| :: t.gs[g] == if g == |t.gs| - 1 then SetSentinel(ZERO_GROUP) else ZERO_GROUP
  }

  class Arrays {
    const hash: Key -> Hash64
    /** The logarithm of the number of groups. */
    const exponent: nat
    const groups: array<Group>
    const elements: array<Entry>
    ghost var where: map<Key, nat>

    function Hs(): Hasher
      requires exponent <= 64
    {
      Hashing(hash, exponent)
    }

    ghost function Tab(): FoaIndex.Tab
      reads groups, elements
    {
      FoaIndex.Tab(groups[..], elements[..])
    }

    ghost predicate Valid()
      reads this, groups, elements
    {
      && 1 <= exponent <= 64 && groups.Length == Pow2(exponent) > 0
      && Indexed(Tab(), Hs(), where)
      && (elements.Length > 0 ==> Sized(Tab()))
    }

    ghost function Model(): map<Key, Value>
      requires Valid()
      reads this, groups, elements
    {
      Contents(Tab(), Hs(), where)
    }

    /** Arrays for at least `n` elements; for none, two dummy groups and no elements. */
    constructor (hash: Key -> Hash64, n: nat)
      requires ExponentFor(n) <= 63
      ensures Valid() && where == map[] && Model() == map[] && this.hash == hash
      ensures elements.Length == if n == 0 then 0 else CapacityFor(n)
      ensures fresh(groups) && fresh(elements) && (n > 0 ==> Wiped(Tab()))
    {
      this.hash := hash;
      this.exponent := ExponentFor(n);
      this.where := map[];
      CapacitySuffices(n);
      var size := Pow2(ExponentFor(n));
      var gs := new Group[size](_ => if n == 0 then DUMMY_GROUP else ZERO_GROUP);
      var es := new Entry[if n == 0 then 0 else N * size - 1];
      if n != 0 {
        gs[size - 1] := SetSentinel(gs[size - 1]);
      }
      this.groups := gs;
      this.elements := es;
      new;
      FreshGroups(groups[..], elements[..], hash, exponent, n == 0);
    }

    /** Searches one group for `key` among the slots that match its reduced hash. */
    method FindInGroup(g: nat, code: bv64, key: Key) returns (loc: Option<nat>)
      requires Valid() && g < groups.Length && code == Hs().code(key)
      ensures loc.Some? ==> Occ(Tab(), loc.value) && elements[loc.value].key == key
      ensures loc.None? ==> NotInGroup(Tab(), key, g)
    {
      hide At, HasBit, Match, ReducedHash, IsPow2, Pow2, Indexed, Sized, Bounded, SlotOk, Contents, SlotsOf, NotInGroup;
      hide Pos, LowClear, IsMask, ClearLowestBit;
      ghost var t := Tab();
      var mask := Match(groups[g], code);
      MatchesAreSmall(groups[g], code);
      MatchedSlots(groups[g], code);
      ghost var slots := SlotsOf(mask);
      while mask != 0
        invariant IsMask(mask) && SlotsOf(mask) <= slots
        invariant NoneHolds(t, g, key, slots, SlotsOf(mask))
        decreases SlotsOf(mask)
      {
        var n := CountrZero(mask);
        InSlots(mask, n);
        MatchInBounds(t, Hs(), where, g, n, code);
        if elements[N * g + n].key == key {
          return Some(N * g + n);
        }
        NextMatch(t, g, key, slots, mask, n);
        mask := ClearLowestBit(mask);
      }
      NoSlots();
      GroupSearched(t, Hs(), where, g, key, slots);
      return None;
    }

    /** Searches the groups on the probe path until the key is found, a group has not
        overflowed for its hash, or the whole array has been traversed. */
    method Find(key: Key) returns (loc: Option<nat>)
      requires Valid()
      ensures loc == if key in where then Some(where[key]) else None
    {
      hide At, IsNotOverflowed, Match, IsPow2, Pow2, Slot, SlotOk, Bounded;
      ghost var t, hs := Tab(), Hs();
      HashingOk(hash, exponent);
      var code := hash(key) as bv64;
      var pos, step := Position(hash(key), exponent), 0;
      assert pos == hs.start(key) < |t.gs|;
      SlotZero(|t.gs|, pos);
      while true
        invariant step < |t.gs| && pos == Slot(|t.gs|, hs.start(key), step) && Missed(t, hs, key, step)
        decreases |t.gs| - step
      {
        loc := FindInGroup(pos, code, key);
        if loc.Some? {
          return;
        }
        SearchStep(t, hs, where, key, step);
        if IsNotOverflowed(groups[pos], code) {
          return None;
        }
        ProbeNext(|t.gs|, hs.start(key), step);
        step := step + 1;
        pos := (pos + step) % groups.Length;
        if step == groups.Length {
          return None;
        }
      }
    }

    /** Marks group `pos`, the `d`-th on the probe path, as overflowed. */
    method MarkFull(pos: nat, code: bv64, ghost start: nat, ghost d: nat)
      requires Valid() && pos < groups.Length && pos == Slot(groups.Length, start, d)
      requires OverflowedBefore(groups[..], start, code, d)
      modifies groups
      ensures Valid() && Model() == old(Model()) && OverflowedBefore(groups[..], start, code, d + 1)
      ensures forall g, n | 0 <= g < groups.Length && 0 <= n < N :: At(groups[g], n) == old(At(groups[g], n))
      ensures Tab() == old(Tab()).(gs := old(groups[..])[pos := MarkOverflow(old(groups[pos]), code)])
    {
      hide At, Overflowed, MarkOverflow, IsPow2, Pow2, Slot, SlotOk, Bounded, Indexed, Contents, Sized;
      ghost var t := Tab();
      MarkKeeps(t, Hs(), where, pos, code);
      forall n | 0 <= n < N ensures At(MarkOverflow(groups[pos], code), n) == At(groups[pos], n) {
        MarkReads(groups[pos], code, n);
      }
      groups[pos] := MarkOverflow(groups[pos], code);
      assert Tab() == t.(gs := t.gs[pos := MarkOverflow(t.gs[pos], code)]);
    }

    /** Constructs an element in an available slot and marks it. */
    method PlaceInto(pos: nat, n: nat, key: Key, val: Value) returns (loc: nat)
      requires Valid() && elements.Length > 0 && CanPut(Tab(), Hs(), where, pos, n, Entry(key, val))
      modifies `where, groups, elements
      ensures Valid() && Model() == old(Model())[key := val] && where == old(where)[key := loc]
      ensures pos < groups.Length && n < N && loc == N * pos + n < elements.Length
      ensures Tab() == Put(old(Tab()), Hs(), pos, n, Entry(key, val))
    {
      hide At, SetSlot, IsPow2, Pow2, SlotOk, Bounded, Indexed, Contents, Sized, Reachable, Occ;
      ghost var t := Tab();
      CanPutBounds(t, Hs(), where, pos, n, Entry(key, val));
      PutKeeps(t, Hs(), where, pos, n, Entry(key, val));
      loc := N * pos + n;
      elements[loc] := Entry(key, val);
      groups[pos] := SetSlot(groups[pos], n, hash(key) as bv64);
      assert Tab() == Put(t, Hs(), pos, n, Entry(key, val));
      where := where[key := loc];
    }

    /** Stores a new entry in the first group with an available slot on its probe path,
        marking the full groups passed as overflowed. */
    method EmplaceAt(key: Key, val: Value) returns (loc: nat)
      requires Valid() && key !in where && |where| < elements.Length
      modifies `where, groups, elements
      ensures Valid() && Model() == old(Model())[key := val] && where == old(where)[key := loc]
      ensures Tab() == PlacedFrom(old(Tab()), Hs(), Entry(key, val), 0)
    {
      hide At, Overflowed, MatchAvailable, IsPow2, Pow2, Slot, SlotOk, Bounded, Indexed, Contents, Sized, Occ, HasBit, Put, PlacedFrom, MarkOverflow;
      ghost var t0, entry := Tab(), Entry(key, val);
      ghost var hs := Hs();
      HashingOk(hash, exponent);
      var code := hash(key) as bv64;
      var pos, step := Position(hash(key), exponent), 0;
      assert pos == hs.start(key) < groups.Length;
      SlotZero(groups.Length, pos);
      ghost var room, free := RoomLeft(Tab(), hs, where, pos);
      while true
        invariant Valid() && Model() == old(Model()) && where == old(where)
        invariant step <= room < groups.Length && pos == Slot(groups.Length, hs.start(key), step)
        invariant OverflowedBefore(groups[..], hs.start(key), code, step)
        invariant free < N && At(groups[Slot(groups.Length, hs.start(key), room)], free) == AVAILABLE
        invariant PlacedFrom(t0, hs, entry, 0) == PlacedFrom(Tab(), hs, entry, step)
        decreases room - step
      {
        AvailableSlots(groups[pos]);
        var mask := MatchAvailable(groups[pos]);
        if mask != 0 {
          var n := CountrZero(mask);
          FirstAvailable(groups[pos], mask, n);
          ReachedAt(groups[..], hs.start(key), code, step);
          ghost var t := Tab();
          loc := PlaceInto(pos, n, key, val);
          PlacedHere(t, hs, entry, step, pos, n);
          return;
        }
        NoSlots();
        assert At(groups[pos], free) == AVAILABLE ==> free in SlotsOf(mask);
        assert step != room;
        NoneAvailable(groups[pos], mask);
        PlacedFurther(Tab(), hs, entry, step, pos);
        MarkFull(pos, code, hs.start(key), step);
        ProbeNext(groups.Length, hs.start(key), step);
        step := step + 1;
        pos := (pos + step) % groups.Length;
      }
    }

    /** Frees the slot of an element; tells whether it may have caused overflow. */
    method Free(loc: nat) returns (caused: bool)
      requires Valid() && Occ(Tab(), loc)
      modifies `where, groups
      ensures Valid() && Model() == old(Model()) - {old(elements[loc].key)}
      ensures where.Keys == old(where.Keys) - {elements[loc].key}
      ensures caused == old(Overflowed(groups[loc / N], Hs().code(elements[loc].key)))
      ensures loc / N < groups.Length && Tab() == Freed(old(Tab()), loc / N, loc % N)
    {
      hide At, Reset, IsPow2, Pow2, SlotOk, Bounded, Indexed, Contents, Sized, Occ, MaybeCausedOverflow, IsNotOverflowed;
      ghost var t := Tab();
      OccBounds(t, loc);
      CausedAgrees(t, Hs(), where, loc);
      caused := MaybeCausedOverflow(groups[loc / N], Pos(loc % N));
      FreeKeeps(t, Hs(), where, loc);
      groups[loc / N] := Reset(groups[loc / N], loc % N);
      assert Tab() == Freed(t, loc / N, loc % N);
      where := where - {elements[loc].key};
    }

    /** Wipes all groups and restores the sentinel. */
    method Wipe()
      requires Valid() && elements.Length > 0
      modifies `where, groups
      ensures Valid() && where == map[] && Model() == map[]
      ensures Wiped(Tab())
    {
      var i := 0;
      while i < groups.Length
        invariant i <= groups.Length && forall g | 0 <= g < i :: groups[g] == ZERO_GROUP
      {
        groups[i] := ZERO_GROUP;
        i := i + 1;
      }
      groups[groups.Length - 1] := SetSentinel(groups[groups.Length - 1]);
      where := map[];
      FreshGroups(groups[..], elements[..], hash, exponent, false);
    }

    /** `EmplaceAt` in terms of the contents alone. */
    method EmplaceNew(key: Key, val: Value)
      requires Valid() && key !in Model() && |Model()| < elements.Length
      modifies `where, groups, elements
      ensures Valid() && Model() == old(Model())[key := val] && Extends(old(where), where)
      ensures Tab() == PlacedFrom(old(Tab()), Hs(), Entry(key, val), 0)
    {
      hide PlacedFrom;
      hide At, IsPow2, Pow2, Indexed, Sized, Bounded, SlotOk;
      ContentsSize(Tab(), Hs(), where);
      var loc := EmplaceAt(key, val);
    }

    /** The slots of a group that have an element, which excludes the sentinel's. */
    method MatchReallyOccupied(g: nat, ghost base: nat) returns (mask: bv64)
      requires Valid() && elements.Length > 0 && g < groups.Length && base == N * g
      ensures Remaining(mask, Tab(), base, 0)
    {
      hide At, Indexed, Contents, Pow2, MatchOccupied, DropSentinel, Remaining;
      ReallyOccupied(Tab(), g, base);
      mask := MatchOccupied(groups[g]);
      if g == groups.Length - 1 {
        mask := DropSentinel(mask);
      }
    }

    /** Copies the element of slot `s` to `target`. */
    method TransferElement(s: nat, target: Arrays, ghost extra: map<Key, Value>)
      requires Valid() && Occ(Tab(), s)
      requires target.Valid() && target != this && groups != target.groups && elements != target.elements
      requires extra.Keys !! where.Keys && |where| + |extra| <= target.elements.Length
      requires IsCopied(target.Model(), Tab(), Hs(), where, extra, s)
      modifies target`where, target.groups, target.elements
      ensures target.Valid() && Extends(old(target.where), target.where)
      ensures IsCopied(target.Model(), Tab(), Hs(), where, extra, s + 1)
      ensures CopiedFrom(Tab(), s, target.Hs(), old(target.Tab())) == CopiedFrom(Tab(), s + 1, target.Hs(), target.Tab())
    {
      hide PlacedFrom, CopiedFrom;
      CopiedStep(Tab(), s, target.Hs(), target.Tab());
      hide At, Indexed, Sized, Contents, Pow2, IsCopied, Extends;
      CopyStep(target.Model(), Tab(), Hs(), where, s, extra);
      target.EmplaceNew(elements[s].key, elements[s].val);
    }

    /** Copies the elements of group `g`, whose slots start at `base`, to `target`, from the
        lowest slot up. */
    method TransferGroup(g: nat, base: nat, target: Arrays, ghost extra: map<Key, Value>)
      requires Valid() && elements.Length > 0 && g < groups.Length && base == N * g
      requires target.Valid() && target != this && groups != target.groups && elements != target.elements
      requires extra.Keys !! where.Keys && |where| + |extra| <= target.elements.Length
      requires IsCopied(target.Model(), Tab(), Hs(), where, extra, base)
      modifies target`where, target.groups, target.elements
      ensures target.Valid() && Extends(old(target.where), target.where)
      ensures IsCopied(target.Model(), Tab(), Hs(), where, extra, base + N)
      ensures CopiedFrom(Tab(), base, target.Hs(), old(target.Tab())) == CopiedFrom(Tab(), base + N, target.Hs(), target.Tab())
    {
      hide PlacedFrom, CopiedFrom, SlotsOf;
      hide At, Indexed, Sized, Contents, Pow2, IsCopied, HasBit, LowClear, Pos, Extends, Remaining;
      hide IsMask, ClearLowestBit;
      ghost var t, hs, to0 := Tab(), Hs(), target.Tab();
      var mask := MatchReallyOccupied(g, base);
      assert IsMask(mask) by { RemainingIsMask(mask, t, base, 0); }
      ghost var i: nat := 0;
      StartsExtended(target.where);
      while mask != 0
        invariant i <= N && IsMask(mask) && Remaining(mask, t, base, i)
        invariant target.Valid() && Extends(old(target.where), target.where)
        invariant IsCopied(target.Model(), t, hs, where, extra, base + i)
        invariant CopiedFrom(t, base, target.Hs(), to0) == CopiedFrom(t, base + i, target.Hs(), target.Tab())
        decreases N - i
      {
        var n := CountrZero(mask);
        NextElement(target.Model(), t, hs, where, extra, base, i, mask, n);
        ghost var before := target.where;
        NoLowerSlot(mask, n);
        NothingBetween(t, base, i, mask, n, target.Hs(), target.Tab());
        TransferElement(base + n, target, extra);
        StillExtended(old(target.where), before, target.where);
        i := n + 1;
        mask := ClearLowestBit(mask);
      }
      NoElements(target.Model(), t, hs, where, extra, base, i);
      NoSlots();
      NothingBetween(t, base, i, 0, N, target.Hs(), target.Tab());
    }

    /** Copies all elements to other arrays, which hold `extra` already. */
    method TransferTo(target: Arrays, ghost extra: map<Key, Value>)
      requires Valid() && target.Valid() && target != this && target.Model() == extra
      requires groups != target.groups && elements != target.elements
      requires extra.Keys !! where.Keys && |where| + |extra| <= target.elements.Length
      modifies target`where, target.groups, target.elements
      ensures target.Valid() && target.Model() == extra + Model()
      ensures Extends(old(target.where), target.where)
      ensures target.Tab() == CopiedFrom(Tab(), 0, target.Hs(), old(target.Tab()))
    {
      hide CopiedFrom;
      hide At, Indexed, Sized, Contents, Pow2, IsCopied, Extends;
      ghost var t, hs, to0 := Tab(), Hs(), target.Tab();
      StartsExtended(target.where);
      CopyStart(t, hs, where, extra);
      if elements.Length > 0 {
        var g, base := 0, 0;
        while g < groups.Length
          invariant g <= groups.Length && base == N * g && target.Valid()
          invariant IsCopied(target.Model(), t, hs, where, extra, base)
          invariant Extends(old(target.where), target.where)
          invariant CopiedFrom(t, 0, target.Hs(), to0) == CopiedFrom(t, base, target.Hs(), target.Tab())
        {
          ghost var before := target.where;
          TransferGroup(g, base, target, extra);
          StillExtended(old(target.where), before, target.where);
          g, base := g + 1, base + N;
        }
        CopyEnd(target.Model(), t, hs, where, extra, base);
        AllSlots(t, hs, where);
        CopiedAll(t, base, target.Hs(), target.Tab());
      } else {
        CopyEnd(target.Model(), t, hs, where, extra, 0);
        CopiedAll(t, 0, target.Hs(), target.Tab());
      }
    }
  }

  const SENTINEL_BIT: bv64 := 0x4000

  function DropSentinel(mask: bv64): bv64
  {
    mask & !SENTINEL_BIT
  }

  /** The map of arrays that hold `extra` and the elements of the first `i` slots. */
  ghost predicate IsCopied(m: map<Key, Value>, t: FoaIndex.Tab, hs: Hasher, where: map<Key, nat>, extra: map<Key, Value>, i: nat)
  {
    Indexed(t, hs, where) && m == extra + Prefix(t, hs, where, i)
  }

  /** The slots with an element among those of the group at `base`, from slot `i` on. */
  ghost function ElementsFrom(t: FoaIndex.Tab, base: nat, i: nat): set<nat>
  {
    set n: nat | i <= n < N && HasElement(t, base, n)
  }

  /** The mask shows the elements of a group from slot `i` on. */
  ghost predicate Remaining(mask: bv64, t: FoaIndex.Tab, base: nat, i: nat)
  {
    IsMask(mask) && SlotsOf(mask) == ElementsFrom(t, base, i)
  }

  ghost predicate HasElement(t: FoaIndex.Tab, base: nat, n: nat)
  {
    Occ(t, base + n)
  }

  lemma WithoutSentinelBit(mask: bv64, p: bv64)
    requires p < 15
    ensures HasBit(DropSentinel(mask), p) <==> HasBit(mask, p) && p != 14
  {
  }

  lemma MaskedStaysSmall(mask: bv64)
    requires IsMask(mask)
    ensures IsMask(DropSentinel(mask))
  {
  }

  lemma MaskedBit(g: Group, last: bool, n: nat)
    requires n < N
    ensures BitShows(if last then DropSentinel(MatchOccupied(g)) else MatchOccupied(g), n,
                     At(g, n) != AVAILABLE && !(last && n == N - 1))
  {
    hide At, HasBit, Match, ReducedHash, Pos, MatchAvailable, MatchOccupied, IsOccupied, IsSentinel, DropSentinel;
    SlotsAgree(g, 0, n);
    PosInjective(n, N - 1);
    Pos14();
    WithoutSentinelBit(MatchOccupied(g), Pos(n));
  }

  lemma ElementAt(t: FoaIndex.Tab, g: nat, base: nat, n: nat)
    requires Sized(t) && g < |t.gs| && n < N && base == N * g
    ensures HasElement(t, base, n) <==> At(t.gs[g], n) != AVAILABLE && !(g == |t.gs| - 1 && n == N - 1)
  {
    hide At;
    assert (base + n) / N == g && (base + n) % N == n;
  }

  /** Masking the sentinel's bit off the occupied slots leaves those with an element. */
  lemma ReallyOccupied(t: FoaIndex.Tab, g: nat, base: nat)
    requires Sized(t) && g < |t.gs| && base == N * g
    ensures var m := MatchOccupied(t.gs[g]);
            var mask := if g == |t.gs| - 1 then DropSentinel(m) else m;
            Remaining(mask, t, base, 0)
  {
    hide At, MatchOccupied, HasElement, Sized, DropSentinel, SlotsOf, ElementsFrom, IsMask, BitShows;
    var m := MatchOccupied(t.gs[g]);
    var mask := if g == |t.gs| - 1 then DropSentinel(m) else m;
    MatchesAreSmall(t.gs[g], 0);
    MaskedStaysSmall(m);
    forall n: nat | n < N ensures BitShows(mask, n, HasElement(t, base, n)) {
      MaskedBit(t.gs[g], g == |t.gs| - 1, n);
      ElementAt(t, g, base, n);
    }
    SameSlots(t, base, mask);
  }

  ghost predicate BitShows(mask: bv64, n: nat, present: bool)
    requires n < N
  {
    HasBit(mask, Pos(n)) <==> present
  }

  lemma SameSlots(t: FoaIndex.Tab, base: nat, mask: bv64)
    requires forall n: nat | n < N :: BitShows(mask, n, HasElement(t, base, n))
    ensures SlotsOf(mask) == ElementsFrom(t, base, 0)
  {
    hide HasBit, Pos, HasElement;
    assert forall n: nat | n < N :: BitShows(mask, n, HasElement(t, base, n)) ==> (HasBit(mask, Pos(n)) <==> HasElement(t, base, n));
  }

  /** The lowest slot of what is left of a group's elements comes next. */
  lemma NextElement(m: map<Key, Value>, t: FoaIndex.Tab, hs: Hasher, where: map<Key, nat>, extra: map<Key, Value>,
                    base: nat, i: nat, mask: bv64, n: nat)
    requires IsCopied(m, t, hs, where, extra, base + i) && Remaining(mask, t, base, i)
    requires n < N && HasBit(mask, Pos(n)) && LowClear(mask, Pos(n))
    ensures Occ(t, base + n) && i <= n && base + n < |t.es|
    ensures IsCopied(m, t, hs, where, extra, base + n)
    ensures IsMask(ClearLowestBit(mask)) && Remaining(ClearLowestBit(mask), t, base, n + 1)
  {
    hide HasBit, Pos, LowClear, At, SlotsOf, Indexed, Prefix, IsMask, ClearLowestBit;
    LowestSlot(mask, n);
    ClearLowestSlot(mask, n);
    StaysSmall(mask);
    assert n in ElementsFrom(t, base, i);
    forall s | base + i <= s < base + n ensures !Occ(t, s) {
      assert s - base in ElementsFrom(t, base, i) <==> HasElement(t, base, s - base);
    }
    PrefixSkip(t, hs, where, base + i, base + n);
  }

  /** Once no match is left, the rest of the group has no elements. */
  lemma NoElements(m: map<Key, Value>, t: FoaIndex.Tab, hs: Hasher, where: map<Key, nat>, extra: map<Key, Value>,
                   base: nat, i: nat)
    requires IsCopied(m, t, hs, where, extra, base + i) && i <= N && Remaining(0, t, base, i)
    ensures IsCopied(m, t, hs, where, extra, base + N)
  {
    hide At, SlotsOf, Indexed, Prefix;
    NoSlots();
    forall s | base + i <= s < base + N ensures !Occ(t, s) {
      assert s - base in ElementsFrom(t, base, i) <==> HasElement(t, base, s - base);
    }
    PrefixSkip(t, hs, where, base + i, base + N);
  }

  /** Up to the next element, and after the last one of a group, there is nothing to copy. */
  lemma NothingBetween(t: FoaIndex.Tab, base: nat, i: nat, mask: bv64, n: nat, hs: Hasher, to: FoaIndex.Tab)
    requires Remaining(mask, t, base, i) && i <= n <= N && forall q | 0 <= q < n :: q !in SlotsOf(mask)
    ensures CopiedFrom(t, base + i, hs, to) == CopiedFrom(t, base + n, hs, to)
  {
    hide At, SlotsOf, IsMask, CopiedFrom;
    forall s | base + i <= s < base + n ensures !Occ(t, s) {
      assert s - base in ElementsFrom(t, base, i) <==> HasElement(t, base, s - base);
    }
    CopiedSkip(t, base + i, base + n, hs, to);
  }

  lemma RemainingIsMask(mask: bv64, t: FoaIndex.Tab, base: nat, i: nat)
    requires Remaining(mask, t, base, i)
    ensures IsMask(mask)
  {
  }

  lemma StartsExtended(where: map<Key, nat>)
    ensures Extends(where, where)
  {
  }

  lemma StillExtended(a: map<Key, nat>, b: map<Key, nat>, c: map<Key, nat>)
    requires Extends(a, b) && Extends(b, c)
    ensures Extends(a, c)
  {
  }

  /** Every key stays in the slot it was in. */
  ghost predicate Extends(where: map<Key, nat>, where': map<Key, nat>)
  {
    forall k :: k in where ==> k in where' && where'[k] == where[k]
  }

  /** The slots of a match result are those marked with the reduced hash. */
  lemma MatchedSlots(g: Group, code: bv64)
    ensures SlotsOf(Match(g, code)) == set n: nat | n < N && At(g, n) == ReducedHash(code)
  {
    hide At, HasBit, Match, ReducedHash, Pos, MatchAvailable, MatchOccupied, IsOccupied, IsSentinel;
    forall n: nat | n < N ensures HasBit(Match(g, code), Pos(n)) <==> At(g, n) == ReducedHash(code) {
      SlotsAgree(g, code, n);
    }
  }

  lemma AvailableSlots(g: Group)
    ensures SlotsOf(MatchAvailable(g)) == set n: nat | n < N && At(g, n) == AVAILABLE
    ensures IsMask(MatchAvailable(g))
  {
    hide At, HasBit, Match, ReducedHash, Pos, MatchAvailable, MatchOccupied, IsOccupied, IsSentinel;
    MatchesAreSmall(g, 0);
    forall n: nat | n < N ensures HasBit(MatchAvailable(g), Pos(n)) <==> At(g, n) == AVAILABLE {
      SlotsAgree(g, 0, n);
    }
  }

  /** The lowest bit of the available slots is the first available slot. */
  lemma FirstAvailable(g: Group, mask: bv64, n: nat)
    requires mask == MatchAvailable(g) && n < N && HasBit(mask, Pos(n)) && forall q | 0 <= q < n :: !HasBit(mask, Pos(q))
    ensures n in SlotsOf(mask) && At(g, n) == AVAILABLE && forall q | 0 <= q < n :: At(g, q) != AVAILABLE
  {
    hide At, HasBit, MatchAvailable, Pos;
    AvailableSlots(g);
    forall q | 0 <= q < n ensures At(g, q) != AVAILABLE {
      assert q !in SlotsOf(mask);
    }
  }

  lemma NoneAvailable(g: Group, mask: bv64)
    requires mask == MatchAvailable(g) && SlotsOf(mask) == {}
    ensures forall q | 0 <= q < N :: At(g, q) != AVAILABLE
  {
    hide At, HasBit, MatchAvailable, Pos, SlotsOf;
    AvailableSlots(g);
    forall q: nat | q < N ensures At(g, q) != AVAILABLE {
      assert q !in SlotsOf(mask);
    }
  }

  /** There are no more elements than slots. */
  lemma AllSlots(t: FoaIndex.Tab, hs: Hasher, where: map<Key, nat>)
    requires Indexed(t, hs, where)
    ensures |t.es| <= N * |t.gs|
  {
  }

  lemma NoLowerSlot(mask: bv64, n: nat)
    requires n < N && forall q | 0 <= q < n :: !HasBit(mask, Pos(q))
    ensures forall q | 0 <= q < n :: q !in SlotsOf(mask)
  {
    hide HasBit, Pos;
  }

  lemma NoSlots()
    ensures SlotsOf(0) == {}
  {
    hide Pos;
    forall n: nat | n < N ensures !HasBit(0, Pos(n)) {
      ZeroHasNoBit(Pos(n));
    }
  }

  lemma ZeroHasNoBit(p: bv64)
    requires p < 64
    ensures !HasBit(0, p)
  {
  }

  lemma OccBounds(t: FoaIndex.Tab, s: nat)
    requires Occ(t, s)
    ensures s < |t.es| && s / N < |t.gs| && Pos(s % N) < 15
  {
    hide At, Pos;
    PosInjective(s % N, s % N);
  }

  /** Whether a slot may have caused overflow is read off its byte. */
  lemma CausedAgrees(t: FoaIndex.Tab, hs: Hasher, where: map<Key, nat>, s: nat)
    requires Indexed(t, hs, where) && Occ(t, s)
    ensures Pos(s % N) < 15
    ensures MaybeCausedOverflow(t.gs[s / N], Pos(s % N)) == Overflowed(t.gs[s / N], hs.code(t.es[s].key))
  {
    hide Byte, Pos, ReducedHash, IsNotOverflowed, MaybeCausedOverflow;
    OccBounds(t, s);
    assert SlotOk(t, hs, s);
    MaybeCausedOverflowAgrees(t.gs[s / N], Pos(s % N), hs.code(t.es[s].key));
  }

  lemma CanPutBounds(t: FoaIndex.Tab, hs: Hasher, where: map<Key, nat>, g: nat, n: nat, entry: Entry)
    requires CanPut(t, hs, where, g, n, entry)
    ensures g < |t.gs| && n < N && N * g + n < |t.es|
  {
    hide At;
    PutInBounds(t, g, n);
  }

  /** Copying one element: it is not yet in the target, which has room for it. */
  lemma CopyStep(m: map<Key, Value>, t: FoaIndex.Tab, hs: Hasher, where: map<Key, nat>, s: nat, extra: map<Key, Value>)
    requires IsCopied(m, t, hs, where, extra, s) && Occ(t, s) && extra.Keys !! where.Keys
    ensures t.es[s].key !in m && |m| < |where| + |extra|
    ensures IsCopied(m[t.es[s].key := t.es[s].val], t, hs, where, extra, s + 1)
  {
    hide Indexed, Prefix;
    PrefixStep(t, hs, where, s);
    PrefixSize(t, hs, where, s);
    UnionSize(extra, Prefix(t, hs, where, s));
    AddLast(extra, Prefix(t, hs, where, s), t.es[s]);
  }

  lemma CopyStart(t: FoaIndex.Tab, hs: Hasher, where: map<Key, nat>, extra: map<Key, Value>)
    requires Indexed(t, hs, where)
    ensures IsCopied(extra, t, hs, where, extra, 0)
  {
    hide Indexed, Prefix, Contents;
    PrefixWhole(t, hs, where, |t.es|);
    AddNothing(extra, Prefix(t, hs, where, 0));
  }

  lemma CopyEnd(m: map<Key, Value>, t: FoaIndex.Tab, hs: Hasher, where: map<Key, nat>, extra: map<Key, Value>, i: nat)
    requires IsCopied(m, t, hs, where, extra, i) && (i == N * |t.gs| || i == |t.es|)
    ensures m == extra + Contents(t, hs, where)
  {
    hide Prefix, Contents, At;
    PrefixWhole(t, hs, where, i);
  }

  lemma AddNothing(a: map<Key, Value>, b: map<Key, Value>)
    requires b == map[]
    ensures a + b == a
  {
  }

  lemma AddLast(a: map<Key, Value>, b: map<Key, Value>, e: Entry)
    ensures a + b[e.key := e.val] == (a + b)[e.key := e.val]
  {
  }

  lemma UnionSize(a: map<Key, Value>, b: map<Key, Value>)
    ensures |a + b| <= |a| + |b|
  {
    assert (a + b).Keys == a.Keys + b.Keys;
    assert |(a + b).Keys| <= |a.Keys| + |b.Keys|;
    assert |a| == |a.Keys| && |b| == |b.Keys| && |a + b| == |(a + b).Keys|;
  }

  /** A matching slot has an element. */
  lemma MatchInBounds(t: FoaIndex.Tab, hs: Hasher, where: map<Key, nat>, g: nat, n: nat, code: bv64)
    requires Indexed(t, hs, where) && g < |t.gs| && n < N && At(t.gs[g], n) == ReducedHash(code)
    ensures Occ(t, N * g + n)
  {
    hide At, ReducedHash;
    ReducedHashProperties(code);
  }

  lemma InSlots(mask: bv64, n: nat)
    requires n < N && HasBit(mask, Pos(n))
    ensures n in SlotsOf(mask)
  {
  }

  /** Of the candidate slots, those no longer in `left` do not hold the key. */
  ghost predicate NoneHolds(t: FoaIndex.Tab, g: nat, key: Key, slots: set<nat>, left: set<nat>)
  {
    forall n | n in slots && n !in left :: N * g + n < |t.es| && t.es[N * g + n].key != key
  }

  lemma NextMatch(t: FoaIndex.Tab, g: nat, key: Key, slots: set<nat>, mask: bv64, n: nat)
    requires IsMask(mask) && n < N && HasBit(mask, Pos(n)) && LowClear(mask, Pos(n))
    requires SlotsOf(mask) <= slots
    requires NoneHolds(t, g, key, slots, SlotsOf(mask)) && N * g + n < |t.es| && t.es[N * g + n].key != key
    ensures var mask' := ClearLowestBit(mask);
            && IsMask(mask') && SlotsOf(mask') < SlotsOf(mask)
            && NoneHolds(t, g, key, slots, SlotsOf(mask'))
  {
    hide HasBit, Pos, LowClear, IsMask, ClearLowestBit;
    assert n in SlotsOf(mask);
    ClearLowestSlot(mask, n);
    StaysSmall(mask);
  }

  /** If no slot marked with the reduced hash of a key holds it, the group does not. */
  lemma GroupSearched(t: FoaIndex.Tab, hs: Hasher, where: map<Key, nat>, g: nat, key: Key, slots: set<nat>)
    requires Indexed(t, hs, where) && g < |t.gs|
    requires slots == set n: nat | n < N && At(t.gs[g], n) == ReducedHash(hs.code(key))
    requires NoneHolds(t, g, key, slots, {})
    ensures NotInGroup(t, key, g)
  {
    hide At, ReducedHash, Reachable, IsPow2, Bounded;
    forall s | Occ(t, s) && s / N == g ensures t.es[s].key != key {
      assert SlotOk(t, hs, s);
      if At(t.gs[g], s % N) == ReducedHash(hs.code(key)) {
        assert s % N in slots && N * g + s % N == s;
      }
    }
  }

  /** Newly allocated groups index nothing. */
  lemma FreshGroups(gs: seq<Group>, es: seq<Entry>, hash: Key -> Hash64, e: nat, dummy: bool)
    requires 1 <= e <= 64 && |gs| == Pow2(e) >= 2
    requires |es| == if dummy then 0 else N * |gs| - 1
    requires forall g | 0 <= g < |gs| ::
               gs[g] == if dummy then DUMMY_GROUP else if g == |gs| - 1 then SetSentinel(ZERO_GROUP) else ZERO_GROUP
    ensures var t := FoaIndex.Tab(gs, es);
            && Indexed(t, Hashing(hash, e), map[]) && Contents(t, Hashing(hash, e), map[]) == map[]
            && (!dummy ==> Sized(t))
  {
    hide At, SetSentinel, Pow2, Hashing;
    var t := FoaIndex.Tab(gs, es);
    PowIsPow2(e);
    HashingOk(hash, e);
    forall g, n | 0 <= g < |gs| && 0 <= n < N
      ensures At(gs[g], n) == AVAILABLE || (At(gs[g], n) == SENTINEL && N * g + n >= |es|)
      ensures !dummy && g == |gs| - 1 && n == N - 1 ==> At(gs[g], n) == SENTINEL
    {
      InitialGroups(n);
      SentinelReads(ZERO_GROUP, n);
    }
    NothingIndexed(t, Hashing(hash, e));
  }

  lemma SentinelReads(g: Group, q: nat)
    requires q < 16
    ensures At(SetSentinel(g), q) == if q == N - 1 then SENTINEL else At(g, q)
  {
    hide Byte, SetImpl, Pos;
    SetImplReads(g, Pos(N - 1), SENTINEL, Pos(q));
    PosInjective(N - 1, q);
  }
}
