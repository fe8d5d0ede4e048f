/** The table of `ankerl::unordered_dense`: a vector of entries without holes, indexed by an
    array of Robin Hood buckets that is changed in place. An iterator is an index into the
    vector. */
module DenseTable {
  import opened Entries
  import opened EntryVectors
  import opened DenseBulk
  import opened DenseIndex
  import opened DenseSpacing
  import opened Modular
  import opened Powers

  const INITIAL_SHIFTS: nat := 61

  /** The 32-bit increments and decrements of a packed distance, which wrap around. */
  function DistInc(x: nat): nat { (x + DIST_INC) % 0x1_0000_0000 }
  function DistDec(x: nat): nat { (x + 0x1_0000_0000 - DIST_INC) % 0x1_0000_0000 }

  function NumBuckets(shifts: nat, maxBuckets: nat): (n: nat)
    requires shifts <= 64
    ensures n <= maxBuckets
  {
    if Pow2(64 - shifts) < maxBuckets then Pow2(64 - shifts) else maxBuckets
  }

  /** The bucket index is cast to the index type, which holds `maxBuckets` values. */
  function BucketIdx(h: Hash64, shifts: nat, maxBuckets: nat): nat
    requires maxBuckets > 0
  {
    PowPositive(shifts);
    h / Pow2(shifts) % maxBuckets
  }

  function Hashing(hash: Key -> Hash64, shifts: nat, maxBuckets: nat): Hasher
    requires maxBuckets > 0
  {
    Hasher(k => BucketIdx(hash(k), shifts, maxBuckets), k => hash(k) % DIST_INC)
  }

  lemma BucketIdxBound(h: Hash64, shifts: nat, maxBuckets: nat)
    requires shifts <= 64 && maxBuckets > 0
    ensures BucketIdx(h, shifts, maxBuckets) < NumBuckets(shifts, maxBuckets)
  {
    hide Pow2;
    ShiftedHashBound(h, shifts);
    var q := h / Pow2(shifts);
    if q < maxBuckets {
      DivModUnique(maxBuckets, 0, q);
    }
  }

  /** The top bits of a hash code are a bucket index. */
  lemma HashingOk(hash: Key -> Hash64, shifts: nat, maxBuckets: nat)
    requires shifts <= 64 && maxBuckets > 0
    ensures HasherOk(Hashing(hash, shifts, maxBuckets), NumBuckets(shifts, maxBuckets))
  {
    hide BucketIdx, NumBuckets;
    forall k ensures Hashing(hash, shifts, maxBuckets).home(k) < NumBuckets(shifts, maxBuckets) {
      BucketIdxBound(hash(k), shifts, maxBuckets);
    }
  }

  /** A probe's packed distance wraps around exactly when it leaves 24 bits. */
  lemma StepFits(hs: Hasher, n: nat, k: Key, j: nat)
    requires HasherOk(hs, n)
    ensures DistInc(ProbeDaf(hs, k, j)) == ProbeDaf(hs, k, j + 1) <==> j + 2 < 0x100_0000
  {
    assert hs.fp(k) < DIST_INC;
  }

  lemma FirstSteps(hs: Hasher, n: nat, k: Key, j: nat)
    requires HasherOk(hs, n) && j < n && j < 2
    ensures DistInc(ProbeDaf(hs, k, j)) == ProbeDaf(hs, k, j + 1)
    ensures Next(n, Fwd(n, hs.home(k), j)) == Fwd(n, hs.home(k), j + 1)
  {
    hide DistInc, ProbeDaf;
    StepFits(hs, n, k, j);
  }

  /** The next step of a probe that has not exceeded the bucket it met does not wrap. */
  lemma ProbeAdvance(bs: seq<Bucket>, vs: seq<Entry>, hs: Hasher, pos: seq<nat>, k: Key, j: nat)
    requires Indexed(bs, vs, hs, pos) && Fitting(vs, hs, |bs|) && j < |bs|
    requires ProbeDaf(hs, k, j) <= bs[Fwd(|bs|, hs.home(k), j)].daf
    ensures DistInc(ProbeDaf(hs, k, j)) == ProbeDaf(hs, k, j + 1)
    ensures Next(|bs|, Fwd(|bs|, hs.home(k), j)) == Fwd(|bs|, hs.home(k), j + 1)
  {
    hide DistInc, Matched, Ordered, Grounded, Fitting;
    IndexedIsNear(bs, vs, hs, pos);
    StepFits(hs, |bs|, k, j);
  }

  /** Beyond `REACH` it can: when some distance exceeds it, a probe for a key of the same home
      with no larger fingerprint is carried on step by step until its distance wraps. */
  lemma ProbeWraps(bs: seq<Bucket>, vs: seq<Entry>, hs: Hasher, pos: seq<nat>, p: nat, k: Key)
    requires Indexed(bs, vs, hs, pos) && Occ(bs, p) && bs[p].daf >= DIST_INC * (REACH + 1)
    requires bs[p].idx < |vs| && hs.home(k) == hs.home(vs[bs[p].idx].key) && hs.fp(k) <= hs.fp(vs[bs[p].idx].key)
    ensures REACH < |bs| && forall j | 0 <= j <= REACH :: ProbeDaf(hs, k, j) <= bs[Fwd(|bs|, hs.home(k), j)].daf
    ensures DistInc(ProbeDaf(hs, k, REACH)) != ProbeDaf(hs, k, REACH + 1)
  {
    hide DistInc;
    assert BucketOk(bs, vs, hs, p);
    forall j | 0 <= j <= REACH ensures ProbeDaf(hs, k, j) <= bs[Fwd(|bs|, hs.home(k), j)].daf {
      RunBound(bs, vs, hs, p, j);
    }
    StepFits(hs, |bs|, k, REACH);
  }

  lemma CarryingFacts(bs: seq<Bucket>, vs: seq<Entry>, hs: Hasher, pos: seq<nat>, c: Bucket, place: nat)
    requires Carrying(bs, vs, hs, pos, c, place)
    ensures c.idx < |pos| == |vs| && place < |bs|
  {
  }

  /** Moving a bucket one step up does not wrap its distance; `e` is an empty bucket. */
  lemma DistanceFits(bs: seq<Bucket>, vs: seq<Entry>, hs: Hasher, pos: seq<nat>, c: Bucket, place: nat, e: nat)
    requires Carrying(bs, vs, hs, pos, c, place) && Occ(bs, place) && Fitting(vs, hs, |bs|)
    requires e < |bs| && bs[e].daf == 0
    ensures DistInc(bs[place].daf) == bs[place].daf + DIST_INC
  {
    hide Ordered, Matched, Fitting;
    NearWhenSpaced(bs, vs, hs, pos, c.idx, place, e);
  }

  lemma IndexedSizes(bs: seq<Bucket>, vs: seq<Entry>, hs: Hasher, pos: seq<nat>)
    requires Indexed(bs, vs, hs, pos)
    ensures |pos| == |vs|
  {
  }

  lemma NumBucketsAtLeast8(shifts: nat, maxBuckets: nat)
    requires shifts <= INITIAL_SHIFTS && maxBuckets >= 8
    ensures NumBuckets(shifts, maxBuckets) >= 8
  {
    assert Pow2(3) == 8;
    PowMonotone(3, 64 - shifts);
  }

  /** Below the maximum, one shift less doubles the buckets, up to the maximum. */
  lemma GrowthDoubles(shifts: nat, maxBuckets: nat)
    requires shifts <= 64 && maxBuckets < 0x1_0000_0000_0000_0000
    ensures NumBuckets(shifts, maxBuckets) < maxBuckets ==>
              && shifts > 0
              && NumBuckets(shifts, maxBuckets) < NumBuckets(shifts - 1, maxBuckets) <= 2 * NumBuckets(shifts, maxBuckets)
  {
    Pow64();
    PowPositive(64 - shifts);
    assert shifts > 0 ==> Pow2(64 - (shifts - 1)) == 2 * Pow2(64 - shifts);
  }

  function AtMost(a: nat, b: nat): (r: nat)
    ensures r <= a && r <= b && (r == a || r == b)
  {
    if a < b then a else b
  }

  /** The first allocation has 16 buckets; each later one has twice as many. */
  lemma GrowthExactly(shifts: nat, maxBuckets: nat)
    requires 0 < shifts <= 64 && maxBuckets < 0x1_0000_0000_0000_0000
    ensures NumBuckets(shifts, maxBuckets) < maxBuckets ==>
              NumBuckets(shifts - 1, maxBuckets) == AtMost(2 * NumBuckets(shifts, maxBuckets), maxBuckets)
    ensures NumBuckets(INITIAL_SHIFTS - 1, maxBuckets) == AtMost(16, maxBuckets)
  {
    assert Pow2(64 - (shifts - 1)) == 2 * Pow2(64 - shifts);
    assert Pow2(4) == 16;
  }

  /** With as many buckets as there are values of the top bits, a key's home is the number
      that those bits form. */
  lemma HomeIsTopBits(h: Hash64, shifts: nat, maxBuckets: nat)
    requires shifts <= 64 && 0 < maxBuckets && Pow2(64 - shifts) <= maxBuckets
    ensures BucketIdx(h, shifts, maxBuckets) * Pow2(shifts) <= h < (BucketIdx(h, shifts, maxBuckets) + 1) * Pow2(shifts)
  {
    hide Pow2;
    PowPositive(64 - shifts);
    ShiftedHashBound(h, shifts);
    var q := h / Pow2(shifts);
    DivModUnique(maxBuckets, 0, q);
    assert h == Pow2(shifts) * q + h % Pow2(shifts);
  }

  /** The fingerprint is the lowest byte of the hash code. */
  lemma FingerprintIsLowByte(hash: Key -> Hash64, shifts: nat, maxBuckets: nat, k: Key)
    requires maxBuckets > 0
    ensures Hashing(hash, shifts, maxBuckets).fp(k) == hash(k) % 256
    ensures Hashing(hash, shifts, maxBuckets).home(k) == BucketIdx(hash(k), shifts, maxBuckets)
  {
  }

  lemma LoadBound(n: nat, f: real)
    requires 0.0 < f <= 1.0
    ensures 0 <= (n as real * f).Floor <= n
  {
    assert 0.0 <= n as real * f;
    assert n as real * (1.0 - f) >= 0.0;
  }

  /** Moving a bucket one step down does not wrap its distance. */
  lemma StoredDafFits(bs: seq<Bucket>, hole: nat)
    requires Near(bs) && hole < |bs| && bs[Next(|bs|, hole)].daf >= DIST_INC
    ensures DistDec(bs[Next(|bs|, hole)].daf) == bs[Next(|bs|, hole)].daf - DIST_INC
    ensures Near(ShiftedDown(bs, hole))
  {
  }

  lemma GapInRange(bs: seq<Bucket>, vs: seq<Entry>, hs: Hasher, pos: seq<nat>, hole: nat, gap: nat)
    requires Vacating(bs, vs, hs, pos, hole, gap)
    ensures gap < |vs|
  {
  }

  lemma MatchedSizes(bs: seq<Bucket>, vs: seq<Entry>, hs: Hasher, pos: seq<nat>, gap: int)
    requires Matched(bs, vs, hs, pos, -1, gap)
    ensures |pos| == |vs|
  {
  }

  lemma NextIsFwd(n: nat, h: nat, j: nat)
    requires h < n && j < n
    ensures Next(n, Fwd(n, h, j)) == Fwd(n, h, j + 1)
  {
  }

  lemma IndexedIsOrdered(bs: seq<Bucket>, vs: seq<Entry>, hs: Hasher, pos: seq<nat>)
    requires Indexed(bs, vs, hs, pos)
    ensures Ordered(bs) && Matched(bs, vs, hs, pos, -1, -1) && HasherOk(hs, |bs|)
  {
  }

  lemma ValueStored(bs: seq<Bucket>, vs: seq<Entry>, hs: Hasher, pos: seq<nat>, gap: int, v: nat)
    requires Matched(bs, vs, hs, pos, -1, gap) && v < |vs| && v != gap
    ensures v < |pos| && ValueOk(bs, pos, v)
  {
    assert ValueOk(bs, pos, v);
  }

  /** Repointing a bucket leaves its distance alone. */
  lemma StaysGrounded(bs: seq<Bucket>, place: nat, idx: nat)
    requires place < |bs| && Grounded(bs)
    ensures Grounded(bs[place := bs[place].(idx := idx)])
  {
    var w :| 0 <= w < |bs| && bs[w].daf < 2 * DIST_INC;
    assert bs[place := bs[place].(idx := idx)][w].daf < 2 * DIST_INC;
  }

  /** How many values `shifts` allows. */
  function CapacityFor(shifts: nat, maxBuckets: nat, maxLoad: real): int
    requires shifts <= 64
  {
    (NumBuckets(shifts, maxBuckets) as real * maxLoad).Floor
  }

  /** The largest shift, from `shifts` down, that allows `s` values, or 0. */
  function ShiftsFor(s: nat, shifts: nat, maxBuckets: nat, maxLoad: real): (r: nat)
    requires shifts <= 64
    ensures r <= shifts
    ensures r == 0 || CapacityFor(r, maxBuckets, maxLoad) >= s
    ensures r < shifts ==> CapacityFor(r + 1, maxBuckets, maxLoad) < s
  {
    if shifts > 0 && CapacityFor(shifts, maxBuckets, maxLoad) < s
    then ShiftsFor(s, shifts - 1, maxBuckets, maxLoad)
    else shifts
  }

  /** The shift found for `s` values provides a bucket for each of them. */
  lemma ShiftsForSuffice(s: nat, maxBuckets: nat, maxLoad: real)
    requires s <= maxBuckets < 0x1_0000_0000_0000_0000 && 0.0 < maxLoad <= 1.0
    ensures s <= NumBuckets(ShiftsFor(s, INITIAL_SHIFTS, maxBuckets, maxLoad), maxBuckets)
  {
    hide ShiftsFor, NumBuckets, CapacityFor;
    AllBucketsAtZero(maxBuckets);
    CapacityBound(ShiftsFor(s, INITIAL_SHIFTS, maxBuckets, maxLoad), maxBuckets, maxLoad);
  }

  lemma AllBucketsAtZero(maxBuckets: nat)
    requires maxBuckets < 0x1_0000_0000_0000_0000
    ensures NumBuckets(0, maxBuckets) == maxBuckets
  {
    Pow64();
  }

  lemma CapacityBound(shifts: nat, maxBuckets: nat, maxLoad: real)
    requires shifts <= 64 && 0.0 < maxLoad <= 1.0
    ensures CapacityFor(shifts, maxBuckets, maxLoad) <= NumBuckets(shifts, maxBuckets)
  {
    hide NumBuckets;
    LoadBound(NumBuckets(shifts, maxBuckets), maxLoad);
  }

  /** How many values a table fills before it grows: no load bound holds at the maximum. */
  function LimitFor(shifts: nat, maxBuckets: nat, maxLoad: real): int
    requires shifts <= 64
  {
    if NumBuckets(shifts, maxBuckets) == maxBuckets then maxBuckets else CapacityFor(shifts, maxBuckets, maxLoad)
  }

  lemma LimitBound(shifts: nat, maxBuckets: nat, maxLoad: real)
    requires shifts <= 64 && 0.0 < maxLoad <= 1.0
    ensures 0 <= CapacityFor(shifts, maxBuckets, maxLoad) <= LimitFor(shifts, maxBuckets, maxLoad) <= NumBuckets(shifts, maxBuckets)
  {
    hide NumBuckets;
    LoadBound(NumBuckets(shifts, maxBuckets), maxLoad);
  }

  lemma MoreBucketsHigherLimit(n: nat, m: nat, f: real)
    requires n <= m && 0.0 < f
    ensures (n as real * f).Floor <= (m as real * f).Floor
  {
    assert (m - n) as real * f >= 0.0;
    assert n as real * f <= m as real * f;
  }

  /** Any shift up to the one found for `s` values lets `s` values in without growing. */
  lemma ShiftsForLimit(s: nat, a: nat, maxBuckets: nat, maxLoad: real)
    requires s <= maxBuckets < 0x1_0000_0000_0000_0000 && 0.0 < maxLoad <= 1.0
    requires a <= ShiftsFor(s, INITIAL_SHIFTS, maxBuckets, maxLoad)
    ensures s <= LimitFor(a, maxBuckets, maxLoad)
  {
    hide ShiftsFor, NumBuckets;
    var b := ShiftsFor(s, INITIAL_SHIFTS, maxBuckets, maxLoad);
    AllBucketsAtZero(maxBuckets);
    FewerShiftsMoreBuckets(a, b, maxBuckets);
    MoreBucketsHigherLimit(NumBuckets(b, maxBuckets), NumBuckets(a, maxBuckets), maxLoad);
  }

  lemma FewerShiftsMoreBuckets(a: nat, b: nat, maxBuckets: nat)
    requires a <= b <= 64
    ensures NumBuckets(b, maxBuckets) <= NumBuckets(a, maxBuckets)
  {
    PowMonotone(64 - b, 64 - a);
  }

  lemma ReplacingFits(container: seq<Entry>, cur: seq<Entry>, i: nat, hs: Hasher, n: nat)
    requires Replacing(container, cur, i) && Spaced(KeySet(container), hs, n)
    ensures Fitting(cur[..i], hs, n)
  {
    assert forall e :: e in cur[..i] ==> e in cur;
    PartFits(cur[..i], container, hs, n);
  }

  datatype Emplaced = Overflow | Emplaced(idx: nat, inserted: bool)

  class Table {
    const hash: Key -> Hash64
    const maxBucketCount: nat
    var values: seq<Entry>
    var buckets: array<Bucket>
    var maxBucketCapacity: nat
    var maxLoadFactor: real
    var shifts: nat

    /** The bucket of each value. */
    ghost var pos: seq<nat>

    function Hs(): Hasher
      requires maxBucketCount > 0
      reads this
    {
      Hashing(hash, shifts, maxBucketCount)
    }

    /** The bucket array, if there is one, has the size the shift asks for and the limit that
        goes with that size. */
    ghost predicate Layout()
      reads this
    {
      && 8 <= maxBucketCount < 0x1_0000_0000_0000_0000 && 0.0 < maxLoadFactor <= 1.0 && shifts <= INITIAL_SHIFTS
      && (buckets.Length == 0 ==> shifts == INITIAL_SHIFTS && maxBucketCapacity == 0)
      && (buckets.Length > 0 ==>
            && 2 <= buckets.Length == NumBuckets(shifts, maxBucketCount)
            && maxBucketCapacity == LimitFor(shifts, maxBucketCount, maxLoadFactor))
    }

    ghost predicate Valid()
      reads this, buckets
    {
      && Layout() && DistinctKeys(values) && |values| <= buckets.Length
      && (buckets.Length > 0 ==> Indexed(buckets[..], values, Hs(), pos) && Fitting(values, Hs(), buckets.Length))
    }

    /** The keys are well spaced in a table of the size that `sh` asks for. */
    ghost predicate SpacedAt(keys: set<Key>, sh: nat)
      requires sh <= 64 && maxBucketCount > 0
    {
      Spaced(keys, Hashing(hash, sh, maxBucketCount), NumBuckets(sh, maxBucketCount))
    }

    /** The shift that the next insertion finds: one less if the table grows first. */
    function InsertShifts(): (sh: nat)
      reads this
      ensures sh <= shifts
    {
      if |values| >= maxBucketCapacity != maxBucketCount && shifts > 0 then shifts - 1 else shifts
    }

    ghost function Model(): map<Key, Value>
      requires DistinctKeys(values)
      reads this
    {
      Contents(values)
    }

    /** The values that a table takes before it grows are the largest number within the load
        factor, or the maximum. */
    lemma CapacityMeans()
      requires Valid() && buckets.Length > 0
      ensures buckets.Length == maxBucketCount ==> maxBucketCapacity == maxBucketCount
      ensures buckets.Length < maxBucketCount ==>
                maxBucketCapacity as real <= buckets.Length as real * maxLoadFactor < maxBucketCapacity as real + 1.0
    {
      hide Indexed, Fitting, NumBuckets;
    }

    /** The size that the next insertion finds has a bucket for one value more. */
    lemma RoomForOneMore()
      requires Valid() && !(|values| >= maxBucketCapacity == maxBucketCount)
      ensures |values| < NumBuckets(InsertShifts(), maxBucketCount)
    {
      hide Indexed, Fitting, Pow2, CapacityFor;
      LimitBound(shifts, maxBucketCount, maxLoadFactor);
      NumBucketsAtLeast8(if shifts > 0 then shifts - 1 else shifts, maxBucketCount);
      GrowthDoubles(shifts, maxBucketCount);
    }

    /** Finds `key`, checking two buckets without looking for an early exit before the
        loop. The result is its index, or the end. */
    method DoFind(key: Key) returns (idx: nat)
      requires Valid()
      ensures if idx < |values| then values[idx].key == key else idx == |values| && Absent(values, key)
    {
      if |values| == 0 {
        return 0;
      }
      hide Indexed, Fitting, BucketIdx, NumBuckets, DistInc, Next;
      ghost var bs, hs := buckets[..], Hs();
      HashingOk(hash, shifts, maxBucketCount);
      var daf := DIST_INC + hash(key) % DIST_INC;
      var place := BucketIdx(hash(key), shifts, maxBucketCount);
      ProbeStep(bs, values, hs, pos, key, 0);
      if daf == buckets[place].daf && values[buckets[place].idx].key == key {
        return buckets[place].idx;
      }
      daf, place := DistInc(daf), Next(buckets.Length, place);
      FirstSteps(hs, |bs|, key, 0);
      ProbeStep(bs, values, hs, pos, key, 1);
      if daf == buckets[place].daf && values[buckets[place].idx].key == key {
        return buckets[place].idx;
      }
      daf, place := DistInc(daf), Next(buckets.Length, place);
      FirstSteps(hs, |bs|, key, 1);
      ghost var j := 2;
      while true
        invariant 2 <= j <= |bs| && NotBefore(bs, values, hs, pos, key, j)
        invariant place == Fwd(|bs|, hs.home(key), j) && daf == ProbeDaf(hs, key, j)
        decreases |bs| - j
      {
        ProbeStep(bs, values, hs, pos, key, j);
        if daf == buckets[place].daf {
          if values[buckets[place].idx].key == key {
            return buckets[place].idx;
          }
        } else if daf > buckets[place].daf {
          return |values|;
        }
        ProbeAdvance(bs, values, hs, pos, key, j);
        daf, place := DistInc(daf), Next(buckets.Length, place);
        j := j + 1;
      }
    }

    /** Advances from the home of `key` while the probe carries less than the bucket met. */
    method NextWhileLess(key: Key, ghost vs: seq<Entry>) returns (daf: nat, place: nat, ghost j: nat)
      requires Layout() && buckets.Length > 0 && Indexed(buckets[..], vs, Hs(), pos) && Fitting(vs, Hs(), buckets.Length)
      ensures StopsAt(buckets[..], Hs(), key, j) && NotBefore(buckets[..], vs, Hs(), pos, key, j)
      ensures place == Fwd(buckets.Length, Hs().home(key), j) && daf == ProbeDaf(Hs(), key, j)
    {
      hide Indexed, Fitting, BucketIdx, NumBuckets, DistInc, Next;
      ghost var bs, hs := buckets[..], Hs();
      HashingOk(hash, shifts, maxBucketCount);
      daf := DIST_INC + hash(key) % DIST_INC;
      place := BucketIdx(hash(key), shifts, maxBucketCount);
      j := 0;
      ProbeStep(bs, vs, hs, pos, key, j);
      while daf < buckets[place].daf
        invariant j <= |bs| && NotBefore(bs, vs, hs, pos, key, j) && ShortOfEmpty(bs, hs.home(key), j)
        invariant place == Fwd(|bs|, hs.home(key), j) && daf == ProbeDaf(hs, key, j)
        invariant j > 0 ==> ProbeDaf(hs, key, j - 1) <= bs[Fwd(|bs|, hs.home(key), j - 1)].daf
        decreases |bs| - j
      {
        ProbeStep(bs, vs, hs, pos, key, j);
        ProbeAdvance(bs, vs, hs, pos, key, j);
        PassOccupied(bs, hs.home(key), j);
        daf, place := DistInc(daf), Next(buckets.Length, place);
        j := j + 1;
      }
    }

    /** Puts a bucket in its place, moving the buckets found on the way one step up until
        the last one reaches an empty bucket; `e` is some empty bucket. */
    method PlaceAndShiftUp(bucket: Bucket, place: nat, ghost vs: seq<Entry>, ghost e: nat)
      requires Layout() && buckets.Length > 0 && Carrying(buckets[..], vs, Hs(), pos, bucket, place)
      requires Fitting(vs, Hs(), buckets.Length)
      requires e < buckets.Length && buckets[e].daf == 0
      modifies buckets, `pos
      ensures Indexed(buckets[..], vs, Hs(), pos)
    {
      hide Carrying, Fitting, BucketIdx, NumBuckets, Next, DistInc;
      var carried: Bucket, at: nat := bucket, place;
      CarryingFacts(buckets[..], vs, Hs(), pos, carried, at);
      while buckets[at].daf != 0
        invariant at < buckets.Length && carried.idx < |pos| && buckets[e].daf == 0
        invariant Carrying(buckets[..], vs, Hs(), pos, carried, at)
        decreases Off(buckets.Length, at, e)
      {
        ghost var bs := buckets[..];
        ShiftUpStep(bs, vs, Hs(), pos, carried, at, e);
        DistanceFits(bs, vs, Hs(), pos, carried, at, e);
        var found := buckets[at];
        buckets[at] := carried;
        assert buckets[..] == bs[at := carried];
        pos := pos[carried.idx := at];
        carried, at := Bucket(DistInc(found.daf), found.idx), Next(buckets.Length, at);
        CarryingFacts(buckets[..], vs, Hs(), pos, carried, at);
      }
      ghost var bs := buckets[..];
      ShiftUpEnd(bs, vs, Hs(), pos, carried, at);
      buckets[at] := carried;
      assert buckets[..] == bs[at := carried];
      pos := pos[carried.idx := at];
    }

    /** Indexes the value that follows `vs`, whose key is new; `e` is some empty bucket. */
    method IndexNext(entry: Entry, idx: nat, ghost vs: seq<Entry>, ghost e: nat)
      requires Layout() && buckets.Length > 0 && Indexed(buckets[..], vs, Hs(), pos)
      requires idx == |vs| && Fitting(vs + [entry], Hs(), buckets.Length)
      requires e < buckets.Length && buckets[e].daf == 0
      modifies buckets, `pos
      ensures Indexed(buckets[..], vs + [entry], Hs(), pos)
    {
      hide Indexed, Fitting, Carrying;
      var daf, place;
      ghost var j;
      assert (vs + [entry])[..idx] == vs;
      PrefixFits(vs + [entry], idx, Hs(), buckets.Length);
      daf, place, j := NextWhileLess(entry.key, vs);
      StartCarrying(buckets[..], vs, Hs(), pos, entry, j, e);
      IndexedSizes(buckets[..], vs, Hs(), pos);
      pos := pos + [0];
      PlaceAndShiftUp(Bucket(daf, idx), place, vs + [entry], e);
    }

    /** Builds the index of the values, which have distinct keys, from scratch. */
    method ClearAndFillBucketsFromValues()
      requires Layout() && buckets.Length > 0 && |values| <= buckets.Length && Fitting(values, Hs(), buckets.Length)
      modifies buckets, `pos
      ensures Indexed(buckets[..], values, Hs(), pos)
    {
      hide Indexed, Fitting, BucketIdx, NumBuckets;
      forall p | 0 <= p < buckets.Length {
        buckets[p] := EMPTY;
      }
      pos := [];
      HashingOk(hash, shifts, maxBucketCount);
      EmptyIndexed(buckets[..], Hs());
      var i := 0;
      assert values[..i] == [];
      while i < |values|
        invariant i <= |values| && Indexed(buckets[..], values[..i], Hs(), pos)
      {
        ghost var e := RoomLeft(buckets[..], values[..i], Hs(), pos);
        assert values[..i + 1] == values[..i] + [values[i]];
        PrefixFits(values, i + 1, Hs(), buckets.Length);
        IndexNext(values[i], i, values[..i], e);
        i := i + 1;
      }
      assert values[..i] == values;
    }

    /** A new, uninitialised bucket array of the size the shift asks for. */
    method AllocateBucketsFromShift()
      requires 8 <= maxBucketCount < 0x1_0000_0000_0000_0000
      requires 0.0 < maxLoadFactor <= 1.0 && shifts <= INITIAL_SHIFTS
      modifies `buckets, `maxBucketCapacity
      ensures Layout() && fresh(buckets) && buckets.Length == NumBuckets(shifts, maxBucketCount) > 0
      ensures maxBucketCapacity ==
              if buckets.Length == maxBucketCount then maxBucketCount else (buckets.Length as real * maxLoadFactor).Floor
    {
      NumBucketsAtLeast8(shifts, maxBucketCount);
      var n := NumBuckets(shifts, maxBucketCount);
      buckets := new Bucket[n];
      LimitBound(shifts, maxBucketCount, maxLoadFactor);
      if n == maxBucketCount {
        maxBucketCapacity := maxBucketCount;
      } else {
        maxBucketCapacity := (n as real * maxLoadFactor).Floor;
      }
    }

    /** Doubles the buckets, or reports that the index type allows no more. */
    method IncreaseSize() returns (ok: bool)
      requires Valid() && (maxBucketCapacity != maxBucketCount && shifts > 0 ==> SpacedAt(KeySet(values), shifts - 1))
      modifies `buckets, `maxBucketCapacity, `shifts, `pos
      ensures Valid() && values == old(values)
      ensures ok <==> old(maxBucketCapacity) != maxBucketCount
      ensures ok ==> fresh(buckets) && |values| < buckets.Length && old(buckets.Length) < buckets.Length
      ensures ok ==> shifts == old(shifts) - 1
      ensures ok ==> buckets.Length == AtMost(if old(buckets.Length) == 0 then 16 else 2 * old(buckets.Length), maxBucketCount)
      ensures !ok ==> buckets == old(buckets) && pos == old(pos) && shifts == old(shifts) && maxBucketCapacity == old(maxBucketCapacity)
    {
      hide Indexed, Fitting, BucketIdx, Pow2, Spaced;
      if maxBucketCapacity == maxBucketCount {
        return false;
      }
      GrowthDoubles(shifts, maxBucketCount);
      GrowthExactly(shifts, maxBucketCount);
      shifts := shifts - 1;
      AllocateBucketsFromShift();
      SpacedFits(values, Hs(), buckets.Length);
      ClearAndFillBucketsFromValues();
      return true;
    }

    /** Looks for `key` among the indexed values `vs`. If it is absent, `daf` and `place`
        say where its bucket belongs. */
    method Probe(key: Key, ghost vs: seq<Entry>) returns (found: bool, daf: nat, place: nat, ghost j: nat)
      requires Layout() && buckets.Length > 0 && Indexed(buckets[..], vs, Hs(), pos)
      requires vs <= values && Fitting(vs, Hs(), buckets.Length)
      ensures place < buckets.Length
      ensures found ==> buckets[place].idx < |vs| && vs[buckets[place].idx].key == key
      ensures !found ==> Absent(vs, key) && StopsAt(buckets[..], Hs(), key, j)
      ensures !found ==> place == Fwd(buckets.Length, Hs().home(key), j) && daf == ProbeDaf(Hs(), key, j)
    {
      hide Indexed, Fitting, BucketIdx, NumBuckets, DistInc, Next;
      ghost var bs, hs := buckets[..], Hs();
      HashingOk(hash, shifts, maxBucketCount);
      daf := DIST_INC + hash(key) % DIST_INC;
      place := BucketIdx(hash(key), shifts, maxBucketCount);
      j := 0;
      while true
        invariant j <= |bs| && NotBefore(bs, vs, hs, pos, key, j) && ShortOfEmpty(bs, hs.home(key), j)
        invariant place == Fwd(|bs|, hs.home(key), j) && daf == ProbeDaf(hs, key, j)
        invariant j > 0 ==> ProbeDaf(hs, key, j - 1) <= bs[Fwd(|bs|, hs.home(key), j - 1)].daf
        decreases |bs| - j
      {
        ProbeStep(bs, vs, hs, pos, key, j);
        if daf == buckets[place].daf {
          if values[buckets[place].idx].key == key {
            found := true;
            return;
          }
        } else if daf > buckets[place].daf {
          found := false;
          return;
        }
        ProbeAdvance(bs, vs, hs, pos, key, j);
        PassOccupied(bs, hs.home(key), j);
        daf, place := DistInc(daf), Next(buckets.Length, place);
        j := j + 1;
      }
    }

    /** Doubles the buckets of a full table; a table that has room stays as it is. */
    method GrowIfFull(key: Key) returns (ok: bool)
      requires Valid()
      requires |values| >= maxBucketCapacity == maxBucketCount || SpacedAt(KeySet(values) + {key}, InsertShifts())
      modifies `buckets, `maxBucketCapacity, `shifts, `pos
      ensures Valid() && (buckets == old(buckets) || fresh(buckets))
      ensures old(|values| < maxBucketCapacity) || !ok ==> buckets == old(buckets) && maxBucketCapacity == old(maxBucketCapacity)
      ensures !ok <==> old(|values| >= maxBucketCapacity == maxBucketCount)
      ensures ok ==> |values| < buckets.Length && SpacedAt(KeySet(values) + {key}, shifts)
      ensures ok && old(|values| >= maxBucketCapacity) ==>
                buckets.Length == AtMost(if old(buckets.Length) == 0 then 16 else 2 * old(buckets.Length), maxBucketCount)
    {
      hide Indexed, Fitting, BucketIdx, NumBuckets, Spaced;
      LimitBound(shifts, maxBucketCount, maxLoadFactor);
      ok := true;
      if |values| >= maxBucketCapacity {
        ghost var sh := InsertShifts();
        if maxBucketCapacity != maxBucketCount && shifts > 0 {
          SpacedSubset(KeySet(values), KeySet(values) + {key}, Hashing(hash, sh, maxBucketCount), NumBuckets(sh, maxBucketCount));
        }
        ok := IncreaseSize();
      }
    }

    /** Inserts unless the key is stored already; the result is the key's index. */
    method DoTryEmplace(key: Key, val: Value) returns (r: Emplaced)
      requires Valid()
      requires |values| >= maxBucketCapacity == maxBucketCount || SpacedAt(KeySet(values) + {key}, InsertShifts())
      modifies `values, `buckets, `maxBucketCapacity, `shifts, `pos, buckets
      ensures Valid() && (buckets == old(buckets) || fresh(buckets))
      ensures old(|values| < maxBucketCapacity) ==> buckets == old(buckets)
      ensures r.Overflow? <==> old(|values| >= maxBucketCapacity == maxBucketCount)
      ensures r.Emplaced? && old(|values| >= maxBucketCapacity) ==>
                buckets.Length == AtMost(if old(buckets.Length) == 0 then 16 else 2 * old(buckets.Length), maxBucketCount)
      ensures r.Overflow? ==> values == old(values) && maxBucketCapacity == old(maxBucketCapacity)
      ensures r.Emplaced? && !r.inserted ==> values == old(values) && r.idx < |values| && values[r.idx].key == key
      ensures r.Emplaced? && r.inserted ==>
                old(Absent(values, key)) && values == old(values) + [Entry(key, val)] && r.idx == |values| - 1
    {
      hide Indexed, Fitting, Spaced, BucketIdx, NumBuckets, LimitFor, StopsAt, Fwd, ProbeDaf;
      var ok := GrowIfFull(key);
      if !ok {
        return Overflow;
      }
      var found, daf, place;
      ghost var j;
      found, daf, place, j := Probe(key, values);
      if found {
        return Emplaced(buckets[place].idx, false);
      }
      AppendedFits(values, Entry(key, val), Hs(), buckets.Length);
      var idx := DoPlaceElement(daf, place, key, val, j);
      return Emplaced(idx, true);
    }

    /** Appends the entry of a new key, whose probe stops at `place`, and indexes it. */
    method DoPlaceElement(daf: nat, place: nat, key: Key, val: Value, ghost j: nat) returns (idx: nat)
      requires Valid() && |values| < buckets.Length && Absent(values, key) && StopsAt(buckets[..], Hs(), key, j)
      requires Fitting(values + [Entry(key, val)], Hs(), buckets.Length)
      requires place == Fwd(buckets.Length, Hs().home(key), j) && daf == ProbeDaf(Hs(), key, j)
      modifies `values, `pos, buckets
      ensures Valid() && values == old(values) + [Entry(key, val)] && idx == |values| - 1
    {
      hide Indexed, Fitting, Carrying, BucketIdx, NumBuckets, LimitFor;
      ghost var e := RoomLeft(buckets[..], values, Hs(), pos);
      StartCarrying(buckets[..], values, Hs(), pos, Entry(key, val), j, e);
      Appended(values, Entry(key, val));
      IndexedSizes(buckets[..], values, Hs(), pos);
      idx := |values|;
      values := values + [Entry(key, val)];
      pos := pos + [0];
      PlaceAndShiftUp(Bucket(daf, idx), place, values, e);
    }

    /** Empties the bucket `start` by shifting the buckets after it down, up to an empty
        bucket or an entry at home. Nothing refers to the bucket's value afterwards. */
    method ShiftDown(start: nat) returns (ghost gap: nat)
      requires Layout() && start < buckets.Length && Occ(buckets[..], start) && Fitting(values, Hs(), buckets.Length)
      requires Indexed(buckets[..], values, Hs(), pos)
      modifies buckets, `pos
      ensures gap == old(buckets[start].idx) < |values|
      ensures Ordered(buckets[..]) && Grounded(buckets[..]) && Matched(buckets[..], values, Hs(), pos, -1, gap)
    {
      hide Vacating, Fitting, BucketIdx, NumBuckets, Ordered, Matched;
      var hole: nat, next: nat := start, Next(buckets.Length, start);
      gap := buckets[start].idx;
      ghost var w :| 0 <= w < buckets.Length && buckets[..][w].daf < 2 * DIST_INC;
      IndexedIsNear(buckets[..], values, Hs(), pos);
      StartVacating(buckets[..], values, Hs(), pos, start);
      while buckets[next].daf >= 2 * DIST_INC
        invariant hole < buckets.Length && next == Next(buckets.Length, hole)
        invariant Vacating(buckets[..], values, Hs(), pos, hole, gap)
        invariant buckets[w].daf < 2 * DIST_INC && Near(buckets[..])
        decreases if hole == w then buckets.Length else Off(buckets.Length, hole, w)
      {
        ghost var bs := buckets[..];
        ShiftDownStep(bs, values, Hs(), pos, hole, gap);
        StoredDafFits(bs, hole);
        pos := pos[buckets[next].idx := hole];
        buckets[hole] := Bucket(DistDec(buckets[next].daf), buckets[next].idx);
        assert buckets[..] == ShiftedDown(bs, hole);
        hole, next := next, Next(buckets.Length, next);
      }
      ghost var bs := buckets[..];
      ClearHole(bs, values, Hs(), pos, hole, gap);
      GapInRange(bs, values, Hs(), pos, hole, gap);
      buckets[hole] := EMPTY;
      assert buckets[..] == bs[hole := EMPTY];
      assert buckets[..][hole].daf < 2 * DIST_INC;
    }

    /** Fills the place of value `gap`, which no bucket refers to, with the last value and
        repoints that value's bucket, found by scanning from its home. */
    method MoveLastInto(gap: nat)
      requires Layout() && buckets.Length >= 2 && gap < |values|
      requires Ordered(buckets[..]) && Grounded(buckets[..]) && Matched(buckets[..], values, Hs(), pos, -1, gap)
      modifies buckets, `pos, `values
      ensures values == RemoveAt(old(values), gap) && Indexed(buckets[..], values, Hs(), pos)
    {
      hide Ordered, Matched, Fitting, BucketIdx, NumBuckets;
      ghost var bs, vs, hs := buckets[..], values, Hs();
      HashingOk(hash, shifts, maxBucketCount);
      var last := |values| - 1;
      if gap != last {
        values := values[gap := values[last]];
        var place := FindValue(last, values[gap].key, vs, gap);
        Repointed(bs, vs, hs, pos, gap);
        buckets[place] := buckets[place].(idx := gap);
        assert buckets[..] == bs[place := bs[place].(idx := gap)];
        StaysGrounded(bs, place, gap);
        pos := pos[gap := place][..last];
      } else {
        LastDropped(bs, vs, hs, pos);
        MatchedSizes(bs, vs, hs, pos, gap);
        pos := pos[..last];
      }
      values := values[..last];
    }

    /** The bucket that refers to value `v`, met before any empty bucket. */
    method FindValue(v: nat, key: Key, ghost vs: seq<Entry>, ghost gap: int) returns (place: nat)
      requires Layout() && buckets.Length >= 2
      requires Ordered(buckets[..]) && Matched(buckets[..], vs, Hs(), pos, -1, gap)
      requires v < |vs| && v != gap && vs[v].key == key
      ensures place < buckets.Length && Occ(buckets[..], place) && buckets[place].idx == v
      ensures v < |pos| && place == pos[v]
    {
      hide Ordered, Matched, Fitting, BucketIdx, NumBuckets, Next;
      ghost var bs, hs := buckets[..], Hs();
      HashingOk(hash, shifts, maxBucketCount);
      ValueStored(bs, vs, hs, pos, gap, v);
      place := BucketIdx(hash(key), shifts, maxBucketCount);
      ghost var j := 0;
      ScanStep(bs, vs, hs, pos, gap, v, j);
      while v != buckets[place].idx
        invariant j <= Off(|bs|, hs.home(key), pos[v]) && place == Fwd(|bs|, hs.home(key), j)
        invariant forall i | 0 <= i <= j :: Occ(bs, Fwd(|bs|, hs.home(key), i))
        decreases |bs| - j
      {
        ScanStep(bs, vs, hs, pos, gap, v, j);
        NextIsFwd(|bs|, hs.home(key), j);
        place := Next(buckets.Length, place);
        j := j + 1;
        ScanStep(bs, vs, hs, pos, gap, v, j);
      }
      ScanStep(bs, vs, hs, pos, gap, v, j);
    }

    /** Erases the value that bucket `bucketIdx` refers to. */
    method DoErase(bucketIdx: nat)
      requires Valid() && Occ(buckets[..], bucketIdx)
      modifies buckets, `pos, `values
      ensures Valid() && old(buckets[bucketIdx].idx) < old(|values|)
      ensures values == RemoveAt(old(values), old(buckets[bucketIdx].idx))
    {
      hide Indexed, Fitting, Ordered, Matched, Grounded, BucketIdx, NumBuckets;
      var gap := buckets[bucketIdx].idx;
      ghost var g := ShiftDown(bucketIdx);
      RemovedKeepsDistinct(values, gap);
      RemovedFits(values, gap, Hs(), buckets.Length);
      MoveLastInto(gap);
    }

    /** Looks for the bucket of `key`: first passes the buckets that hold more than the
        probe, then those that tie with it but hold another key. */
    method FindBucket(key: Key) returns (found: bool, place: nat)
      requires Valid() && |values| > 0
      ensures found ==> Occ(buckets[..], place) && buckets[place].idx < |values| && values[buckets[place].idx].key == key
      ensures !found ==> Absent(values, key)
    {
      hide Indexed, Fitting, Ordered, Grounded, BucketIdx, NumBuckets, Next, DistInc;
      ghost var bs, hs, vs := buckets[..], Hs(), values;
      HashingOk(hash, shifts, maxBucketCount);
      IndexedIsOrdered(bs, vs, hs, pos);
      var daf;
      ghost var j;
      daf, place, j := NextWhileLess(key, values);
      ProbeStep(bs, vs, hs, pos, key, j);
      while daf == buckets[place].daf && values[buckets[place].idx].key != key
        invariant j <= |bs| && NotBefore(bs, vs, hs, pos, key, j)
        invariant place == Fwd(|bs|, hs.home(key), j) && daf == ProbeDaf(hs, key, j)
        invariant daf >= buckets[place].daf
        invariant daf == buckets[place].daf ==> buckets[place].idx < |vs|
        decreases |bs| - j
      {
        ProbeStep(bs, vs, hs, pos, key, j);
        AfterTie(bs, hs, key, j);
        ProbeAdvance(bs, vs, hs, pos, key, j);
        daf, place := DistInc(daf), Next(buckets.Length, place);
        j := j + 1;
        ProbeStep(bs, vs, hs, pos, key, j);
      }
      ProbeStep(bs, vs, hs, pos, key, j);
      found := daf == buckets[place].daf;
    }

    /** Erases `key` if it is stored. */
    method DoEraseKey(key: Key) returns (count: nat)
      requires Valid()
      modifies buckets, `pos, `values
      ensures Valid() && count == (if key in old(Model()) then 1 else 0)
      ensures Model() == old(Model()) - {key}
      ensures count == 0 ==> values == old(values)
      ensures count == 1 ==> exists i :: 0 <= i < old(|values|) && old(values)[i].key == key && values == RemoveAt(old(values), i)
      ensures |values| == old(|values|) - count
    {
      hide Indexed, Fitting, BucketIdx, NumBuckets;
      if |values| == 0 {
        return 0;
      }
      var found, place := FindBucket(key);
      if !found {
        return 0;
      }
      Removed(values, buckets[place].idx);
      DoErase(place);
      return 1;
    }

    /** Erases the value at index `idx`, whose bucket is found by scanning for the index. */
    method EraseAt(idx: nat)
      requires Valid() && idx < |values|
      modifies buckets, `pos, `values
      ensures Valid() && values == RemoveAt(old(values), idx)
    {
      hide Indexed, Fitting, Ordered, Matched, Grounded, BucketIdx, NumBuckets;
      IndexedIsOrdered(buckets[..], values, Hs(), pos);
      var place := FindValue(idx, values[idx].key, values, -1);
      DoErase(place);
    }

    /** Like `DoTryEmplace`, but an existing key gets the new value. */
    method DoInsertOrAssign(key: Key, val: Value) returns (r: Emplaced)
      requires Valid()
      requires |values| >= maxBucketCapacity == maxBucketCount || SpacedAt(KeySet(values) + {key}, InsertShifts())
      modifies `values, `buckets, `maxBucketCapacity, `shifts, `pos, buckets
      ensures Valid() && (buckets == old(buckets) || fresh(buckets))
      ensures old(|values| < maxBucketCapacity) ==> buckets == old(buckets)
      ensures r.Overflow? <==> old(|values| >= maxBucketCapacity == maxBucketCount)
      ensures r.Overflow? ==> values == old(values) && maxBucketCapacity == old(maxBucketCapacity)
      ensures r.Emplaced? ==> Model() == old(Model())[key := val] && r.idx < |values| && values[r.idx] == Entry(key, val)
      ensures r.Emplaced? && r.inserted ==> values == old(values) + [Entry(key, val)]
      ensures r.Emplaced? && !r.inserted ==> r.idx < old(|values|) && values == old(values)[r.idx := Entry(key, val)]
      ensures r.Emplaced? ==> r.inserted == (key !in old(Model()))
    {
      hide Indexed, Fitting, BucketIdx, NumBuckets;
      r := DoTryEmplace(key, val);
      if r.Emplaced? {
        if r.inserted {
          Appended(old(values), Entry(key, val));
        } else {
          Lookup(values, r.idx);
          Reassigned(buckets[..], values, Hs(), pos, r.idx, val);
          ReassignedFits(values, r.idx, val, Hs(), buckets.Length);
          values := values[r.idx := Entry(values[r.idx].key, val)];
        }
      }
    }

    method ClearAll()
      requires Valid()
      modifies `values, `pos, buckets
      ensures Valid() && values == []
    {
      hide Indexed, Fitting, BucketIdx, NumBuckets;
      values := [];
      pos := [];
      forall p | 0 <= p < buckets.Length {
        buckets[p] := EMPTY;
      }
      HashingOk(hash, shifts, maxBucketCount);
      if buckets.Length > 0 {
        EmptyIndexed(buckets[..], Hs());
        NothingFits(Hs(), buckets.Length);
      }
    }

    /** Erases the values at the positions from `first` to before `last`: from the left as
        long as the values moved into the holes come from beyond `last`, then from the back. */
    method EraseRange(first: nat, last: nat) returns (next: nat)
      requires Valid() && first <= last <= |values|
      modifies buckets, `pos, `values
      ensures Valid() && next == first && |values| == old(|values|) - (last - first)
      ensures values[..first] == old(values[..first])
      ensures Model() == old(Model()) - KeysIn(old(values), first, last)
      ensures forall p | first <= p < last && p < |values| :: values[p] == old(values)[old(|values|) - 1 - (p - first)]
      ensures forall p | last <= p < |values| :: values[p] == old(values)[p]
    {
      hide Indexed, Fitting, BucketIdx, NumBuckets, Contents, DistinctKeys, KeysIn, FilledFromBack;
      ghost var vs := values;
      var firstToLast, lastToEnd := last - first, |values| - last;
      var mid := first + if firstToLast < lastToEnd then firstToLast else lastToEnd;
      EraseHead(first, mid);
      EraseTail(first, mid, last, vs);
      FilledMeans(vs, values, first, mid - first);
      return first;
    }

    /** The first loop of a range erasure: the last values fill the holes. */
    method EraseHead(first: nat, mid: nat)
      requires Valid() && first <= mid && mid - first <= |values| - mid
      modifies buckets, `pos, `values
      ensures Valid() && |values| == old(|values|) - (mid - first)
      ensures Erasing(old(values), values, KeysIn(old(values), first, mid), first, mid)
      ensures FilledFromBack(old(values), values, first, mid - first)
    {
      hide Indexed, Fitting, BucketIdx, NumBuckets, Contents, DistinctKeys, KeysIn, FilledFromBack;
      ghost var vs := values;
      var idx := first;
      KeysJoin(vs, first, first, mid);
      NothingFilled(vs, first);
      while idx != mid
        invariant first <= idx <= mid && Valid() && |values| == |vs| - (idx - first)
        invariant Erasing(vs, values, KeysIn(vs, first, idx), first, idx) && FilledFromBack(vs, values, first, idx - first)
      {
        FillFront(vs, values, KeysIn(vs, first, idx), first, idx - first);
        EraseFront(vs, values, KeysIn(vs, first, idx), first, idx);
        KeysJoin(vs, first, idx, idx + 1);
        EraseAt(idx);
        idx := idx + 1;
      }
    }

    /** The second loop of a range erasure: what is left of the range are the last values. */
    method EraseTail(first: nat, mid: nat, last: nat, ghost vs: seq<Entry>)
      requires Valid() && first <= mid <= last <= |vs| && (mid == last || |values| == last)
      requires Erasing(vs, values, KeysIn(vs, first, mid), first, mid) && FilledFromBack(vs, values, first, mid - first)
      modifies buckets, `pos, `values
      ensures Valid() && |values| == old(|values|) - (last - mid) && FilledFromBack(vs, values, first, mid - first)
      ensures Erasing(vs, values, KeysIn(vs, first, last), first, mid)
    {
      hide Indexed, Fitting, BucketIdx, NumBuckets, Contents, DistinctKeys, KeysIn, Erasing, RemoveAt, FilledFromBack;
      KeysJoin(vs, first, mid, last);
      KeysJoin(vs, mid, last, last);
      assert KeysIn(vs, first, mid) + KeysIn(vs, last, last) == KeysIn(vs, first, mid);
      var idx := last;
      while idx != mid
        invariant mid <= idx <= last && Valid() && |values| == old(|values|) - (last - idx)
        invariant FilledFromBack(vs, values, first, mid - first)
        invariant Erasing(vs, values, KeysIn(vs, first, mid) + KeysIn(vs, idx, last), first, mid)
      {
        idx := idx - 1;
        EraseBackward(vs, values, KeysIn(vs, first, mid), first, mid, idx, last);
        FillStays(vs, values, first, mid - first);
        EraseAt(idx);
      }
    }

    /** Erases every entry that satisfies `pred`, from back to front. */
    method EraseIf(pred: Entry -> bool) returns (count: nat)
      requires Valid()
      modifies buckets, `pos, `values
      ensures Valid() && Model() == Unmatched(old(Model()), pred)
      ensures Model() == map k | k in old(Model()) && !pred(Entry(k, old(Model())[k])) :: old(Model())[k]
      ensures values == Swept(old(values), pred, old(|values|))
      ensures count == |old(Model())| - |Model()|
    {
      hide Indexed, Fitting, BucketIdx, NumBuckets, Contents, DistinctKeys, Sweeping, Unmatched, RemoveAt, Swept;
      UnmatchedMeans(Model(), pred);
      ghost var vs := values;
      ContentsSize(vs);
      var oldSize := |values|;
      var idx: nat := oldSize;
      SweepStart(vs, pred);
      while idx > 0
        invariant idx <= |vs| && |values| <= |vs| && Valid() && Sweeping(vs, values, pred, idx)
        invariant idx <= |values| && Swept(vs, pred, |vs|) == Swept(values, pred, idx)
      {
        SweptStep(values, pred, idx);
        SweepStep(vs, values, pred, idx);
        idx := idx - 1;
        if pred(values[idx]) {
          EraseAt(idx);
        }
      }
      SweepDone(vs, values, pred);
      SweptDone(values, pred);
      ContentsSize(values);
      return oldSize - |values|;
    }

    /** An empty table without buckets. */
    constructor (hash: Key -> Hash64, maxBucketCount: nat)
      requires 8 <= maxBucketCount < 0x1_0000_0000_0000_0000
      ensures Valid() && values == [] && this.hash == hash && this.maxBucketCount == maxBucketCount
      ensures fresh(buckets) && maxLoadFactor == 0.8
    {
      this.hash, this.maxBucketCount := hash, maxBucketCount;
      values, pos, maxBucketCapacity := [], [], 0;
      buckets := new Bucket[0];
      maxLoadFactor, shifts := 0.8, INITIAL_SHIFTS;
    }

    method CalcShiftsForSize(s: nat) returns (r: nat)
      ensures r == ShiftsFor(s, INITIAL_SHIFTS, maxBucketCount, maxLoadFactor)
    {
      hide CapacityFor, NumBuckets;
      r := INITIAL_SHIFTS;
      while r > 0 && CapacityFor(r, maxBucketCount, maxLoadFactor) < s
        invariant r <= INITIAL_SHIFTS
        invariant ShiftsFor(s, r, maxBucketCount, maxLoadFactor) == ShiftsFor(s, INITIAL_SHIFTS, maxBucketCount, maxLoadFactor)
      {
        r := r - 1;
      }
    }

    /** New buckets of the size given by `newShifts`, filled from the values. */
    method Reindex(newShifts: nat)
      requires Valid() && newShifts <= INITIAL_SHIFTS
      requires |values| <= NumBuckets(newShifts, maxBucketCount) && SpacedAt(KeySet(values), newShifts)
      modifies `buckets, `maxBucketCapacity, `shifts, `pos
      ensures Valid() && fresh(buckets) && shifts == newShifts && buckets.Length == NumBuckets(newShifts, maxBucketCount)
    {
      hide Indexed, Fitting, BucketIdx, NumBuckets;
      shifts := newShifts;
      AllocateBucketsFromShift();
      SpacedFits(values, Hs(), buckets.Length);
      ClearAndFillBucketsFromValues();
    }

    /** The shift for as many values as requested, up to the maximum, or as are stored. */
    function TargetShifts(count: nat): (sh: nat)
      requires maxBucketCount > 0
      reads this
      ensures sh <= INITIAL_SHIFTS
    {
      var c := if count < maxBucketCount then count else maxBucketCount;
      ShiftsFor(if c < |values| then |values| else c, INITIAL_SHIFTS, maxBucketCount, maxLoadFactor)
    }

    /** Makes room for `capa` values; never shrinks. */
    method Reserve(capa: nat)
      requires Valid()
      requires var sh := TargetShifts(capa); buckets.Length == 0 || sh < shifts ==> SpacedAt(KeySet(values), sh)
      modifies `buckets, `maxBucketCapacity, `shifts, `pos
      ensures Valid() && (buckets == old(buckets) || fresh(buckets))
      ensures maxBucketCapacity >= (if capa < maxBucketCount then capa else maxBucketCount)
      ensures maxBucketCapacity >= |values| && buckets.Length >= old(buckets.Length)
    {
      hide Indexed, Fitting, BucketIdx, NumBuckets, ShiftsFor, CapacityFor;
      var c := if capa < maxBucketCount then capa else maxBucketCount;
      var s := if c < |values| then |values| else c;
      var newShifts := CalcShiftsForSize(s);
      ShiftsForSuffice(s, maxBucketCount, maxLoadFactor);
      if buckets.Length == 0 || newShifts < shifts {
        if buckets.Length > 0 {
          FewerShiftsMoreBuckets(newShifts, shifts, maxBucketCount);
        }
        Reindex(newShifts);
      }
      ShiftsForLimit(s, shifts, maxBucketCount, maxLoadFactor);
    }

    /** Changes the number of buckets to what `count` values, or those stored, need. */
    method Rehash(count: nat)
      requires Valid() && (TargetShifts(count) != shifts ==> SpacedAt(KeySet(values), TargetShifts(count)))
      modifies `buckets, `maxBucketCapacity, `shifts, `pos
      ensures Valid() && (buckets == old(buckets) || fresh(buckets))
      ensures shifts == old(TargetShifts(count))
      ensures buckets.Length > 0 ==>
                maxBucketCapacity >= |values| && maxBucketCapacity >= (if count < maxBucketCount then count else maxBucketCount)
    {
      hide Indexed, Fitting, BucketIdx, NumBuckets, ShiftsFor, CapacityFor;
      var c := if count < maxBucketCount then count else maxBucketCount;
      var s := if c < |values| then |values| else c;
      var newShifts := CalcShiftsForSize(s);
      ShiftsForSuffice(s, maxBucketCount, maxLoadFactor);
      if newShifts != shifts {
        Reindex(newShifts);
      }
      ShiftsForLimit(s, shifts, maxBucketCount, maxLoadFactor);
    }

    /** Takes over a container, keeping one value for every key in it. */
    method Replace(container: seq<Entry>) returns (ok: bool)
      requires Valid()
      requires |container| <= maxBucketCount ==>
                 var sh := ShiftsFor(|container|, INITIAL_SHIFTS, maxBucketCount, maxLoadFactor);
                 SpacedAt(KeySet(container), if buckets.Length == 0 || sh < shifts then sh else shifts)
      modifies `values, `buckets, `maxBucketCapacity, `shifts, `pos, buckets
      ensures ok == (|container| <= maxBucketCount) && Valid()
      ensures !ok ==> values == old(values)
      ensures ok ==> forall k :: k in Model() <==> HasKey(container, k)
      ensures ok ==> forall k :: k in Model() ==> Entry(k, Model()[k]) in container
      ensures ok ==> forall e :: e in values ==> e in container
      ensures ok ==> values == Dedup(container, 0)
      ensures ok ==> forall n: nat | n <= |container| && DistinctKeys(container[..n]) ::
                n <= |values| && values[..n] == container[..n]
    {
      hide Indexed, Fitting, BucketIdx, NumBuckets, ShiftsFor, Contents, DistinctKeys, Dedup;
      if |container| > maxBucketCount {
        return false;
      }
      var newShifts := CalcShiftsForSize(|container|);
      ShiftsForSuffice(|container|, maxBucketCount, maxLoadFactor);
      if buckets.Length == 0 || newShifts < shifts {
        shifts := newShifts;
        AllocateBucketsFromShift();
      } else {
        FewerShiftsMoreBuckets(shifts, newShifts, maxBucketCount);
      }
      FillFromContainer(container);
      ReplaceDone(container, values);
      PartFits(values, container, Hs(), buckets.Length);
      forall n: nat | n <= |container| && DistinctKeys(container[..n]) ensures n <= |values| && values[..n] == container[..n] {
        FirstWins(container, n);
      }
      return true;
    }

    /** Clears the buckets and indexes the container, dropping values with a known key. */
    method FillFromContainer(container: seq<Entry>)
      requires Layout() && buckets.Length > 0 && |container| <= buckets.Length && Spaced(KeySet(container), Hs(), buckets.Length)
      modifies buckets, `pos, `values
      ensures Indexed(buckets[..], values, Hs(), pos) && Replacing(container, values, |values|)
      ensures values == Dedup(container, 0)
    {
      hide Indexed, Fitting, BucketIdx, NumBuckets, Dedup;
      forall p | 0 <= p < buckets.Length {
        buckets[p] := EMPTY;
      }
      values, pos := container, [];
      HashingOk(hash, shifts, maxBucketCount);
      EmptyIndexed(buckets[..], Hs());
      var i: nat := 0;
      ReplaceStart(container);
      while i != |values|
        invariant Replacing(container, values, i) && Indexed(buckets[..], values[..i], Hs(), pos)
        invariant Dedup(container, 0) == Dedup(values, i)
        decreases |values| - i
      {
        i := FillNext(i, container);
      }
      assert values[..i] == values;
      AllPassed(values);
    }

    method FillNext(i: nat, ghost container: seq<Entry>) returns (next: nat)
      requires Layout() && buckets.Length > 0 && |container| <= buckets.Length && i < |values|
      requires Spaced(KeySet(container), Hs(), buckets.Length)
      requires Replacing(container, values, i) && Indexed(buckets[..], values[..i], Hs(), pos)
      modifies buckets, `pos, `values
      ensures Replacing(container, values, next) && Indexed(buckets[..], values[..next], Hs(), pos)
      ensures i <= next <= |values| && |values| - next == old(|values|) - i - 1
      ensures values == if next == i then RemoveAt(old(values), i) else old(values)
      ensures Dedup(values, next) == Dedup(old(values), i)
    {
      hide Indexed, Fitting, Carrying, Replacing, Dedup, BucketIdx, NumBuckets;
      var found, daf, place;
      ghost var j;
      ghost var vs := values[..i];
      ReplacingSizes(container, values, i);
      ReplacingFits(container, values, i, Hs(), buckets.Length);
      found, daf, place, j := Probe(values[i].key, vs);
      if found {
        ReplaceDrop(container, values, i, buckets[place].idx);
        DedupDrops(values, i, buckets[place].idx);
        assert RemoveAt(values, i)[..i] == vs;
        if i != |values| - 1 {
          values := values[i := values[|values| - 1]];
        }
        values := values[..|values| - 1];
        return i;
      }
      ReplaceKeep(container, values, i);
      DedupKeeps(values, i);
      ghost var e := RoomLeft(buckets[..], vs, Hs(), pos);
      StartCarrying(buckets[..], vs, Hs(), pos, values[i], j, e);
      IndexedSizes(buckets[..], vs, Hs(), pos);
      assert values[..i + 1] == vs + [values[i]];
      ReplacingFits(container, values, i + 1, Hs(), buckets.Length);
      pos := pos + [0];
      PlaceAndShiftUp(Bucket(daf, i), place, values[..i + 1], e);
      return i + 1;
    }
  }
}
