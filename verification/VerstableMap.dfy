/** The Verstable map of `cc.h` as the source has it: a header, a metadata array and a
    bucket array changed in place. A pointer-iterator is a bucket index. */
module VerstableMap {
  import opened Entries
  import opened Triangular
  import opened VerstableChains
  import opened VerstableContents
  import opened VerstableGrowth
  import opened VerstableIteration
  import opened VerstablePlain
  import opened VerstableRefinement

  /** Which of four metadata read at once is the first that is not empty. */
  function FirstNonzero(m0: Meta, m1: Meta, m2: Meta, m3: Meta): (k: nat)
    ensures k < 4
  {
    if m0 != EMPTY then 0 else if m1 != EMPTY then 1 else if m2 != EMPTY then 2 else 3
  }

  /** Which of them is the last that is not empty, counted from the end. */
  function LastNonzero(m0: Meta, m1: Meta, m2: Meta, m3: Meta): (k: nat)
    ensures k < 4
  {
    if m3 != EMPTY then 0 else if m2 != EMPTY then 1 else if m1 != EMPTY then 2 else 3
  }

  class Map {
    const hash: Key -> Hash64
    const maxLoad: real
    var size: nat
    const capMask: nat
    const metadata: array<Meta>
    const buckets: array<Entry>

    ghost var dist: seq<nat>
    ghost var where: map<Key, nat>

    function N(): nat { capMask + 1 }

    /** The bucket count, which is zero for a placeholder. */
    function Cap(): nat { if capMask == 0 then 0 else capMask + 1 }

    ghost function Tab(): Table
      requires N() <= metadata.Length
      reads metadata, buckets
    {
      Table(metadata[..N()], buckets[..])
    }

    /** The arrays have the allocated layout: after the `N()` metadata comes the
        iteration stopper and three more excess metadata. A placeholder has one empty
        metadatum; its single bucket is never touched. */
    ghost predicate Layout()
      reads metadata
    {
      && IsPow2(N()) && buckets.Length == N() && maxLoad > 0.0
      && if capMask == 0 then metadata.Length == 1 && metadata[0] == EMPTY
         else N() >= MIN_NONZERO_BUCKET_COUNT && metadata.Length == N() + 4 && metadata[N()] == Meta(0, false, 1)
    }

    /** The weak invariant: the occupied buckets hold exactly the map's entries. */
    ghost predicate Weak()
      reads this, metadata, buckets
    {
      Layout() && Indexed(Tab(), where) && size == |where|
    }

    /** The weak invariant and the strong chain invariant. */
    ghost predicate Valid()
      reads this, metadata, buckets
    {
      Weak() && Strong(Tab(), hash, dist)
    }

    /** The abstract map. */
    ghost function Model(): map<Key, Value>
      requires Weak()
      reads this, metadata, buckets
    {
      Contents(Tab(), where)
    }

    /** What the buckets hold. */
    ghost function Plain(): (s: Slots)
      requires N() <= metadata.Length && buckets.Length == N()
      ensures |s| == N()
      reads metadata, buckets
    {
      SlotsOf(Tab())
    }

    /** The table's own settings together with the allocator's. */
    ghost function EnvOf(grants: nat -> bool, limit: nat): Env
    {
      Env(hash, maxLoad, grants, limit)
    }

    /** A table at rest as a plain one. */
    lemma PlainAtRest(grants: nat -> bool, limit: nat)
      requires Valid() && WithinLoad()
      ensures WellPlaced(Plain(), hash) && AtRest(Plain(), EnvOf(grants, limit)) && KeysOf(Plain()) == Model().Keys
    {
      hide Strong, Indexed, IsPow2, SlotsOf, Contents, Fits;
      SlotsIndexed(Tab(), where);
      StrongIsWellPlaced(Tab(), hash, dist, where);
      ContentsSize(Tab(), where);
    }

    /** The load-factor check that refuses one more entry. */
    predicate Overloaded()
      reads this
    {
      !Fits(size + 1, maxLoad, Cap())
    }

    /** Both sides of the load factor: when one more entry is refused, and what a table at
        rest keeps. */
    lemma LoadFactorMeans()
      requires Weak()
      ensures Overloaded() <==> (|Model()| + 1) as real > maxLoad * (if capMask == 0 then 0 else capMask + 1) as real
      ensures WithinLoad() <==> |Model()| as real <= maxLoad * (if capMask == 0 then 0 else capMask + 1) as real
    {
      ContentsSize(Tab(), where);
      hide Indexed, Contents;
    }

    /** The load-factor constraint on a state at rest. */
    ghost predicate WithinLoad()
      reads this
    {
      Fits(size, maxLoad, Cap())
    }

    /** Losing entries cannot violate the load factor. */
    lemma StaysWithinLoad(before: nat)
      requires size <= before && Fits(before, maxLoad, Cap())
      ensures WithinLoad()
    {
    }

    /** Some occupied bucket has no empty bucket within the displacement limit. */
    ghost predicate Congested()
      requires Layout()
      reads metadata, buckets
    {
      exists h :: Occ(Tab(), h) && OutOfReach(Tab(), h)
    }

    /** The iterator `b` points to the entry with key `key`. */
    ghost predicate Holds(b: nat, key: Key)
      reads this
    {
      key in where && where[key] == b
    }

    function HomeBucket(k: Key): nat { HomeOf(hash, N(), k) }

    /** A freshly allocated, empty table of `cap` buckets, or the placeholder for 0. */
    constructor (hash: Key -> Hash64, maxLoad: real, cap: nat)
      requires maxLoad > 0.0 && (cap == 0 || (cap >= MIN_NONZERO_BUCKET_COUNT && IsPow2(cap)))
      ensures Valid() && Model() == map[] && size == 0
      ensures Cap() == cap && this.hash == hash && this.maxLoad == maxLoad
      ensures Plain() == Blank(if cap == 0 then 1 else cap)
      ensures fresh(metadata) && fresh(buckets)
    {
      this.hash := hash;
      this.maxLoad := maxLoad;
      this.size := 0;
      var n := if cap == 0 then 1 else cap;
      this.capMask := n - 1;
      var md := new Meta[if cap == 0 then 1 else cap + 4](_ => EMPTY);
      var kv := new Entry[n];
      if cap != 0 {
        md[cap] := Meta(0, false, 1);
      }
      this.metadata := md;
      this.buckets := kv;
      this.dist := seq(n, _ => 0);
      this.where := map[];
      new;
      assert forall b :: !Occ(Tab(), b);
      assert Contents(Tab(), where) == map[];
    }

    /** The first empty bucket per quadratic probing from `home`, which is occupied. */
    method FindFirstEmpty(home: nat) returns (ok: bool, empty: nat, displacement: nat)
      requires Layout() && home < N()
      ensures ok ==> && 1 <= displacement < LIMIT && empty == Slot(N(), home, displacement)
                     && empty < N() && metadata[empty] == EMPTY
      ensures forall d | 1 <= d < (if ok then displacement else LIMIT) :: Occ(Tab(), Slot(N(), home, d))
      ensures ok <==> !OutOfReach(Tab(), home)
      ensures ok && Occ(Tab(), home) ==> displacement < N()
      ensures FirstEmpty(Plain(), home, 1) == if ok then displacement else LIMIT
    {
      displacement := 1;
      var linear := 1;
      ghost var t := Tab();
      while true
        invariant 1 <= displacement < LIMIT && linear == Tri(displacement)
        invariant forall d | 1 <= d < displacement :: Occ(t, Slot(N(), home, d))
        decreases LIMIT - displacement
      {
        empty := (home + linear) % N();
        if metadata[empty] == EMPTY {
          assert !Occ(t, Slot(N(), home, displacement));
          FirstEmptyIsNear(t, home, displacement);
          FirstEmptyIs(SlotsOf(t), home, 1, displacement);
          return true, empty, displacement;
        }
        assert Occ(t, Slot(N(), home, displacement));
        TriStep(displacement);
        displacement := displacement + 1;
        if displacement == LIMIT {
          FirstEmptyIs(SlotsOf(t), home, 1, LIMIT);
          return false, empty, displacement;
        }
        linear := linear + displacement;
      }
    }

    /** The entry of `home`'s chain after which an entry at `displacement` belongs. The
        metadata agree with the chains of `t` wherever `t` is occupied. */
    method FindInsertLocationInChain(home: nat, displacement: nat, ghost t: Table)
      returns (candidate: nat)
      requires metadata.Length >= N() == |t.md| && Strong(t, hash, dist)
      requires forall b :: Occ(t, b) ==> metadata[b] == t.md[b]
      requires home < N() && t.md[home].inHome && 0 < displacement < LIMIT
      requires !Occ(t, Slot(N(), home, displacement))
      ensures Occ(t, candidate) && Home(t, hash, candidate) == home
      ensures dist[candidate] < displacement < t.md[candidate].disp
    {
      candidate := home;
      HeadIsHome(t, hash, dist, home);
      while true
        invariant Occ(t, candidate) && Home(t, hash, candidate) == home && dist[candidate] < displacement
        decreases LIMIT - dist[candidate]
      {
        var disp := metadata[candidate].disp;
        if disp > displacement {
          return;
        }
        InsertStep(t, hash, dist, candidate, displacement);
        ChainStep(t, hash, dist, candidate);
        candidate := Slot(N(), home, disp);
      }
    }

    /** The entry before bucket `bucket` on the chain of `home`, starting at `from`. */
    method FindPrevious(home: nat, from: nat, bucket: nat, ghost t: Table) returns (prev: nat)
      requires metadata.Length >= N() == |t.md| && metadata[..N()] == t.md
      requires Strong(t, hash, dist) && Occ(t, from) && Occ(t, bucket)
      requires Home(t, hash, from) == Home(t, hash, bucket) == home && dist[from] < dist[bucket]
      ensures Follows(t, hash, dist, prev, bucket) && dist[from] <= dist[prev]
    {
      prev := from;
      while true
        invariant Occ(t, prev) && Home(t, hash, prev) == home && dist[from] <= dist[prev] < dist[bucket]
        decreases LIMIT - dist[prev]
      {
        NothingSkipped(t, hash, dist, prev, bucket);
        ChainStep(t, hash, dist, prev);
        var next := Slot(N(), home, metadata[prev].disp);
        NothingSkipped(t, hash, dist, next, bucket);
        if next == bucket {
          break;
        }
        prev := next;
      }
    }

    /** Stores an entry in the empty bucket `empty` and links it after the one in `at`. */
    method LinkInto(empty: nat, at: nat, displacement: nat, frag: nat, entry: Entry)
      requires N() <= metadata.Length && buckets.Length == N()
      requires empty < N() && at < N() && empty != at
      modifies metadata, buckets
      ensures Tab() == LinkAfter(old(Tab()), at, empty, displacement, frag, entry)
      ensures metadata[N()..] == old(metadata[N()..])
    {
      buckets[empty] := entry;
      metadata[empty] := Meta(frag, false, metadata[at].disp);
      metadata[at] := metadata[at].(disp := displacement);
    }

    /** Takes the entry of `bucket` off its chain but leaves it in its bucket. */
    method Disconnect(bucket: nat) returns (ghost prev: nat)
      requires Valid() && Occ(Tab(), bucket) && !metadata[bucket].inHome
      modifies metadata
      ensures Follows(old(Tab()), hash, dist, prev, bucket)
      ensures Tab() == Skip(old(Tab()), prev, bucket) && metadata[N()..] == old(metadata[N()..])
    {
      ghost var t := Tab();
      var home := HomeBucket(buckets[bucket].key);
      EvictHome(t, hash, dist, bucket);
      var p := FindPrevious(home, home, bucket, t);
      metadata[p] := metadata[p].(disp := metadata[bucket].disp);
      prev := p;
    }

    /** Moves the disconnected entry of `bucket` to the empty bucket `empty` and links it
        into its chain again. `t` is the table before the entry was disconnected. */
    method Reconnect(home: nat, bucket: nat, empty: nat, displacement: nat, ghost t: Table, ghost prev: nat)
      requires N() <= metadata.Length && buckets.Length == N() && Follows(t, hash, dist, prev, bucket)
      requires Tab() == Skip(t, prev, bucket) && Indexed(t, where) && !t.md[bucket].inHome
      requires home == Home(t, hash, bucket) && 0 < displacement < LIMIT && displacement < N()
      requires empty == Slot(N(), home, displacement) && !Occ(t, empty)
      modifies `dist, `where, metadata, buckets
      ensures Strong(Clear(Tab(), bucket), hash, dist) && Indexed(Clear(Tab(), bucket), where)
      ensures Contents(Clear(Tab(), bucket), where) == Contents(t, old(where))
      ensures where.Keys == old(where.Keys) && metadata[N()..] == old(metadata[N()..])
      ensures SlotsOf(Clear(Tab(), bucket)) == SlotsOf(t)[empty := Some(t.kv[bucket])][bucket := None]
    {
      hide Strong, Indexed, Fits, SlotsOf;
      DisconnectedTable(t, hash, dist, where, prev, bucket);
      SlotsDisconnected(t, hash, dist, prev, bucket);
      var at := FindInsertLocationInChain(home, displacement, Unlink(t, prev, bucket));
      ghost var key := buckets[bucket].key;
      EvictionKeepsStrong(t, hash, dist, prev, bucket, empty, displacement, at);
      EvictionKeepsContents(t, hash, dist, where, prev, bucket, empty, displacement, at);
      ClearCommutes(Skip(t, prev, bucket), bucket, at, empty, displacement, t.md[bucket].frag, t.kv[bucket]);
      SlotsRelinked(Skip(t, prev, bucket), hash, dist, bucket, at, empty, displacement, t.md[bucket].frag, t.kv[bucket]);
      LinkInto(empty, at, displacement, metadata[bucket].frag, buckets[bucket]);
      dist, where := dist[empty := displacement], where[key := empty];
    }

    /** Moves the entry of `bucket`, which does not belong there, to an empty bucket. On
        success the metadatum of `bucket` is stale: once it is cleared or overwritten the
        table is as strong as before. On failure the entry is unlinked from its chain. */
    method Evict(bucket: nat) returns (ok: bool)
      requires Valid() && Occ(Tab(), bucket) && !metadata[bucket].inHome
      modifies `dist, `where, metadata, buckets
      ensures Layout() && where.Keys == old(where.Keys)
      ensures ok ==> Strong(Clear(Tab(), bucket), hash, dist) && Indexed(Clear(Tab(), bucket), where)
      ensures ok ==> Contents(Clear(Tab(), bucket), where) == old(Model())
      ensures !ok ==> Weak() && Model() == old(Model()) && where == old(where) && Congested()
      ensures !ok ==> forall dist' :: !Strong(Tab(), hash, dist')
      ensures ok <==> !old(OutOfReach(Tab(), Home(Tab(), hash, bucket)))
      ensures ok ==> SlotsOf(Clear(Tab(), bucket)) == old(Vacated(Plain(), hash, bucket))
      ensures !ok ==> Plain() == old(Plain())
    {
      hide Strong, Indexed, Fits, SlotsOf, FirstEmpty;
      ghost var t := Tab();
      SlotHolds(t, bucket);
      var home := HomeBucket(buckets[bucket].key);
      ghost var prev := Disconnect(bucket);
      SkipBreaksChain(t, hash, dist, prev, bucket);
      SlotsDisconnected(t, hash, dist, prev, bucket);
      DisconnectedTable(t, hash, dist, where, prev, bucket);
      var empty, displacement;
      ok, empty, displacement := FindFirstEmpty(home);
      if ok {
        Reconnect(home, bucket, empty, displacement, t, prev);
      }
    }

    /** Starts a chain in the home bucket, whose metadatum is empty or stale. */
    method PlaceAtHome(key: Key, val: Value)
      requires Layout() && capMask != 0 && size == |where| && key !in where
      requires var t := Clear(Tab(), HomeBucket(key)); Strong(t, hash, dist) && Indexed(t, where)
      modifies `size, `dist, `where, metadata, buckets
      ensures Valid() && Model() == old(Contents(Clear(Tab(), HomeBucket(key)), where))[key := val]
      ensures where == old(where)[key := HomeBucket(key)] && size == old(size) + 1
      ensures Plain() == old(SlotsOf(Clear(Tab(), HomeBucket(key))))[HomeBucket(key) := Some(Entry(key, val))]
    {
      hide SlotsOf;
      var home := HomeBucket(key);
      ghost var t := Tab();
      SlotsPlacedHome(Clear(t, home), home, Frag(hash(key)), Entry(key, val));
      PlacementKeeps(Clear(t, home), hash, dist, where, Entry(key, val));
      buckets[home] := Entry(key, val);
      metadata[home] := Meta(Frag(hash(key)), true, LIMIT);
      assert Tab() == PlaceHome(Clear(t, home), home, Frag(hash(key)), Entry(key, val));
      dist, where := dist[home := 0], where[key := home];
      size := size + 1;
    }

    /** Vacates the home bucket if need be and starts a chain there. */
    method InsertAtHome(key: Key, val: Value) returns (ok: bool)
      requires Valid() && capMask != 0 && !metadata[HomeBucket(key)].inHome && key !in where
      modifies `size, `dist, `where, metadata, buckets
      ensures ok ==> Valid() && Model() == old(Model())[key := val] && Holds(HomeBucket(key), key)
      ensures ok ==> size == old(size) + 1
      ensures !ok ==> Weak() && Model() == old(Model()) && where == old(where) && size == old(size) && Congested()
      ensures ok <==> !old(Stuck(Tab(), hash, key))
      ensures ok ==> Placed(old(Plain()), hash, Entry(key, val)) == Some(Plain())
      ensures !ok ==> Plain() == old(Plain())
    {
      hide Strong, Indexed, Contents, SlotsOf, OutOfReach, Placed, Vacated, NoPlace;
      var home := HomeBucket(key);
      SlotHolds(Tab(), home);
      StuckHasNoPlace(Tab(), hash, key);
      PlacingMeans(Plain(), hash, Entry(key, val));
      if metadata[home] != EMPTY {
        EvictHome(Tab(), hash, dist, home);
        ok := Evict(home);
        if !ok {
          return;
        }
        SameSize(old(where), where);
      } else {
        assert Clear(Tab(), home) == Tab();
      }
      PlaceAtHome(key, val);
      ok := true;
    }

    /** Appends to the chain of the home bucket, which holds the start of one. */
    method InsertInChain(key: Key, val: Value) returns (itr: Option<nat>)
      requires Valid() && capMask != 0 && metadata[HomeBucket(key)].inHome && key !in where
      modifies `size, `dist, `where, metadata, buckets
      ensures itr.Some? ==> Valid() && Model() == old(Model())[key := val] && where == old(where)[key := itr.value]
      ensures itr.Some? ==> size == old(size) + 1
      ensures itr.None? ==> Valid() && Tab() == old(Tab()) && where == old(where) && size == old(size) && Congested()
      ensures itr.Some? <==> !old(Stuck(Tab(), hash, key))
      ensures itr.Some? ==> Placed(old(Plain()), hash, Entry(key, val)) == Some(Plain())
    {
      hide SlotsOf, FirstEmpty, Fits, Consecutive, BucketOk, Contents;
      ghost var t := Tab();
      var home := HomeBucket(key);
      HeadIsHome(t, hash, dist, home);
      SlotHolds(t, home);
      var ok, empty, displacement := FindFirstEmpty(home);
      if !ok {
        return None;
      }
      var at := FindInsertLocationInChain(home, displacement, t);
      LinkingKeeps(t, hash, dist, where, at, empty, displacement, Entry(key, val));
      SlotsLinked(t, at, empty, displacement, Frag(hash(key)), Entry(key, val));
      LinkInto(empty, at, displacement, Frag(hash(key)), Entry(key, val));
      dist, where := dist[empty := displacement], where[key := empty];
      size := size + 1;
      return Some(empty);
    }

    /** The bucket of `key`, found by walking the chain of its home bucket and comparing
        fragments before keys. */
    method FindInChain(key: Key) returns (itr: Option<nat>)
      requires Valid() && metadata[HomeBucket(key)].inHome
      ensures itr == if key in where then Some(where[key]) else None
    {
      ghost var t := Tab();
      var home, frag := HomeBucket(key), Frag(hash(key));
      var bucket := home;
      HeadIsHome(t, hash, dist, home);
      while true
        invariant Missed(t, hash, dist, key, bucket)
        decreases LIMIT - dist[bucket]
      {
        SearchHit(t, hash, dist, where, key, bucket);
        if metadata[bucket].frag == frag && buckets[bucket].key == key {
          return Some(bucket);
        }
        var disp := metadata[bucket].disp;
        SearchStep(t, hash, dist, where, key, bucket);
        if disp == LIMIT {
          return None;
        }
        bucket := Slot(N(), home, disp);
      }
    }

    /** Up to 1024 buckets, and with fewer entries than the limit in any number of buckets, the
        displacement limit never refuses an entry. */
    lemma NeverCongestedWhenSmall()
      requires Weak()
      ensures (N() <= 1024 || size < LIMIT) && maxLoad <= 1.0 && !Overloaded() ==> !Congested()
    {
      if (N() <= 1024 || size < LIMIT) && maxLoad <= 1.0 && !Overloaded() && Congested() {
        FitsInBuckets(size + 1, maxLoad, Cap());
        var h :| Occ(Tab(), h) && OutOfReach(Tab(), h);
        OutOfReachNeedsMany(Tab(), where, h);
      }
    }

    /** Replaces the entry of bucket `b`, which holds `key`. */
    method Overwrite(b: nat, key: Key, val: Value)
      requires Valid() && Holds(b, key)
      modifies buckets
      ensures Valid() && Model() == old(Model())[key := val] && b < N() && Plain() == old(Plain())[b := Some(Entry(key, val))]
    {
      hide Strong, Contents, SlotsOf;
      ReplacementKeeps(Tab(), hash, dist, where, b, Entry(key, val));
      SlotsUpdated(Tab(), b, Entry(key, val));
      buckets[b] := Entry(key, val);
      assert Tab() == old(Tab()).(kv := old(Tab()).kv[b := Entry(key, val)]);
    }

    /** Inserts unless the load factor or the displacement limit forbids it; an existing
        key keeps its bucket and, if `replace` is set, gets the new value. */
    method InsertRaw(key: Key, val: Value, replace: bool) returns (itr: Option<nat>)
      requires Valid()
      modifies `size, `dist, `where, metadata, buckets
      ensures itr.Some? ==> Valid() && Holds(itr.value, key)
      ensures itr.Some? ==>
                Model() == old(Model())[key := if replace || key !in old(Model()) then val else old(Model())[key]]
      ensures key in old(where) ==> itr == Some(old(where)[key])
      ensures itr.None? ==> Weak() && Model() == old(Model()) && key !in Model()
      ensures itr.None? ==> if old(Overloaded()) then Valid() && Tab() == old(Tab()) else Congested()
      ensures key !in old(where) ==> (itr.None? <==> old(Overloaded() || Stuck(Tab(), hash, key)))
      ensures old(WithinLoad()) ==> WithinLoad()
      ensures itr.None? ==> Plain() == old(Plain())
      ensures Tried(old(Plain()), key, val, replace, hash, maxLoad) == if itr.Some? then Some(Plain()) else None
    {
      hide Fits, Strong, Indexed, Contents, Stuck, SlotsOf, Placed, NoPlace, Find;
      Lookup(Tab(), where, key);
      FoundWhere(Tab(), where, key);
      SlotsIndexed(Tab(), where);
      StuckHasNoPlace(Tab(), hash, key);
      if !metadata[HomeBucket(key)].inHome {
        StoredKeyFlagsHome(Tab(), hash, dist, where, key);
        if Overloaded() {
          return None;
        }
        FitsSomewhere(size + 1, maxLoad, Cap());
        var ok := InsertAtHome(key, val);
        return if ok then Some(HomeBucket(key)) else None;
      }
      itr := FindInChain(key);
      if itr.Some? {
        if replace {
          Overwrite(itr.value, key, val);
        }
        return;
      }
      if Overloaded() {
        return None;
      }
      itr := InsertInChain(key, val);
    }

    /** Inserts a key known to be absent, without a load-factor check. */
    method Reinsert(key: Key, val: Value) returns (ok: bool)
      requires Valid() && capMask != 0 && key !in where
      modifies `size, `dist, `where, metadata, buckets
      ensures ok ==> Valid() && Model() == old(Model())[key := val] && size == old(size) + 1
      ensures !ok ==> Weak() && Model() == old(Model()) && size == old(size) && Congested()
      ensures ok <==> !old(Stuck(Tab(), hash, key))
      ensures Placed(old(Plain()), hash, Entry(key, val)) == if ok then Some(Plain()) else None
    {
      hide Strong, Indexed, Contents, Stuck, SlotsOf, Placed, NoPlace;
      StuckHasNoPlace(Tab(), hash, key);
      if !metadata[HomeBucket(key)].inHome {
        ok := InsertAtHome(key, val);
      } else {
        var itr := InsertInChain(key, val);
        ok := itr.Some?;
      }
    }

    /** Reinserts the entry of bucket `i`, if any, into `target`. */
    method TransferBucket(i: nat, target: Map) returns (ok: bool)
      requires Weak() && i < N() && target.Valid() && target.Model() == Prefix(Tab(), where, i) && target.capMask != 0
      requires target.hash == hash
      requires this != target && metadata != target.metadata && buckets != target.buckets
      modifies target`size, target`dist, target`where, target.metadata, target.buckets
      ensures ok ==> target.Valid() && target.Model() == Prefix(Tab(), where, i + 1)
      ensures !ok ==> target.size < size && target.Weak() && target.Congested()
      ensures Scanned(Plain(), i, hash, old(target.Plain())) ==
              if ok then Scanned(Plain(), i + 1, hash, target.Plain()) else None
    {
      hide Strong, Indexed, Contents, Stuck, SlotsOf, Placed, NoPlace, Prefix;
      PrefixStep(Tab(), where, i);
      SlotHolds(Tab(), i);
      if metadata[i] == EMPTY {
        return true;
      }
      PrefixSmaller(Tab(), where, i);
      ContentsSize(target.Tab(), target.where);
      ok := target.Reinsert(buckets[i].key, buckets[i].val);
    }

    /** Reinserts every entry into the empty table `target`, bucket by bucket and without
        looking at the chains, until one does not fit. */
    method TransferTo(target: Map) returns (ok: bool)
      requires Weak() && target.Valid() && target.Model() == map[] && target.capMask != 0 && target.hash == hash
      requires this != target && metadata != target.metadata && buckets != target.buckets
      modifies target`size, target`dist, target`where, target.metadata, target.buckets
      ensures ok ==> target.Valid() && target.Model() == Model()
      ensures !ok ==> target.size < size && target.Weak() && target.Congested()
      ensures Scanned(Plain(), 0, hash, old(target.Plain())) == if ok then Some(target.Plain()) else None
    {
      hide Strong, Indexed, Contents, IsPow2, SlotsOf, Scanned, Prefix;
      ghost var t, s, s0 := Tab(), Plain(), target.Plain();
      PrefixWhole(t, where);
      var i := 0;
      while i < Cap()
        invariant i <= N()
        invariant target.Valid() && target.Model() == Prefix(t, where, i)
        invariant Scanned(s, 0, hash, s0) == Scanned(s, i, hash, target.Plain())
      {
        ok := TransferBucket(i, target);
        if !ok {
          return;
        }
        i := i + 1;
      }
      if capMask == 0 {
        AllEmptyPrefix(t, where);
        SlotHolds(t, 0);
      }
      ScannedAll(s, i, hash, target.Plain());
      ok := true;
    }

    /** A new table of `cap` buckets, complete if it is not smaller than this one. */
    method TryRehash(cap: nat) returns (table: Map)
      requires Weak() && IsPow2(cap) && cap >= MIN_NONZERO_BUCKET_COUNT
      ensures fresh(table) && fresh(table.metadata) && fresh(table.buckets)
      ensures table.hash == hash && table.maxLoad == maxLoad && table.Cap() == cap
      ensures table.size >= size ==> table.Valid() && table.Model() == Model() && table.size == size
      ensures table.size < size ==> table.Weak() && table.Congested()
      ensures Scanned(Plain(), 0, hash, Blank(cap)) == if table.size < size then None else Some(table.Plain())
    {
      hide Strong, Indexed, Contents, IsPow2, Scanned, SlotsOf;
      table := new Map(hash, maxLoad, cap);
      var ok := TransferTo(table);
      if ok {
        ContentsSize(table.Tab(), table.where);
        ContentsSize(Tab(), where);
      }
    }

    /** A complete table of `cap` buckets, or null if some entry finds no place there. */
    method RehashInto(cap: nat, ghost env: Env) returns (table: Map?)
      requires Weak() && IsPow2(cap) && cap >= MIN_NONZERO_BUCKET_COUNT
      requires EnvOk(env) && env.grants(cap) && env.hash == hash
      ensures table != null ==>
                && fresh(table) && fresh(table.metadata) && fresh(table.buckets) && table.Valid() && table.Model() == Model()
                && table.hash == hash && table.maxLoad == maxLoad && table.Cap() == cap && table.size == size
      ensures Rehashed(Plain(), cap, env) == if table == null then Rehashed(Plain(), 2 * cap, env) else Rebuilt(table.Plain())
    {
      hide Strong, Indexed, Contents, IsPow2, SlotsOf, Scanned, Rehashed;
      RehashedStep(Plain(), cap, env);
      table := TryRehash(cap);
      if table.size < size {
        table := null;
      }
    }

    /** A rehash of few entries asks for one capacity only. */
    lemma FewAskOnce(cap: nat, env: Env)
      requires Weak() && EnvOk(env) && IsPow2(cap) && cap > 0
      ensures size <= cap && size <= LIMIT ==>
                match Rehashed(Plain(), cap, env)
                case Denied(asked) => asked == cap
                case Rebuilt(s) => |s| == cap
    {
      hide SlotsOf, IsPow2, Indexed, Distinct, Rehashed;
      SlotsIndexed(Tab(), where);
      RehashedKeeps(Plain(), cap, env);
    }

    /** A table of at least `cap` buckets with the same contents, or null if the allocator
        refuses a capacity on the way. `cap` doubles as long as some entry does not fit;
        `grants` tells which capacities can be allocated, and `asked` is the last capacity
        that was asked for. */
    method MakeRehash(cap: nat, grants: nat -> bool, ghost limit: nat) returns (table: Map?, ghost asked: nat)
      requires Weak() && IsPow2(cap) && cap >= MIN_NONZERO_BUCKET_COUNT
      requires forall c :: c > limit ==> !grants(c)
      ensures table != null ==> fresh(table) && fresh(table.metadata) && fresh(table.buckets)
      ensures table != null ==> table.Valid() && table.Model() == Model()
      ensures table != null ==> table.hash == hash && table.maxLoad == maxLoad
      ensures table != null && Fits(size, maxLoad, cap) ==> table.WithinLoad()
      ensures Rehashed(Plain(), cap, EnvOf(grants, limit)) == if table == null then Denied(asked) else Rebuilt(table.Plain())
      ensures if table == null then !grants(asked) else grants(asked) && table.Cap() == asked
      ensures size <= cap && size <= LIMIT ==> asked == cap
    {
      hide Strong, Indexed, Contents, Fits, IsPow2, SlotsOf, Rehashed;
      var c := cap;
      asked := c;
      ghost var s, env := Plain(), EnvOf(grants, limit);
      FewAskOnce(cap, env);
      while true
        invariant c == asked >= cap && IsPow2(c) && Rehashed(s, cap, env) == Rehashed(s, c, env)
        decreases limit - c
      {
        if !grants(c) {
          RehashedStep(s, c, env);
          return null, asked;
        }
        table := RehashInto(c, env);
        if table != null {
          KeepsLoad(size, maxLoad, cap, c);
          return;
        }
        DoublePow2(c);
        c := c * 2;
        asked := c;
      }
    }

    /** A rehashed table of at least twice the capacity. */
    method Grow(grants: nat -> bool, ghost limit: nat) returns (table: Map?, ghost asked: nat)
      requires Weak() && forall c :: c > limit ==> !grants(c)
      ensures table != null ==> fresh(table) && fresh(table.metadata) && fresh(table.buckets)
      ensures table != null ==> table.Valid() && table.Model() == Model()
      ensures table != null ==> table.hash == hash && table.maxLoad == maxLoad && limit >= table.Cap() > Cap()
      ensures table != null && WithinLoad() ==> table.WithinLoad()
      ensures size <= 2 * Cap() && size <= LIMIT ==> asked == if Cap() == 0 then 8 else 2 * Cap()
      ensures Rehashed(Plain(), NextCap(Cap()), EnvOf(grants, limit)) ==
              if table == null then Denied(asked) else Rebuilt(table.Plain())
    {
      hide Fits, Strong, Indexed, IsPow2, SlotsOf, Rehashed;
      if capMask != 0 {
        DoublePow2(Cap());
      }
      EightIsPow2();
      var cap := if capMask != 0 then Cap() * 2 else MIN_NONZERO_BUCKET_COUNT;
      if WithinLoad() {
        FitsMonotone(size, maxLoad, Cap(), cap);
      }
      table, asked := MakeRehash(cap, grants, limit);
    }

    /** The key is new, and one entry more would exceed the load factor or finds no place. */
    ghost predicate Refusing(key: Key)
      requires Weak()
      reads this, metadata, buckets
    {
      key !in Model() && (Overloaded() || Stuck(Tab(), hash, key))
    }

    /** Inserts if this table takes the entry; otherwise makes a larger one, if the allocator
        grants it. */
    method InsertOrGrow(key: Key, val: Value, replace: bool, grants: nat -> bool, ghost limit: nat)
      returns (itr: Option<nat>, table: Map?, ghost asked: nat)
      requires Valid() && forall c :: c > limit ==> !grants(c)
      modifies `size, `dist, `where, metadata, buckets
      ensures Weak() && (old(WithinLoad()) ==> WithinLoad())
      ensures itr.Some? ==> Valid() && Holds(itr.value, key)
      ensures itr.Some? ==>
                Model() == old(Model())[key := if replace || key !in old(Model()) then val else old(Model())[key]]
      ensures itr.None? <==> old(Refusing(key))
      ensures itr.None? ==> Model() == old(Model())
      ensures itr.None? && table != null ==>
                && fresh(table) && fresh(table.metadata) && fresh(table.buckets) && table.Valid() && table.Model() == Model()
                && table.hash == hash && table.maxLoad == maxLoad && limit >= table.Cap() > Cap()
                && (WithinLoad() ==> table.WithinLoad())
      ensures var env := EnvOf(grants, limit);
              Inserted(old(Plain()), key, val, replace, env) ==
              if itr.Some? then Done(Plain())
              else if table == null then Refused(Plain(), asked)
              else Inserted(table.Plain(), key, val, replace, env)
    {
      hide Strong, Indexed, Fits, Stuck, IsPow2, Contents, SlotsOf, Rehashed, Tried;
      Lookup(Tab(), where, key);
      asked, table := 0, null;
      itr := InsertRaw(key, val, replace);
      if itr.None? {
        table, asked := Grow(grants, limit);
      }
    }

    /** Inserts, growing and rehashing until the entry fits. Fails only if the allocator
        refuses a larger capacity; even then every entry is still in the buckets. `asked` is
        the last capacity asked for, if the table had to grow. */
    method Insert(key: Key, val: Value, replace: bool, grants: nat -> bool, ghost limit: nat)
      returns (cntr: Map, itr: Option<nat>, ghost asked: nat)
      requires Valid() && forall c :: c > limit ==> !grants(c)
      modifies `size, `dist, `where, metadata, buckets
      ensures cntr == this || (fresh(cntr) && fresh(cntr.metadata) && fresh(cntr.buckets))
      ensures cntr.Weak() && cntr.hash == hash && cntr.maxLoad == maxLoad
      ensures itr.Some? ==> cntr.Valid() && cntr.Holds(itr.value, key)
      ensures itr.Some? ==>
                cntr.Model() == old(Model())[key := if replace || key !in old(Model()) then val else old(Model())[key]]
      ensures itr.None? ==> cntr.Model() == old(Model()) && key !in old(Model())
      ensures Inserted(old(Plain()), key, val, replace, EnvOf(grants, limit)) ==
              if itr.Some? then Done(cntr.Plain()) else Refused(cntr.Plain(), asked)
      ensures itr.None? || cntr != this <==> old(Refusing(key))
      ensures old(WithinLoad()) ==> cntr.WithinLoad()
    {
      hide Strong, Indexed, Fits, Stuck, IsPow2, Contents, SlotsOf, Inserted;
      ghost var m, s, t, n, env := Model(), Plain(), Tab(), size, EnvOf(grants, limit);
      cntr := this;
      while true
        invariant cntr.Valid() && cntr.Model() == m && cntr.hash == hash && cntr.maxLoad == maxLoad
        invariant if cntr == this then Tab() == t && size == n
                  else fresh(cntr) && fresh(cntr.metadata) && fresh(cntr.buckets) && old(Refusing(key))
        invariant old(WithinLoad()) ==> cntr.WithinLoad()
        invariant Inserted(s, key, val, replace, env) == Inserted(cntr.Plain(), key, val, replace, env)
        decreases limit - cntr.Cap()
      {
        var table;
        itr, table, asked := cntr.InsertOrGrow(key, val, replace, grants, limit);
        if itr.Some? || table == null {
          return;
        }
        cntr := table;
      }
    }

    method Get(key: Key) returns (itr: Option<nat>)
      requires Valid()
      ensures itr.Some? <==> key in Model()
      ensures itr.Some? ==> itr.value < N() && buckets[itr.value] == Entry(key, Model()[key])
    {
      StoredKeyFlagsHome(Tab(), hash, dist, where, key);
      if !metadata[HomeBucket(key)].inHome {
        return None;
      }
      itr := FindInChain(key);
    }

    /** The last entry `last` of the chain of `home` that also holds `bucket`, and its
        predecessor `prev`; `bucket` is not the last entry itself. */
    method FindLast(home: nat, bucket: nat, ghost t: Table) returns (prev: nat, last: nat)
      requires metadata.Length >= N() == |t.md| && metadata[..N()] == t.md
      requires Strong(t, hash, dist) && Occ(t, bucket) && Home(t, hash, bucket) == home
      requires t.md[bucket].disp < LIMIT
      ensures Follows(t, hash, dist, prev, last) && Home(t, hash, last) == home
      ensures t.md[last].disp == LIMIT && last != bucket
    {
      ChainStep(t, hash, dist, bucket);
      prev, last := bucket, Slot(N(), home, metadata[bucket].disp);
      while metadata[last].disp != LIMIT
        invariant Follows(t, hash, dist, prev, last) && Home(t, hash, last) == home
        invariant dist[bucket] < dist[last]
        decreases LIMIT - dist[last]
      {
        NothingSkipped(t, hash, dist, last, last);
        ChainStep(t, hash, dist, last);
        prev, last := last, Slot(N(), home, metadata[last].disp);
      }
    }

    /** Erases the last entry of a longer chain. */
    method EraseLast(home: nat, b: nat)
      requires Layout() && Strong(Tab(), hash, dist) && Indexed(Tab(), where)
      requires Occ(Tab(), b) && home == HomeBucket(buckets[b].key)
      requires !metadata[b].inHome && metadata[b].disp == LIMIT
      modifies `where, metadata
      ensures Layout() && Erasure(old(Tab()), old(where), Tab(), where, hash, dist, b, b)
    {
      hide Strong, Indexed, Contents;
      ghost var t := Tab();
      EvictHome(t, hash, dist, b);
      var prev := FindPrevious(home, home, b, t);
      UnlinkingErases(t, hash, dist, where, prev, b);
      metadata[prev] := metadata[prev].(disp := LIMIT);
      metadata[b] := EMPTY;
      assert Tab() == Unlink(t, prev, b);
      where := where - {buckets[b].key};
    }

    /** Moves the last entry of a chain, which follows the one in `prev`, into bucket `b`. */
    method SwapOut(b: nat, prev: nat, last: nat)
      requires N() <= metadata.Length && buckets.Length == N()
      requires b < N() && prev < N() && last < N() && b != last && metadata[last].disp == LIMIT
      modifies metadata, buckets
      ensures Tab() == SwappedOut(old(Tab()), b, prev, last)
      ensures metadata[N()..] == old(metadata[N()..])
    {
      buckets[b] := buckets[last];
      metadata[b] := metadata[b].(frag := metadata[last].frag);
      metadata[prev] := metadata[prev].(disp := LIMIT);
      metadata[last] := EMPTY;
    }

    /** Erases an inner entry of a chain by moving the chain's last entry into its bucket. */
    method EraseInner(home: nat, b: nat) returns (advance: bool, ghost moved: nat)
      requires Layout() && Strong(Tab(), hash, dist) && Indexed(Tab(), where)
      requires Occ(Tab(), b) && home == HomeBucket(buckets[b].key) && metadata[b].disp < LIMIT
      modifies `where, metadata, buckets
      ensures Layout() && Erasure(old(Tab()), old(where), Tab(), where, hash, dist, b, moved)
      ensures moved != b && (advance <==> moved < b) && old(EndsChain(Tab(), hash, b, moved))
    {
      hide Strong, Indexed, Contents;
      ghost var t := Tab();
      var prev, last := FindLast(home, b, t);
      SwappingErases(t, hash, dist, where, b, prev, last);
      SwapOut(b, prev, last);
      where := (where - {t.kv[b].key})[buckets[last].key := b];
      return last <= b, last;
    }

    /** Erases the entry of bucket `b` at the end of its chain, moving the chain's last
        entry into `b` if that is another one. The result says whether an iteration from
        first to end should now advance: `moved` is the bucket that became empty. */
    method EraseRaw(b: nat, homeBucket: Option<nat>) returns (advance: bool, ghost moved: nat)
      requires Valid() && Occ(Tab(), b)
      requires homeBucket.Some? ==> homeBucket.value == HomeBucket(buckets[b].key)
      modifies `size, `where, metadata, buckets
      ensures Valid() && Erasure(old(Tab()), old(where), Tab(), where, hash, dist, b, moved)
      ensures size == old(size) - 1
      ensures advance <==> moved <= b
      ensures old(EndsChain(Tab(), hash, b, moved))
      ensures Plain() == Erased(old(Plain()), hash, old(buckets[b].key))
    {
      hide Strong, Indexed, Contents;
      ghost var t, where0 := Tab(), where;
      HeadOrTail(t, hash, dist, b);
      Stored(t, where, b);
      size := size - 1;
      if metadata[b].inHome && metadata[b].disp == LIMIT {
        ClearingErases(t, hash, dist, where, b);
        metadata[b] := EMPTY;
        assert Tab() == Clear(t, b);
        where := where - {buckets[b].key};
        advance, moved := true, b;
      } else {
        var home := if homeBucket.Some? then homeBucket.value
                    else if metadata[b].inHome then b
                    else HomeBucket(buckets[b].key);
        if metadata[b].disp == LIMIT {
          EraseLast(home, b);
          advance, moved := true, b;
        } else {
          advance, moved := EraseInner(home, b);
        }
      }
      ErasureSize(t, where0, where, b);
      ErasureRefines(t, where0, Tab(), where, hash, dist, b, moved);
    }

    /** Erases `key` if it is stored. */
    method Erase(key: Key) returns (erased: bool)
      requires Valid()
      modifies `size, `where, metadata, buckets
      ensures Valid() && erased == (key in old(Model())) && Model() == old(Model()) - {key}
      ensures size <= old(size) && Plain() == Erased(old(Plain()), hash, key)
    {
      hide SlotsOf, Furthest;
      ghost var m := Model();
      FoundWhere(Tab(), where, key);
      StoredKeyFlagsHome(Tab(), hash, dist, where, key);
      if !metadata[HomeBucket(key)].inHome {
        return false;
      }
      var itr := FindInChain(key);
      if itr.None? {
        return false;
      }
      var advance;
      ghost var moved;
      advance, moved := EraseRaw(itr.value, Some(HomeBucket(key)));
      return true;
    }

    /** The first occupied bucket at or after `start`, or the end. Four metadata are read
        at a time; the iteration stopper ends the scan, which may read the excess metadata behind it. */
    method LeapForward(start: nat) returns (itr: nat)
      requires Layout() && capMask != 0 && start <= N()
      ensures start <= itr <= N() && (itr < N() ==> Occ(Tab(), itr))
      ensures forall b | start <= b < itr :: !Occ(Tab(), b)
    {
      itr := start;
      while true
        invariant start <= itr <= N()
        invariant forall b | start <= b < itr :: metadata[b] == EMPTY
        decreases N() - itr
      {
        var m0, m1, m2, m3 := metadata[itr], metadata[itr + 1], metadata[itr + 2], metadata[itr + 3];
        if m0 != EMPTY || m1 != EMPTY || m2 != EMPTY || m3 != EMPTY {
          itr := itr + FirstNonzero(m0, m1, m2, m3);
          return;
        }
        itr := itr + 4;
      }
    }

    /** The last occupied bucket before `itr`, or `None` for the reverse end. */
    method LeapBackward(itr: nat) returns (prev: Option<nat>)
      requires Layout() && itr <= N()
      ensures prev.Some? ==> prev.value < itr && Occ(Tab(), prev.value)
      ensures forall b | (if prev.Some? then prev.value + 1 else 0) <= b < itr :: !Occ(Tab(), b)
    {
      var bucket := itr;
      while bucket >= 4
        invariant bucket <= itr && forall b | bucket <= b < itr :: !Occ(Tab(), b)
      {
        var m0, m1 := metadata[bucket - 4], metadata[bucket - 3];
        var m2, m3 := metadata[bucket - 2], metadata[bucket - 1];
        if m0 != EMPTY || m1 != EMPTY || m2 != EMPTY || m3 != EMPTY {
          return Some(bucket - 1 - LastNonzero(m0, m1, m2, m3));
        }
        bucket := bucket - 4;
      }
      while bucket > 0
        invariant bucket <= itr && forall b | bucket <= b < itr :: !Occ(Tab(), b)
      {
        bucket := bucket - 1;
        if metadata[bucket] != EMPTY {
          return Some(bucket);
        }
      }
      return None;
    }

    method First() returns (itr: nat)
      requires Layout()
      ensures itr <= Cap() && (itr < Cap() ==> Occ(Tab(), itr))
      ensures forall b | 0 <= b < itr :: !Occ(Tab(), b)
    {
      if capMask == 0 {
        return 0;
      }
      itr := LeapForward(0);
    }

    method Next(itr: nat) returns (next: nat)
      requires Layout() && capMask != 0 && itr < N()
      ensures itr < next <= N() && (next < N() ==> Occ(Tab(), next))
      ensures forall b | itr < b < next :: !Occ(Tab(), b)
    {
      next := LeapForward(itr + 1);
    }

    /** Erases the entry at `itr` and returns an iterator to the next one. */
    method EraseItr(itr: nat) returns (next: nat, ghost moved: nat)
      requires Valid() && capMask != 0 && Occ(Tab(), itr)
      modifies `size, `where, metadata, buckets
      ensures Valid() && Erasure(old(Tab()), old(where), Tab(), where, hash, dist, itr, moved)
      ensures Plain() == Erased(old(Plain()), hash, old(buckets[itr].key))
      ensures size == old(size) - 1
      ensures moved > itr ==> next == itr
      ensures moved <= itr ==> itr < next <= N() && (next < N() ==> Occ(Tab(), next))
      ensures moved <= itr ==> forall b | itr < b < next :: !Occ(Tab(), b)
    {
      hide SlotsOf, Furthest;
      var advance;
      advance, moved := EraseRaw(itr, None);
      if advance {
        next := Next(itr);
      } else {
        next := itr;
      }
    }

    /** One step of an iteration that erases the chosen entries. */
    method VisitBucket(itr: nat, choose: Entry -> bool, ghost m: map<Key, Value>, ghost seen: set<Key>)
      returns (next: nat, ghost key: Key)
      requires Valid() && capMask != 0 && Occ(Tab(), itr) && Progress(Tab(), where, m, choose, seen, itr)
      modifies `size, `where, metadata, buckets
      ensures Valid() && itr <= next <= N() && (next < N() ==> Occ(Tab(), next))
      ensures key !in seen && Progress(Tab(), where, m, choose, seen + {key}, next)
    {
      hide Strong;
      ghost var t, w := Tab(), where;
      MeetsNewEntry(t, w, m, choose, seen, itr);
      key := buckets[itr].key;
      if choose(buckets[itr]) {
        ghost var moved;
        next, moved := EraseItr(itr);
        VisitAndErase(t, w, Tab(), where, hash, dist, m, choose, seen, itr, moved);
        SkipsEmptyBuckets(Tab(), where, m, choose, seen + {key}, if moved <= itr then itr + 1 else itr, next);
      } else {
        VisitAndKeep(t, w, m, choose, seen, itr);
        next := Next(itr);
        assert Tab() == t;
        SkipsEmptyBuckets(t, w, m, choose, seen + {key}, itr + 1, next);
      }
    }

    /** A loop from first to end that erases every chosen entry when it meets it. The keys
        it visits are those of the original map, each exactly once. */
    method EraseWhileIterating(choose: Entry -> bool) returns (ghost visited: seq<Key>)
      requires Valid()
      modifies `size, `where, metadata, buckets
      ensures Valid()
      ensures Model() == map k | k in old(Model()) && !choose(Entry(k, old(Model())[k])) :: old(Model())[k]
      ensures forall k :: k in visited <==> k in old(Model())
      ensures forall i, j | 0 <= i < j < |visited| :: visited[i] != visited[j]
    {
      hide Strong, Indexed, Contents;
      ghost var m := Model();
      visited := [];
      ghost var seen: set<Key> := {};
      StartsWithNothingSeen(Tab(), where, choose);
      var itr := First();
      SkipsEmptyBuckets(Tab(), where, m, choose, {}, 0, itr);
      while itr != Cap()
        invariant Valid() && itr <= Cap() && (itr < Cap() ==> Occ(Tab(), itr))
        invariant Progress(Tab(), where, m, choose, seen, itr)
        invariant forall k :: k in visited <==> k in seen
        invariant forall i, j | 0 <= i < j < |visited| :: visited[i] != visited[j]
        decreases m.Keys - seen
      {
        ghost var key;
        MeetsNewEntry(Tab(), where, m, choose, seen, itr);
        itr, key := VisitBucket(itr, choose, m, seen);
        visited := visited + [key];
        seen := seen + {key};
      }
      SkipsEmptyBuckets(Tab(), where, m, choose, seen, itr, N());
      EndsWithAllSeen(Tab(), where, m, choose, seen);
    }

    /** Erases everything without changing the capacity. */
    method ClearAll()
      requires Weak()
      modifies `size, `dist, `where, metadata
      ensures size == 0 && Weak() && Model() == map[]
      ensures old(Valid()) || old(size) > 0 ==> Valid()
      ensures Plain() == Blank(N())
    {
      hide Strong, Indexed, Contents;
      if size == 0 {
        NothingStored(Tab(), where);
        NothingInSlots(Tab(), where);
        return;
      }
      NotPlaceholder();
      var bucket := 0;
      while bucket < Cap()
        invariant bucket <= N() && metadata[N()..] == old(metadata[N()..])
        invariant forall b | 0 <= b < bucket :: metadata[b] == EMPTY
      {
        metadata[bucket] := EMPTY;
        bucket := bucket + 1;
      }
      size := 0;
      where := map[];
      dist := seq(N(), _ => 0);
      AllEmpty(Tab(), hash, dist);
    }

    /** A table with entries has real buckets. */
    lemma NotPlaceholder()
      requires Weak() && size > 0
      ensures capMask != 0
    {
      var k :| k in where;
      assert Occ(Tab(), where[k]);
    }

    /** The least capacity, a power of two from 8 up or 0, that `n` entries fit. */
    static method MinCapForNEls(n: nat, maxLoad: real) returns (cap: nat)
      requires maxLoad > 0.0
      ensures cap == 0 <==> n == 0
      ensures n > 0 ==> IsPow2(cap) && cap >= MIN_NONZERO_BUCKET_COUNT
      ensures Fits(n, maxLoad, cap)
      ensures cap > MIN_NONZERO_BUCKET_COUNT ==> !Fits(n, maxLoad, cap / 2)
      ensures cap == LeastCap(n, maxLoad)
    {
      if n == 0 {
        return 0;
      }
      hide Fits, IsPow2;
      EightIsPow2();
      cap := MIN_NONZERO_BUCKET_COUNT;
      ghost var bound := (n as real / maxLoad).Floor;
      while !Fits(n, maxLoad, cap)
        invariant IsPow2(cap) && cap >= MIN_NONZERO_BUCKET_COUNT
        invariant cap > MIN_NONZERO_BUCKET_COUNT ==> !Fits(n, maxLoad, cap / 2)
        invariant FittingFrom(cap, n, maxLoad) == LeastCap(n, maxLoad)
        decreases bound - cap
      {
        UnfitIsBounded(n, maxLoad, cap);
        DoublePow2(cap);
        cap := cap * 2;
      }
    }

    /** Makes room for `n` entries. */
    method Reserve(n: nat, grants: nat -> bool, ghost limit: nat) returns (cntr: Map, ok: bool, ghost asked: nat)
      requires Valid() && WithinLoad() && forall c :: c > limit ==> !grants(c)
      ensures cntr == this || (fresh(cntr) && fresh(cntr.metadata) && fresh(cntr.buckets))
      ensures cntr.Valid() && cntr.WithinLoad() && cntr.Model() == Model()
      ensures cntr.hash == hash && cntr.maxLoad == maxLoad && cntr.Cap() >= Cap()
      ensures ok ==> Fits(n, maxLoad, cntr.Cap())
      ensures Cap() >= LeastCap(n, maxLoad) ==> ok && cntr == this
      ensures cntr.Plain() == Reserved(Plain(), n, EnvOf(grants, limit))
      ensures Cap() < LeastCap(n, maxLoad) ==> Answered(LeastCap(n, maxLoad), EnvOf(grants, limit), cntr, ok, asked)
    {
      hide Strong, Indexed, Fits, Contents, LeastCap, Rehashed, SlotsOf;
      var cap := MinCapForNEls(n, maxLoad);
      asked := cap;
      if Cap() >= cap {
        FitsMonotone(n, maxLoad, cap, Cap());
        return this, true, asked;
      }
      FitsMonotone(size, maxLoad, Cap(), cap);
      cntr, ok, asked := RebuildAt(cap, grants, limit);
      if ok {
        FitsMonotone(n, maxLoad, cap, cntr.Cap());
      }
    }

    /** What came of asking for a table of `cap` buckets, the last capacity asked for being
        `asked`: a table of that capacity, or this one because the capacity was refused. With
        few entries nothing but `cap` itself is asked for. */
    ghost predicate Answered(cap: nat, env: Env, cntr: Map, ok: bool, asked: nat)
      requires Weak() && cntr.Weak() && EnvOk(env) && cap > 0
      reads this, metadata, buckets, cntr, cntr.metadata, cntr.buckets
    {
      && Rehashed(Plain(), cap, env) == (if ok then Rebuilt(cntr.Plain()) else Denied(asked))
      && ok == env.grants(asked) && (if ok then cntr.Cap() == asked else cntr == this)
      && (size <= LIMIT && maxLoad <= 1.0 ==> asked == cap)
    }

    /** The step shared by reserving and shrinking. */
    method RebuildAt(cap: nat, grants: nat -> bool, ghost limit: nat) returns (cntr: Map, ok: bool, ghost asked: nat)
      requires Valid() && IsPow2(cap) && cap >= MIN_NONZERO_BUCKET_COUNT && Fits(size, maxLoad, cap)
      requires WithinLoad() && forall c :: c > limit ==> !grants(c)
      ensures cntr == this || (fresh(cntr) && fresh(cntr.metadata) && fresh(cntr.buckets))
      ensures cntr.Valid() && cntr.WithinLoad() && cntr.Model() == Model()
      ensures cntr.hash == hash && cntr.maxLoad == maxLoad && Answered(cap, EnvOf(grants, limit), cntr, ok, asked)
      ensures ok ==> cntr.Cap() >= cap
    {
      hide Strong, Indexed, Fits, Contents, IsPow2, Rehashed, SlotsOf;
      var table;
      table, asked := MakeRehash(cap, grants, limit);
      if maxLoad <= 1.0 {
        FitsInBuckets(size, maxLoad, cap);
      }
      if table == null {
        return this, false, asked;
      }
      return table, true, asked;
    }

    /** Rehashes to the least capacity that the entries fit. */
    method Shrink(grants: nat -> bool, ghost limit: nat) returns (cntr: Map, ok: bool, ghost asked: nat)
      requires Valid() && WithinLoad() && forall c :: c > limit ==> !grants(c)
      ensures cntr == this || (fresh(cntr) && fresh(cntr.metadata) && fresh(cntr.buckets))
      ensures cntr.Valid() && cntr.WithinLoad() && cntr.Model() == Model()
      ensures cntr.hash == hash && cntr.maxLoad == maxLoad
      ensures Cap() == LeastCap(size, maxLoad) ==> ok && cntr == this
      ensures size == 0 ==> ok && cntr.Cap() == 0
      ensures size > 0 && Cap() != LeastCap(size, maxLoad) ==>
                Answered(LeastCap(size, maxLoad), EnvOf(grants, limit), cntr, ok, asked)
      ensures cntr.Plain() == Shrunk(Plain(), EnvOf(grants, limit))
      ensures ok ==> cntr.Cap() >= LeastCap(size, maxLoad)
      ensures ok && size <= LIMIT && maxLoad <= 1.0 ==> cntr.Cap() == LeastCap(size, maxLoad)
    {
      hide Strong, Indexed, Fits, Contents, LeastCap, Rehashed, SlotsOf;
      SlotsIndexed(Tab(), where);
      var cap := MinCapForNEls(size, maxLoad);
      asked := cap;
      if cap == Cap() {
        return this, true, asked;
      }
      if cap == 0 {
        ContentsSize(Tab(), where);
        cntr := new Map(hash, maxLoad, 0);
        return cntr, true, asked;
      }
      cntr, ok, asked := RebuildAt(cap, grants, limit);
    }
  }

  lemma AllEmptyPrefix(t: Table, where: map<Key, nat>)
    requires Indexed(t, where) && forall b :: !Occ(t, b)
    ensures Prefix(t, where, 0) == Contents(t, where)
  {
  }
}
