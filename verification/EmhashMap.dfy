/** `emhash8::HashMap`: a dense pair array and an index of linked buckets in front of two
    guard entries, changed in place. `x & mask` is written `x % numBuckets`. */
module EmhashMap {
  import opened Entries
  import opened EntryVectors
  import opened EmhashChains
  import opened EmhashIndex
  import opened EmhashSizes
  import opened Modular
  import opened Triangular

  /** How many guard entries follow the buckets. */
  const EAD := 2

  /** A bucket whose bytes have all been set to 0xFF. */
  const BLANK := Index(INACTIVE, 0xFFFF_FFFF)

  /** How far `base` has to be advanced to reach `target` on a circle of `n` positions. */
  lemma RoundsTo(n: nat, base: nat, target: nat) returns (r: nat)
    requires target < n
    ensures 1 <= r <= n && (base + r) % n == target
  {
    r := (target - base - 1) % n + 1;
    ModOfSum(n, target - base - 1, base + 1);
    SmallMod(n, target);
  }

  const OFFSETS: seq<nat> := [4, 7, 11]

  /** The `i`-th bucket tried close behind `from`: the next two, and then pairs of neighbours
      at growing distances. */
  function NearProbe(n: nat, from: nat, i: nat): (p: nat)
    requires n > 0 && from < n && i < 8
    ensures p <= n + 1
  {
    if i < 2 then from + 1 + i else (from + OFFSETS[i / 2 - 1]) % n + i % 2
  }

  /** Of the buckets that are tried close behind `from`, none before the `i`-th is empty. */
  ghost predicate NearFull(ix: seq<Index>, n: nat, from: nat, i: nat)
  {
    |ix| == n + EAD && from < n && i <= 8 && forall j: nat | j < i :: ix[NearProbe(n, from, j)].next >= 0
  }

  lemma NearStart(ix: seq<Index>, n: nat, from: nat)
    requires |ix| == n + EAD && from < n
    ensures NearFull(ix, n, from, 0)
    ensures NearProbe(n, from, 0) == from + 1 && NearProbe(n, from, 1) == from + 2
  {
  }

  lemma NearStep(ix: seq<Index>, n: nat, from: nat, i: nat)
    requires i < 8 && |ix| == n + EAD && from < n && NearFull(ix, n, from, i) && ix[NearProbe(n, from, i)].next >= 0
    ensures NearFull(ix, n, from, i + 1)
  {
    hide NearProbe;
  }

  lemma NearPair(n: nat, from: nat, k: nat)
    requires n > 0 && from < n && 1 <= k <= 3
    ensures NearProbe(n, from, 2 * k) == (from + OFFSETS[k - 1]) % n
    ensures NearProbe(n, from, 2 * k + 1) == (from + OFFSETS[k - 1]) % n + 1
  {
  }

  lemma SameAfter(n: nat, a: nat, b: nat, steps: nat)
    requires n > 0 && a % n == b % n
    ensures (a % n + steps) % n == (b + steps) % n
  {
    ModOfSum(n, b, steps);
  }

  class HashMap {
    const hash: Key -> Hash32
    const mlf: nat
    var index: array<Index>
    var pairs: array<Entry>
    var numBuckets: nat
    var numFilled: nat
    var last: nat
    /** The bucket of the last pair, if known. */
    var etail: int
    ghost var home: seq<nat>
    ghost var rank: seq<nat>
    ghost var where: seq<nat>

    ghost predicate Layout()
      reads this, index
    {
      && 4 <= numBuckets <= MAX_SIZE && IsPow2(numBuckets) && last <= numBuckets
      && index.Length == numBuckets + EAD && index[numBuckets].next >= 0 && index[numBuckets + 1].next >= 0
      && LoadOk(mlf) && pairs.Length == PairCapacity(numBuckets, mlf)
      && numFilled <= pairs.Length && numFilled <= numBuckets
    }

    ghost function Chains(): Links
      requires numBuckets <= index.Length
      reads this, index
    {
      Links(index[..numBuckets], home, rank)
    }

    /** The first `count` pairs are indexed. */
    ghost predicate Part(count: nat)
      reads this, index, pairs
    {
      && Layout() && count <= numFilled
      && Indexed(Chains(), pairs[..count], hash, where, -1)
    }

    ghost predicate TailKnown()
      reads this
    {
      etail == INACTIVE || (0 < numFilled == |where| && etail == where[numFilled - 1])
    }

    ghost predicate Valid()
      reads this, index, pairs
    {
      Part(numFilled) && DistinctKeys(pairs[..numFilled]) && TailKnown()
    }

    ghost function Model(): map<Key, Value>
      requires Valid()
      reads this, index, pairs
    {
      Contents(pairs[..numFilled])
    }

    // ----- empty buckets -----

    /** The final loop: two fingers, half the table apart. It needs no more rounds than
        there are buckets. */
    method AdvanceFingers() returns (e: nat, ghost rounds: nat)
      requires Layout() && exists b: nat :: b < numBuckets && index[b].next < 0
      modifies `last
      ensures Layout() && e < numBuckets && index[e].next < 0 && rounds <= numBuckets
      ensures last % numBuckets == (old(last) + rounds) % numBuckets
      ensures e == last || (index[last].next >= 0 && e == (numBuckets / 2 + last) % numBuckets)
    {
      hide IsPow2, PairCapacity, LoadOk;
      ghost var empty: nat :| empty < numBuckets && index[empty].next < 0;
      ghost var start := last;
      ghost var needed := RoundsTo(numBuckets, numBuckets / 2 + start, empty);
      rounds := 0;
      while true
        invariant rounds < needed && last <= numBuckets && last % numBuckets == (start + rounds) % numBuckets
        decreases needed - rounds
      {
        SameAfter(numBuckets, last, start + rounds, 1);
        SameAfter(numBuckets, last, start + rounds, numBuckets / 2 + 1);
        rounds := rounds + 1;
        last := last % numBuckets;
        last := last + 1;
        if index[last].next < 0 {
          e := last;
          return;
        }
        e := (numBuckets / 2 + last) % numBuckets;
        if index[e].next < 0 {
          return;
        }
      }
    }

    /** Looks close behind `from`; the guards stop the search at the end of the buckets. */
    method ProbeNear(from: nat) returns (e: nat, ghost i: nat)
      requires Layout() && from < numBuckets
      ensures e < index.Length && i <= 8 && NearFull(index[..], numBuckets, from, i)
      ensures i < 8 ==> e == NearProbe(numBuckets, from, i) && index[e].next < 0
      ensures i == 8 ==> index[e].next >= 0
    {
      hide IsPow2, PairCapacity, LoadOk, NearFull, NearProbe;
      NearStart(index[..], numBuckets, from);
      e, i := from + 1, 0;
      if index[e].next < 0 {
        return;
      }
      NearStep(index[..], numBuckets, from, 0);
      e, i := e + 1, 1;
      if index[e].next < 0 {
        return;
      }
      NearStep(index[..], numBuckets, from, 1);
      i := 2;
      var offset, step: nat := 4, 3;
      while step < 6
        invariant 3 <= step <= 6 && i == 2 * step - 4 && NearFull(index[..], numBuckets, from, i) && (step < 6 ==> offset == OFFSETS[step - 3])
        invariant e < index.Length && index[e].next >= 0
      {
        NearPair(numBuckets, from, step - 2);
        e := (from + offset) % numBuckets;
        if index[e].next < 0 {
          return;
        }
        NearStep(index[..], numBuckets, from, i);
        e, i := e + 1, i + 1;
        if index[e].next < 0 {
          return;
        }
        NearStep(index[..], numBuckets, from, i);
        i := i + 1;
        offset, step := offset + step, step + 1;
      }
    }

    /** The first empty bucket close behind `from`, or else one found with two fingers. */
    method FindEmptyBucket(from: nat) returns (e: nat, ghost i: nat, ghost rounds: nat)
      requires Layout() && from < numBuckets && exists b: nat :: b < numBuckets && index[b].next < 0
      modifies `last
      ensures Layout() && e < numBuckets && index[e].next < 0 && rounds <= numBuckets
      ensures NearFull(index[..], numBuckets, from, i)
      ensures i < 8 ==> e == NearProbe(numBuckets, from, i) && last == old(last) && rounds == 0
    {
      hide IsPow2, PairCapacity, LoadOk, NearFull, NearProbe;
      rounds := 0;
      e, i := ProbeNear(from);
      if index[e].next >= 0 {
        e, rounds := AdvanceFingers();
      }
    }

    // ----- walking along chains -----

    method FindPrevBucket(main: nat, bucket: nat) returns (prev: nat)
      requires numBuckets <= index.Length && Chained(Chains())
      requires Occ(Chains(), bucket) && Chains().home[bucket] == main != bucket
      ensures Precedes(Chains(), prev, bucket)
    {
      hide Node, Pair;
      ghost var c := Chains();
      MainFirst(c, bucket);
      Toward(c, main, bucket);
      var next := index[main].next;
      if next == bucket {
        return main;
      }
      while index[next].next != bucket
        invariant Occ(c, next) && c.home[next] == main && c.rank[next] < c.rank[bucket]
        decreases c.rank[bucket] - c.rank[next]
      {
        Toward(c, next, bucket);
        next := index[next].next;
      }
      Toward(c, next, bucket);
      return next;
    }

    method FindLastBucket(main: nat) returns (end: nat)
      requires numBuckets <= index.Length && Chained(Chains()) && Occ(Chains(), main)
      ensures Occ(Chains(), end) && Chains().home[end] == Chains().home[main] && index[end].next == end
    {
      hide Node, Pair;
      ghost var c := Chains();
      var next := main;
      Ahead(c, main, main);
      while index[next].next != next
        invariant Occ(c, next) && c.home[next] == c.home[main]
        decreases Top(rank) - c.rank[next]
      {
        Ahead(c, next, next);
        next := index[next].next;
      }
      return next;
    }

    // ----- insertion -----

    /** Whether bucket `bucket` waits for pair number `count` of the chain of `h`. */
    ghost predicate Reserved(count: nat, h: nat, bucket: nat, tail: int)
      reads this, index, pairs
    {
      && Layout() && count <= numFilled
      && Awaiting(Chains(), pairs[..count], hash, where, h, bucket, tail)
    }

    /** Moves the entry in `bucket`, behind `prev`, to the empty bucket `e`. */
    method Relink(prev: nat, bucket: nat, e: nat)
      requires Layout() && Shape(Chains()) && bucket < numBuckets && e < numBuckets && index[e].next < 0
      requires Precedes(Chains(), prev, bucket)
      modifies index, `home, `rank
      ensures Layout() && Chains() == Kicked(old(Chains()), prev, bucket, e)
    {
      hide IsPow2, PairCapacity, LoadOk;
      ghost var c := Chains();
      var next := index[bucket].next;
      var link := if next == bucket then e else next;
      index[e] := Index(link, index[bucket].packed);
      index[prev] := index[prev].(next := e);
      index[bucket] := index[bucket].(next := INACTIVE);
      home, rank := home[e := home[bucket]], rank[e := rank[bucket]];
      assert index[..numBuckets] == Kicked(c, prev, bucket, e).ix;
    }

    /** Moves the entry in `bucket`, which hangs on the chain of `kmain`, to an empty bucket. */
    method KickoutBucket(kmain: nat, bucket: nat, ghost count: nat) returns (b: nat)
      requires Part(count) && count < numBuckets
      requires Occ(Chains(), bucket) && home[bucket] == kmain != bucket
      modifies `last, index, `home, `rank, `where
      ensures Reserved(count, bucket, bucket, INACTIVE) && b == bucket < numBuckets && index[bucket].next < 0
    {
      hide Indexed, Main, SlotAt, IsPow2, PairCapacity, LoadOk;
      ghost var c, ps := Chains(), pairs[..count];
      IndexedIsChained(c, ps, hash, where);
      ghost var free := RoomLeft(c, ps, hash, where);
      ghost var i, rounds;
      var newBucket;
      newBucket, i, rounds := FindEmptyBucket(index[bucket].next);
      var prev := FindPrevBucket(kmain, bucket);
      KickKeeps(c, ps, hash, where, prev, bucket, newBucket);
      where := where[SlotAt(c, bucket) := newBucket];
      Relink(prev, bucket, newBucket);
      return bucket;
    }

    /** Links an empty bucket behind the end of a chain. */
    method AppendTo(end: nat, ghost count: nat) returns (bucket: nat)
      requires Part(count) && count < numBuckets && Occ(Chains(), end) && index[end].next == end
      modifies `last, index
      ensures Reserved(count, home[end], bucket, end) && bucket < numBuckets && index[bucket].next < 0
    {
      hide Indexed, IsPow2, PairCapacity, LoadOk;
      ghost var c := Chains();
      ghost var free := RoomLeft(c, pairs[..count], hash, where);
      ghost var i, rounds;
      bucket, i, rounds := FindEmptyBucket(end);
      index[end] := index[end].(next := bucket);
      assert Unset(Chains(), end).ix == c.ix;
    }

    /** The slot of an occupied bucket. */
    function SlotIn(bucket: nat): (slot: nat)
      requires 0 < numBuckets <= index.Length && bucket < numBuckets
      reads this, index
      ensures slot == SlotAt(Chains(), bucket)
    {
      SlotOf(numBuckets, index[bucket].packed)
    }

    /** The comparison of the stored high bits with those of a hash code. */
    predicate EqHash(bucket: nat, h: Hash32)
      requires 0 < numBuckets <= index.Length && bucket < numBuckets
      reads this, index
    {
      FragOf(numBuckets, index[bucket].packed) == FragOf(numBuckets, h)
    }

    /** Whether the entry in `bucket` has the given key; the pair is only looked at when the
        high bits of the hash code agree. */
    method Holds(bucket: nat, key: Key, ghost count: nat) returns (yes: bool)
      requires Part(count) && Occ(Chains(), bucket)
      ensures SlotAt(Chains(), bucket) < count
      ensures yes <==> pairs[SlotAt(Chains(), bucket)].key == key
      ensures !yes ==> Differs(Chains(), pairs[..count], key, bucket)
    {
      hide Chained, Main, SlotOf, FragOf, IsPow2, PairCapacity, LoadOk, BucketOk;
      FragmentTells(Chains(), pairs[..count], hash, where, key, bucket);
      yes := EqHash(bucket, hash(key)) && pairs[SlotIn(bucket)].key == key;
    }

    /** The main bucket of the entry in `bucket`. */
    method HashMain(bucket: nat, ghost count: nat) returns (main: nat)
      requires Part(count) && Occ(Chains(), bucket)
      ensures main == home[bucket]
    {
      hide Chained, Main, SlotOf, FragOf, IsPow2, PairCapacity, LoadOk;
      assert BucketOk(Chains(), pairs[..count], hash, where, -1, bucket);
      main := Main(numBuckets, hash(pairs[SlotIn(bucket)].key));
    }

    /** Follows the links from the main bucket of a key, whose entry has another key: either
        finds the key or reaches the end of the chain. */
    method SearchChain(main: nat, key: Key, ghost count: nat) returns (bucket: nat, found: bool)
      requires Part(count) && Occ(Chains(), main) && main == Main(numBuckets, hash(key))
      requires Differs(Chains(), pairs[..count], key, main)
      ensures Occ(Chains(), bucket) && home[bucket] == home[main]
      ensures found ==> SlotAt(Chains(), bucket) < count && pairs[SlotAt(Chains(), bucket)].key == key
      ensures !found ==> index[bucket].next == bucket && Absent(pairs[..count], key)
    {
      hide Node, Pair, Main, SlotOf, FragOf, IsPow2, PairCapacity, LoadOk, BucketOk, SlotAt, Differs, Passed;
      ghost var c, ps := Chains(), pairs[..count];
      if home[main] == main {
        PassHead(c, ps, hash, where, key, main);
      } else {
        NoChain(c, ps, hash, where, key);
      }
      ghost var prev := main;
      bucket := index[main].next;
      Ahead(c, main, main);
      if bucket == main {
        Ended(c, ps, hash, where, key, main);
        return main, false;
      }
      while true
        invariant Occ(c, prev) && c.home[prev] == c.home[main] && c.ix[prev].next == bucket != prev
        invariant if c.home[main] == main then Passed(c, ps, main, key, prev) else Absent(ps, key)
        invariant Occ(c, bucket) && c.home[bucket] == c.home[main] && c.rank[prev] < c.rank[bucket]
        decreases Top(rank) - c.rank[bucket]
      {
        found := Holds(bucket, key, count);
        if found {
          return;
        }
        if c.home[main] == main {
          PassNext(c, ps, hash, where, key, prev);
        }
        var nbucket := index[bucket].next;
        if nbucket == bucket {
          Ended(c, ps, hash, where, key, bucket);
          return;
        }
        Ahead(c, bucket, bucket);
        prev := bucket;
        bucket := nbucket;
      }
    }

    /** The entry in `bucket` has the given key. */
    ghost predicate Hit(bucket: nat, key: Key)
      reads this, index, pairs
    {
      && 0 < numBuckets <= index.Length && Occ(Chains(), bucket)
      && SlotAt(Chains(), bucket) < pairs.Length && pairs[SlotAt(Chains(), bucket)].key == key
    }

    /** `FindOrAllocate` when the main bucket heads a chain whose first key differs. */
    method FindOrAppend(main: nat, key: Key) returns (bucket: nat, ghost tail: int)
      requires Part(numFilled) && numFilled < numBuckets && main == Main(numBuckets, hash(key))
      requires Occ(Chains(), main) && home[main] == main && Differs(Chains(), pairs[..numFilled], key, main)
      modifies `last, index
      ensures bucket < numBuckets && Layout()
      ensures index[bucket].next >= 0 ==> Part(numFilled) && Hit(bucket, key)
      ensures index[bucket].next < 0 ==> Reserved(numFilled, main, bucket, tail) && Absent(pairs[..numFilled], key)
    {
      hide Indexed, Main, IsPow2, PairCapacity, LoadOk, Differs, SlotAt, Absent, Awaiting;
      var found;
      tail := INACTIVE;
      bucket, found := SearchChain(main, key, numFilled);
      if !found {
        tail := bucket;
        bucket := AppendTo(bucket, numFilled);
      }
    }

    /** The bucket that holds the key, or else an empty one reserved for it: its main
        bucket, from which an entry of another chain is kicked out if need be, or a bucket
        linked to the end of its chain. */
    method FindOrAllocate(key: Key) returns (bucket: nat, ghost tail: int)
      requires Part(numFilled) && numFilled < numBuckets
      modifies `last, index, `home, `rank, `where
      ensures bucket < numBuckets && Layout()
      ensures index[bucket].next >= 0 ==> Part(numFilled) && Hit(bucket, key) && where == old(where)
      ensures index[bucket].next < 0 ==>
                Reserved(numFilled, Main(numBuckets, hash(key)), bucket, tail) && Absent(pairs[..numFilled], key)
    {
      hide Indexed, Main, IsPow2, PairCapacity, LoadOk, Differs, SlotAt, Absent, Awaiting;
      ghost var c, ps := Chains(), pairs[..numFilled];
      IndexedIsChained(c, ps, hash, where);
      tail := INACTIVE;
      bucket := Main(numBuckets, hash(key));
      if index[bucket].next < 0 {
        NoChain(c, ps, hash, where, key);
        FreeMain(c, ps, hash, where, bucket);
        return;
      }
      var found := Holds(bucket, key, numFilled);
      if found {
        return;
      }
      var kmain := HashMain(bucket, numFilled);
      if kmain != bucket {
        NoChain(c, ps, hash, where, key);
        bucket := KickoutBucket(kmain, bucket, numFilled);
      } else {
        bucket, tail := FindOrAppend(bucket, key);
      }
    }

    /** Like `FindOrAllocate` for a hash code whose key is not stored yet. */
    method FindUniqueBucket(h: Hash32, ghost count: nat) returns (bucket: nat, ghost tail: int)
      requires Part(count) && count < numBuckets
      modifies `last, index, `home, `rank, `where
      ensures Reserved(count, Main(numBuckets, h), bucket, tail) && bucket < numBuckets && index[bucket].next < 0
    {
      hide Indexed, Main, IsPow2, PairCapacity, LoadOk;
      IndexedIsChained(Chains(), pairs[..count], hash, where);
      tail := INACTIVE;
      bucket := Main(numBuckets, h);
      var next := index[bucket].next;
      if next < 0 {
        return;
      }
      var kmain := HashMain(bucket, count);
      if kmain != bucket {
        bucket := KickoutBucket(kmain, bucket, count);
        return;
      }
      var end := bucket;
      if next != bucket {
        end := FindLastBucket(next);
      }
      tail := end;
      bucket := AppendTo(end, count);
    }

    /** Writes index entry `bucket` for pair number `count`. */
    method Occupy(bucket: nat, key: Key, ghost count: nat, slot: nat, ghost tail: int)
      requires Layout() && Reserved(count, Main(numBuckets, hash(key)), bucket, tail)
      requires count == slot < numBuckets && count < numFilled && pairs[count].key == key
      modifies index, `home, `rank, `where
      ensures Part(count + 1) && where == old(where) + [bucket]
    {
      hide Indexed, Main, Pack, IsPow2, PairCapacity, LoadOk;
      ghost var c, ps := Chains(), pairs[..count];
      Arrived(c, ps, hash, where, pairs[count], bucket, tail);
      assert pairs[..count + 1] == ps + [pairs[count]];
      index[bucket] := Index(bucket, Pack(numBuckets, slot, hash(key)));
      where := where + [bucket];
      home, rank := home[bucket := Main(numBuckets, hash(key))],
                    rank[bucket := if tail == INACTIVE then 0 else rank[tail] + 1];
      assert index[..numBuckets] == c.ix[bucket := Index(bucket, Pack(numBuckets, slot, hash(key)))];
    }

    /** Stores a new pair, for which `bucket` is reserved, behind the others. */
    method New(key: Key, val: Value, bucket: nat, ghost tail: int)
      requires Layout() && Reserved(numFilled, Main(numBuckets, hash(key)), bucket, tail)
      requires numFilled < numBuckets && numFilled < pairs.Length
      requires DistinctKeys(pairs[..numFilled]) && Absent(pairs[..numFilled], key)
      modifies `etail, `numFilled, `home, `rank, `where, index, pairs
      ensures Valid() && numFilled == old(numFilled) + 1
      ensures pairs[..numFilled] == old(pairs[..numFilled]) + [Entry(key, val)]
      ensures Model() == Contents(old(pairs[..numFilled]))[key := val]
      ensures bucket < numBuckets && Occ(Chains(), bucket) && SlotAt(Chains(), bucket) == numFilled - 1 && etail == bucket
    {
      hide Indexed, Main, Awaiting, IsPow2, PairCapacity, LoadOk, Contents, DistinctKeys, Absent, SlotAt;
      ghost var ps := pairs[..numFilled];
      Appended(ps, Entry(key, val));
      pairs[numFilled] := Entry(key, val);
      assert pairs[..numFilled] == ps;
      etail := bucket;
      numFilled := numFilled + 1;
      assert pairs[..numFilled] == ps + [Entry(key, val)];
      Occupy(bucket, key, numFilled - 1, numFilled - 1, tail);
      BucketOf(Chains(), pairs[..numFilled], hash, where, -1, numFilled - 1);
    }

    /** Inserts unless the key is present. */
    method DoInsert(key: Key, val: Value) returns (slot: nat, inserted: bool)
      requires Valid() && numFilled < numBuckets && numFilled < pairs.Length
      modifies `last, `etail, `numFilled, `home, `rank, `where, index, pairs
      ensures Valid() && inserted == (key !in old(Model()))
      ensures Model() == if inserted then old(Model())[key := val] else old(Model())
      ensures slot < numFilled && pairs[slot].key == key
      ensures numFilled == old(numFilled) + if inserted then 1 else 0
      ensures pairs[..numFilled] == if inserted then old(pairs[..numFilled]) + [Entry(key, val)] else old(pairs[..numFilled])
    {
      hide Indexed, Main, Awaiting, IsPow2, PairCapacity, LoadOk, DistinctKeys, SlotAt;
      ghost var ps := pairs[..numFilled];
      ghost var tail;
      var bucket;
      bucket, tail := FindOrAllocate(key);
      inserted := index[bucket].next < 0;
      if inserted {
        New(key, val, bucket, tail);
      } else {
        BucketRecorded(Chains(), ps, hash, where, -1, bucket);
        Lookup(ps, SlotAt(Chains(), bucket));
      }
      slot := SlotIn(bucket);
    }

    /** Stores a key that is not present yet. */
    method DoInsertUnique(key: Key, val: Value) returns (bucket: nat)
      requires Valid() && numFilled < numBuckets && numFilled < pairs.Length && key !in Model()
      modifies `last, `etail, `numFilled, `home, `rank, `where, index, pairs
      ensures Valid() && Model() == old(Model())[key := val]
      ensures pairs[..numFilled] == old(pairs[..numFilled]) + [Entry(key, val)]
      ensures bucket < numBuckets && index[bucket].next >= 0 && SlotAt(Chains(), bucket) == numFilled - 1
    {
      hide Indexed, Main, Awaiting, IsPow2, PairCapacity, LoadOk, DistinctKeys, SlotAt;
      ghost var ps := pairs[..numFilled];
      ghost var tail;
      assert Absent(ps, key) by {
        forall v | 0 <= v < |ps| ensures ps[v].key != key {
          Lookup(ps, v);
        }
      }
      bucket, tail := FindUniqueBucket(hash(key), numFilled);
      New(key, val, bucket, tail);
    }

    /** Inserts, or gives the present key the new value. */
    method DoAssign(key: Key, val: Value) returns (slot: nat, inserted: bool)
      requires Valid() && numFilled < numBuckets && numFilled < pairs.Length
      modifies `last, `etail, `numFilled, `home, `rank, `where, index, pairs
      ensures Valid() && inserted == (key !in old(Model())) && Model() == old(Model())[key := val]
      ensures slot < numFilled && pairs[slot] == Entry(key, val)
      ensures numFilled == old(numFilled) + if inserted then 1 else 0
      ensures inserted ==> pairs[..numFilled] == old(pairs[..numFilled]) + [Entry(key, val)]
      ensures !inserted ==> pairs[..numFilled] == old(pairs[..numFilled])[slot := Entry(key, val)]
    {
      hide Indexed, Main, Awaiting, IsPow2, PairCapacity, LoadOk, DistinctKeys, Contents, SlotAt;
      slot, inserted := DoInsert(key, val);
      ghost var ps := pairs[..numFilled];
      if inserted {
        Lookup(ps, slot);
      } else {
        ValueChanged(Chains(), ps, hash, where, slot, val);
        WithValue(ps, slot, val);
        pairs[slot] := Entry(pairs[slot].key, val);
        assert pairs[..numFilled] == ps[slot := Entry(ps[slot].key, val)];
      }
    }

    // ----- lookup -----

    /** The bucket that holds the key, or `INACTIVE`. */
    method FindFilledBucket(key: Key) returns (b: int)
      requires Valid()
      ensures b == INACTIVE <==> key !in Model()
      ensures b != INACTIVE ==> 0 <= b < numBuckets && Hit(b, key) && SlotAt(Chains(), b) < numFilled
    {
      hide Indexed, Main, IsPow2, PairCapacity, LoadOk, DistinctKeys, SlotAt;
      ghost var c, ps := Chains(), pairs[..numFilled];
      var bucket := Main(numBuckets, hash(key));
      if index[bucket].next < 0 {
        NoChain(c, ps, hash, where, key);
        return INACTIVE;
      }
      var found := Holds(bucket, key, numFilled);
      if !found {
        bucket, found := SearchChain(bucket, key, numFilled);
      }
      if !found {
        return INACTIVE;
      }
      Lookup(ps, SlotAt(c, bucket));
      return bucket;
    }

    /** The slot of the key's pair, or the number of pairs. */
    method FindFilledSlot(key: Key) returns (slot: nat)
      requires Valid()
      ensures slot <= numFilled && (slot < numFilled <==> key in Model())
      ensures slot < numFilled ==> pairs[slot] == Entry(key, Model()[key])
    {
      hide Indexed, Main, IsPow2, PairCapacity, LoadOk, DistinctKeys, SlotAt, Contents;
      var b := FindFilledBucket(key);
      if b == INACTIVE {
        return numFilled;
      }
      slot := SlotIn(b);
      Lookup(pairs[..numFilled], slot);
    }

    // ----- erasure -----

    /** `freed` is the bucket to be marked as empty once the entry of slot `gap` is erased. */
    ghost predicate Erased(freed: nat, gap: nat)
      reads this, index, pairs
    {
      && Layout() && freed < numBuckets
      && Indexed(Cleared(Chains(), freed), pairs[..numFilled], hash, where, gap)
    }

    /** Erasure at a main bucket: the next entry of the chain, if any, moves up. */
    method EraseMain(main: nat) returns (freed: nat)
      requires Part(numFilled) && Occ(Chains(), main) && home[main] == main
      modifies index, `where
      ensures Erased(freed, old(SlotAt(Chains(), main))) && |where| == |old(where)|
      ensures forall s | 0 <= s < |where| :: where[s] == old(where[s]) || old(where[s]) == freed
    {
      hide Indexed, Main, IsPow2, PairCapacity, LoadOk, SlotAt;
      ghost var c, ps := Chains(), pairs[..numFilled];
      IndexedIsChained(c, ps, hash, where);
      freed := index[main].next;
      if main != freed {
        PullKeeps(c, ps, hash, where, main, freed);
        where := where[SlotAt(c, freed) := main];
        var nbucket := index[freed].next;
        index[main] := Index(if nbucket == freed then main else nbucket, index[freed].packed);
        assert Cleared(Chains(), freed).ix == Dropped(c, main, freed, c.ix[freed].packed).ix;
      } else {
        EmptyKeeps(c, ps, hash, where, main);
      }
    }

    /** Takes the entry in `bucket` off its chain. Returns the bucket to be marked as empty. */
    method EraseBucket(bucket: nat, main: nat) returns (freed: nat)
      requires Part(numFilled) && Occ(Chains(), bucket) && home[bucket] == main
      modifies index, `where
      ensures Erased(freed, old(SlotAt(Chains(), bucket))) && |where| == |old(where)|
      ensures forall s | 0 <= s < |where| :: where[s] == old(where[s]) || old(where[s]) == freed
    {
      hide Indexed, Main, IsPow2, PairCapacity, LoadOk, SlotAt;
      if bucket == main {
        freed := EraseMain(main);
        return;
      }
      ghost var c, ps := Chains(), pairs[..numFilled];
      IndexedIsChained(c, ps, hash, where);
      var next := index[bucket].next;
      var prev := FindPrevBucket(main, bucket);
      DropKeeps(c, ps, hash, where, prev, bucket);
      index[prev] := index[prev].(next := if bucket == next then prev else next);
      assert Cleared(Chains(), bucket).ix == Dropped(c, prev, bucket, c.ix[prev].packed).ix;
      return bucket;
    }

    /** The bucket of slot `slot`. Some bucket off all chains may not be marked as empty
        yet, so the chains are given separately. */
    method FindSlotBucket(slot: nat, ghost c: Links, ghost ps: seq<Entry>, ghost gap: int) returns (bucket: nat, main: nat)
      requires Layout() && |c.ix| == numBuckets && Indexed(c, ps, hash, where, gap) && slot < |ps| && slot != gap
      requires |ps| <= pairs.Length && ps == pairs[..|ps|] && forall b: nat | Occ(c, b) :: index[b] == c.ix[b]
      ensures bucket == where[slot] && Occ(c, bucket) && main == c.home[bucket] && SlotAt(c, bucket) == slot
    {
      hide Node, Pair, Main, SlotOf, IsPow2, PairCapacity, LoadOk, BucketOk;
      ghost var d := where[slot];
      BucketOf(c, ps, hash, where, gap, slot);
      MainFirst(c, d);
      main := Main(numBuckets, hash(pairs[slot].key));
      bucket := main;
      while SlotIn(bucket) != slot
        invariant Occ(c, bucket) && c.home[bucket] == main && (bucket == d || c.rank[bucket] < c.rank[d])
        decreases c.rank[d] - c.rank[bucket]
      {
        assert bucket != d;
        Toward(c, bucket, d);
        bucket := index[bucket].next;
      }
      BucketRecorded(c, ps, hash, where, gap, bucket);
    }

    /** Moves the last pair into slot `slot`, re-points its bucket, and marks `freed` as
        empty. */
    method MoveLast(slot: nat, freed: nat, lastBucket: nat)
      requires Layout() && freed < numBuckets && numFilled < pairs.Length && slot < numFilled
      requires var ps := pairs[..numFilled + 1];
               && Indexed(Cleared(Chains(), freed), ps, hash, where, slot) && DistinctKeys(ps)
               && lastBucket == where[numFilled]
      modifies index, pairs, `etail, `where
      ensures Valid() && etail == INACTIVE && pairs[..numFilled] == RemoveAt(old(pairs[..numFilled + 1]), slot)
    {
      hide Indexed, Main, IsPow2, PairCapacity, LoadOk, DistinctKeys, SlotAt, Pack;
      ghost var c, ps := Cleared(Chains(), freed), pairs[..numFilled + 1];
      BucketOf(c, ps, hash, where, slot, numFilled);
      GapFilled(c, ps, hash, where, slot);
      RemovedKeepsDistinct(ps, slot);
      pairs[slot] := pairs[numFilled];
      index[lastBucket] := index[lastBucket].(packed := Pack(numBuckets, slot, index[lastBucket].packed));
      etail := INACTIVE;
      index[freed] := Index(INACTIVE, 0);
      where := where[slot := where[numFilled]][..numFilled];
      assert pairs[..numFilled] == RemoveAt(ps, slot);
      assert Chains().ix == Repointed(c, lastBucket, slot).ix;
    }

    /** Marks `freed` as empty; the erased pair was the last one. */
    method DropLast(freed: nat)
      requires Layout() && freed < numBuckets && numFilled < pairs.Length
      requires var ps := pairs[..numFilled + 1];
               Indexed(Cleared(Chains(), freed), ps, hash, where, numFilled) && DistinctKeys(ps)
      modifies index, `etail, `where
      ensures Valid() && etail == INACTIVE && pairs[..numFilled] == RemoveAt(old(pairs[..numFilled + 1]), numFilled)
    {
      hide Indexed, Main, IsPow2, PairCapacity, LoadOk, DistinctKeys, SlotAt, Pack;
      ghost var c, ps := Cleared(Chains(), freed), pairs[..numFilled + 1];
      LastDropped(c, ps, hash, where);
      RemovedKeepsDistinct(ps, numFilled);
      etail := INACTIVE;
      index[freed] := Index(INACTIVE, 0);
      where := where[..numFilled];
      assert pairs[..numFilled] == RemoveAt(ps, numFilled);
      assert Chains().ix == c.ix;
    }

    /** The bucket of the last pair: the cached one, unless that has just been freed. */
    method LastBucket(freed: nat, ghost slot: nat) returns (lastBucket: nat)
      requires Layout() && freed < numBuckets && numFilled < pairs.Length && slot < numFilled
      requires Indexed(Cleared(Chains(), freed), pairs[..numFilled + 1], hash, where, slot)
      requires etail == INACTIVE || etail == freed || (|where| > numFilled && where[numFilled] == etail)
      ensures |where| == numFilled + 1 && lastBucket == where[numFilled]
    {
      hide Indexed, Main, IsPow2, PairCapacity, LoadOk, SlotAt;
      ghost var c, ps := Cleared(Chains(), freed), pairs[..numFilled + 1];
      BucketOf(c, ps, hash, where, slot, numFilled);
      if etail == INACTIVE || freed == etail {
        var lastMain;
        lastBucket, lastMain := FindSlotBucket(numFilled, c, ps, slot);
      } else {
        lastBucket := etail;
      }
    }

    /** Erases the entry in `sbucket`; the last pair fills its slot. */
    method EraseSlot(sbucket: nat, main: nat)
      requires Valid() && Occ(Chains(), sbucket) && home[sbucket] == main
      modifies index, pairs, `etail, `where, `numFilled
      ensures Valid() && numFilled == old(numFilled) - 1 && etail == INACTIVE
      ensures old(SlotAt(Chains(), sbucket)) < old(numFilled)
      ensures pairs[..numFilled] == RemoveAt(old(pairs[..numFilled]), old(SlotAt(Chains(), sbucket)))
    {
      hide Indexed, Main, IsPow2, PairCapacity, LoadOk, DistinctKeys, SlotAt, RemoveAt, Cleared;
      BucketRecorded(Chains(), pairs[..numFilled], hash, where, -1, sbucket);
      var slot := SlotIn(sbucket);
      var freed := EraseBucket(sbucket, main);
      numFilled := numFilled - 1;
      if slot != numFilled {
        var lastBucket := LastBucket(freed, slot);
        MoveLast(slot, freed, lastBucket);
      } else {
        DropLast(freed);
      }
    }

    method Erase(key: Key) returns (n: nat)
      requires Valid()
      modifies index, pairs, `etail, `where, `numFilled
      ensures Valid() && Model() == old(Model()) - {key} && n == if key in old(Model()) then 1 else 0
      ensures key !in old(Model()) ==> pairs[..numFilled] == old(pairs[..numFilled])
      ensures key in old(Model()) ==>
                exists slot :: 0 <= slot < old(numFilled) && old(pairs[slot].key) == key && pairs[..numFilled] == RemoveAt(old(pairs[..numFilled]), slot)
    {
      hide Indexed, Main, IsPow2, PairCapacity, LoadOk, DistinctKeys, SlotAt, Contents;
      ghost var ps := pairs[..numFilled];
      var b := FindFilledBucket(key);
      if b == INACTIVE {
        return 0;
      }
      BucketRecorded(Chains(), ps, hash, where, -1, b);
      Removed(ps, SlotAt(Chains(), b));
      EraseSlot(b, Main(numBuckets, hash(key)));
      return 1;
    }

    /** Erases the pair in slot `slot`, which then holds the pair that was last. */
    method EraseAt(slot: nat)
      requires Valid() && slot < numFilled
      modifies index, pairs, `etail, `where, `numFilled
      ensures Valid() && numFilled == old(numFilled) - 1
      ensures pairs[..numFilled] == RemoveAt(old(pairs[..numFilled]), slot)
    {
      hide Indexed, Main, IsPow2, PairCapacity, LoadOk, DistinctKeys, SlotAt;
      ghost var ps := pairs[..numFilled];
      var sbucket, main := FindSlotBucket(slot, Chains(), ps, -1);
      EraseSlot(sbucket, main);
    }

    /** Erases from front to back what satisfies `pred`; a slot is looked at again after the
        last pair has moved there. */
    method EraseIf(pred: Entry -> bool) returns (count: nat)
      requires Valid()
      modifies index, pairs, `etail, `where, `numFilled
      ensures Valid() && Model() == Unmatched(old(Model()), pred) && count == old(numFilled) - numFilled
      ensures Model() == map k | k in old(Model()) && !pred(Entry(k, old(Model())[k])) :: old(Model())[k]
      ensures pairs[..numFilled] == Sieved(old(pairs[..numFilled]), pred, 0)
    {
      hide Indexed, IsPow2, PairCapacity, LoadOk, DistinctKeys, Contents, RemoveAt, Sieved, Unmatched;
      ghost var m, vs := Model(), pairs[..numFilled];
      var oldSize := numFilled;
      var slot := 0;
      while slot < numFilled
        invariant slot <= numFilled <= oldSize && Valid() && Thinned(m, Model(), pred)
        invariant forall v | 0 <= v < slot :: !pred(pairs[..numFilled][v])
        invariant Sieved(vs, pred, 0) == Sieved(pairs[..numFilled], pred, slot)
        decreases numFilled - slot
      {
        SieveStep(pairs[..numFilled], pred, slot);
        if pred(pairs[slot]) {
          ThinStep(m, pairs[..numFilled], pred, slot);
          KeptBefore(pairs[..numFilled], slot);
          EraseAt(slot);
        } else {
          slot := slot + 1;
        }
      }
      SieveStep(pairs[..numFilled], pred, slot);
      ThinDone(m, pairs[..numFilled], pred);
      UnmatchedMeans(m, pred);
      return oldSize - numFilled;
    }

    /** Removes everything and keeps the capacity. */
    method ClearAll()
      requires Valid()
      modifies index, `last, `numFilled, `etail, `where
      ensures Valid() && Model() == map[] && numFilled == 0
    {
      hide Indexed, IsPow2, LoadOk, PairCapacity;
      Shaped(Chains(), pairs[..numFilled], hash, where);
      if numFilled > 0 {
        var b := 0;
        while b < numBuckets
          invariant b <= numBuckets && forall x | 0 <= x < b :: index[x] == BLANK
          invariant index[numBuckets] == old(index[numBuckets]) && index[numBuckets + 1] == old(index[numBuckets + 1])
        {
          index[b] := BLANK;
          b := b + 1;
        }
        NothingIndexed(Chains(), hash);
        where := [];
      }
      last, numFilled, etail := 0, 0, INACTIVE;
      NoPairs(where, Chains(), hash, pairs[..0]);
    }

    // ----- growth -----

    /** Making room for `m` entries takes no rehash, or one that passes its own check. */
    predicate Allowed(m: nat)
      reads this
    {
      Required(m, mlf) < numBuckets - 1 || Required(m, mlf) + 2 < MAX_SIZE
    }

    /** Finds how many buckets a rehash uses. */
    method CountBuckets(required: nat) returns (n: nat)
      ensures n == DoubleUntil(StartSize(numFilled), required)
    {
      n := StartSize(numFilled);
      while n < required
        invariant n > 0 && DoubleUntil(n, required) == DoubleUntil(StartSize(numFilled), required)
        decreases required - n
      {
        n := n * 2;
      }
    }

    /** Enters all pairs into an index that has none. */
    method IndexAll()
      requires Part(0)
      modifies `last, index, `home, `rank, `where
      ensures Part(numFilled) && |where| == numFilled
    {
      hide Indexed, Main, IsPow2, LoadOk, PairCapacity, Awaiting;
      var slot := 0;
      while slot < numFilled
        invariant slot <= numFilled && Part(slot)
      {
        ghost var tail;
        var bucket;
        bucket, tail := FindUniqueBucket(hash(pairs[slot].key), slot);
        Occupy(bucket, pairs[slot].key, slot, slot, tail);
        slot := slot + 1;
      }
      Shaped(Chains(), pairs[..numFilled], hash, where);
    }

    /** Moves the pairs to a new array. */
    method MovePairs(n: nat) returns (ps: array<Entry>)
      requires mlf > 0 && numFilled <= pairs.Length && numFilled <= PairCapacity(n, mlf)
      ensures fresh(ps) && ps.Length == PairCapacity(n, mlf) && ps[..numFilled] == pairs[..numFilled]
    {
      ps := new Entry[PairCapacity(n, mlf)];
      forall i | 0 <= i < numFilled {
        ps[i] := pairs[i];
      }
    }

    /** A new index of `n` empty buckets, with the guards behind it. */
    method BlankIndex(n: nat) returns (ix: array<Index>)
      ensures fresh(ix) && ix.Length == n + EAD && ix[n] == ix[n + 1] == Index(0, 0)
      ensures forall b | 0 <= b < n :: ix[b] == BLANK
    {
      ix := new Index[n + EAD](i => if i < n then BLANK else Index(0, 0));
    }

    /** New arrays for `n` buckets: the pairs are kept, and none of them is indexed. */
    method StartOver(n: nat)
      requires 4 <= n <= MAX_SIZE && IsPow2(n) && LoadOk(mlf)
      requires numFilled <= n && numFilled <= pairs.Length && numFilled <= PairCapacity(n, mlf)
      modifies this
      ensures Part(0) && etail == INACTIVE && numBuckets == n && numFilled == old(numFilled)
      ensures fresh(index) && fresh(pairs) && pairs[..numFilled] == old(pairs[..numFilled])
    {
      hide Indexed, IsPow2, PairCapacity;
      var ps := MovePairs(n);
      var ix := BlankIndex(n);
      index, pairs, numBuckets, last, etail := ix, ps, n, 0, INACTIVE;
      home, rank, where := seq(n, _ => 0), seq(n, _ => 0), [];
      NothingIndexed(Chains(), hash);
      NoPairs([], Chains(), hash, pairs[..0]);
    }

    /** Moves the pairs to a new array and indexes them anew. */
    method Rebuild(n: nat)
      requires 4 <= n <= MAX_SIZE && IsPow2(n) && LoadOk(mlf)
      requires numFilled <= n && numFilled <= pairs.Length && numFilled <= PairCapacity(n, mlf)
      modifies this
      ensures Part(numFilled) && |where| == numFilled && etail == INACTIVE && numBuckets == n
      ensures numFilled == old(numFilled) && pairs[..numFilled] == old(pairs[..numFilled])
      ensures fresh(index) && fresh(pairs)
    {
      hide Indexed, IsPow2, PairCapacity, LoadOk;
      StartOver(n);
      IndexAll();
    }

    constructor (hash: Key -> Hash32, mlf: nat, bucket: nat)
      requires LoadOk(mlf) && bucket < MAX_SIZE
      ensures Valid() && Model() == map[] && this.hash == hash && this.mlf == mlf && fresh(index) && fresh(pairs)
    {
      this.hash, this.mlf := hash, mlf;
      index, pairs := new Index[0], new Entry[0];
      numBuckets, numFilled, last, etail := 0, 0, 0, INACTIVE;
      home, rank, where := [], [], [];
      new;
      hide Indexed;
      var n := CountBuckets(bucket);
      BucketsFit(0, bucket);
      Rebuild(n);
      assert pairs[..0] == [];
    }

    /** Changes the number of buckets; nothing happens when they are fewer than the pairs. */
    method Rehash(required: nat)
      requires Valid() && (required < numFilled || required < MAX_SIZE) && RehashSafe(numFilled, required, mlf)
      modifies this
      ensures Valid() && numFilled == old(numFilled) && pairs[..numFilled] == old(pairs[..numFilled])
      ensures numBuckets == if required < numFilled then old(numBuckets) else DoubleUntil(StartSize(numFilled), required)
      ensures required >= numFilled ==> LeastDoubling(numBuckets, numFilled, required)
      ensures index == old(index) || fresh(index)
      ensures required >= numFilled ==> fresh(index)
      ensures pairs == old(pairs) || fresh(pairs)
    {
      hide Indexed, IsPow2, PairCapacity, DoubleUntil, StartSize, RehashSafe, DistinctKeys, LeastDoubling;
      if required < numFilled {
        return;
      }
      var n := CountBuckets(required);
      RehashMeans(numFilled, required);
      RehashSafeExactly(numFilled, required, mlf);
      BucketsFit(numFilled, required);
      Rebuild(n);
    }

    /** Makes room for `m` entries: afterwards both buckets and allocated pairs exceed `m`. */
    method Reserve(m: nat) returns (grown: bool)
      requires Valid() && Allowed(m)
      modifies this
      ensures Valid() && Model() == old(Model()) && numFilled == old(numFilled)
      ensures m + 1 < numBuckets && m + 4 <= pairs.Length
      ensures grown == (Required(m, mlf) >= old(numBuckets) - 1)
      ensures grown <==> m * mlf >= (old(numBuckets) - 1) * 0x800_0000
      ensures pairs[..numFilled] == old(pairs[..numFilled])
      ensures !grown ==> index == old(index) && pairs == old(pairs)
      ensures grown ==> numBuckets == DoubleUntil(StartSize(numFilled), Required(m, mlf) + 2)
      ensures grown ==> ReserveLine(numFilled, m, mlf, numBuckets)
      ensures grown ==> fresh(index)
      ensures index == old(index) || fresh(index)
      ensures pairs == old(pairs) || fresh(pairs)
    {
      hide Indexed, IsPow2, PairCapacity, DoubleUntil, StartSize, RehashSafe, DistinctKeys, Required, LeastDoubling, ReserveLine;
      ReserveMeans(numFilled, m, mlf, numBuckets);
      var required := Required(m, mlf);
      if required < numBuckets - 1 {
        CheckLeavesRoom(m, numBuckets, mlf);
        return false;
      }
      BucketsFit(numFilled, required + 2);
      PairsGrow(numBuckets, DoubleUntil(StartSize(numFilled), required + 2), mlf);
      RehashSafeExactly(numFilled, required + 2, mlf);
      Rehash(required + 2);
      CheckLeavesRoom(m, numBuckets, mlf);
      return true;
    }

    method Insert(key: Key, val: Value) returns (slot: nat, inserted: bool)
      requires Valid() && Allowed(numFilled)
      modifies this, index, pairs
      ensures Valid() && inserted == (key !in old(Model()))
      ensures Model() == if inserted then old(Model())[key := val] else old(Model())
      ensures slot < numFilled && pairs[slot].key == key
      ensures pairs[..numFilled] == if inserted then old(pairs[..numFilled]) + [Entry(key, val)] else old(pairs[..numFilled])
      ensures (index == old(index) || fresh(index)) && (pairs == old(pairs) || fresh(pairs))
      ensures if old(numFilled * mlf < (numBuckets - 1) * 0x800_0000) then index == old(index) && numBuckets == old(numBuckets)
              else ReserveLine(old(numFilled), old(numFilled), mlf, numBuckets)
    {
      hide Indexed, IsPow2, PairCapacity, DistinctKeys, LoadOk, Contents, ReserveLine, Required;
      var grown := Reserve(numFilled);
      slot, inserted := DoInsert(key, val);
    }

    method InsertOrAssign(key: Key, val: Value) returns (slot: nat, inserted: bool)
      requires Valid() && Allowed(numFilled)
      modifies this, index, pairs
      ensures Valid() && inserted == (key !in old(Model())) && Model() == old(Model())[key := val]
      ensures slot < numFilled && pairs[slot] == Entry(key, val)
      ensures inserted ==> pairs[..numFilled] == old(pairs[..numFilled]) + [Entry(key, val)]
      ensures !inserted ==> pairs[..numFilled] == old(pairs[..numFilled])[slot := Entry(key, val)]
      ensures (index == old(index) || fresh(index)) && (pairs == old(pairs) || fresh(pairs))
      ensures if old(numFilled * mlf < (numBuckets - 1) * 0x800_0000) then index == old(index) && numBuckets == old(numBuckets)
              else ReserveLine(old(numFilled), old(numFilled), mlf, numBuckets)
    {
      hide Indexed, IsPow2, PairCapacity, DistinctKeys, LoadOk, Contents, ReserveLine, Required;
      var grown := Reserve(numFilled);
      slot, inserted := DoAssign(key, val);
    }

    /** For a key that the caller knows to be absent. */
    method InsertUnique(key: Key, val: Value) returns (bucket: nat)
      requires Valid() && Allowed(numFilled) && key !in Model()
      modifies this, index, pairs
      ensures Valid() && Model() == old(Model())[key := val]
      ensures bucket < numBuckets && index[bucket].next >= 0 && SlotAt(Chains(), bucket) == numFilled - 1
      ensures (index == old(index) || fresh(index)) && (pairs == old(pairs) || fresh(pairs))
      ensures if old(numFilled * mlf < (numBuckets - 1) * 0x800_0000) then index == old(index) && numBuckets == old(numBuckets)
              else ReserveLine(old(numFilled), old(numFilled), mlf, numBuckets)
    {
      hide Indexed, IsPow2, PairCapacity, DistinctKeys, LoadOk, Contents, ReserveLine, Required;
      var grown := Reserve(numFilled);
      bucket := DoInsertUnique(key, val);
    }
  }

  lemma KeptBefore(vs: seq<Entry>, i: nat)
    requires i < |vs|
    ensures forall v | 0 <= v < i :: RemoveAt(vs, i)[v] == vs[v]
  {
  }

  lemma Shaped(c: Links, ps: seq<Entry>, hash: Key -> Hash32, where: seq<nat>)
    requires Indexed(c, ps, hash, where, -1)
    ensures Shape(c) && |where| == |ps|
  {
  }

  lemma NoPairs(where: seq<nat>, c: Links, hash: Key -> Hash32, ps: seq<Entry>)
    requires ps == []
    ensures Indexed(c, [], hash, where, -1) ==> Indexed(c, ps, hash, where, -1)
  {
  }

  /** At the end of the chain that goes through its main bucket, a key is absent. */
  lemma Ended(c: Links, ps: seq<Entry>, hash: Key -> Hash32, where: seq<nat>, key: Key, b: nat)
    requires Indexed(c, ps, hash, where, -1) && Occ(c, b) && c.ix[b].next == b
    requires var main := Main(|c.ix|, hash(key));
             if c.home[main] == main then c.home[b] == main && Passed(c, ps, main, key, b) else Absent(ps, key)
    ensures Absent(ps, key)
  {
    hide Chained, SlotOk, BucketOk, Main, Passed, Absent;
    if c.home[Main(|c.ix|, hash(key))] == Main(|c.ix|, hash(key)) {
      PassedEnd(c, ps, hash, where, key, b);
    }
  }

  lemma FreeMain(c: Links, ps: seq<Entry>, hash: Key -> Hash32, where: seq<nat>, b: nat)
    requires Indexed(c, ps, hash, where, -1) && b < |c.ix| && c.ix[b].next < 0
    ensures Awaiting(c, ps, hash, where, b, b, INACTIVE)
  {
  }

  lemma IndexedIsChained(c: Links, ps: seq<Entry>, hash: Key -> Hash32, where: seq<nat>)
    requires Indexed(c, ps, hash, where, -1)
    ensures Shape(c) && Chained(c)
    ensures forall b: nat | Occ(c, b) :: Occ(c, c.ix[b].next) && c.home[c.ix[b].next] == c.home[b]
  {
    hide Pair;
    forall b: nat | Occ(c, b) ensures Occ(c, c.ix[b].next) && c.home[c.ix[b].next] == c.home[b] {
      assert Node(c, b);
    }
  }
}
