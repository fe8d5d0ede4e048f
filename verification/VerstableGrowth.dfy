/** Which capacities a Verstable table takes, and what no capacity can hold. */
module VerstableGrowth {
  import opened Entries
  import opened FiniteSets
  import opened Triangular
  import opened VerstableChains
  import opened VerstableContents

  const MIN_NONZERO_BUCKET_COUNT: nat := 8

  // ----- the load factor -----

  /** `n` entries do not exceed the load factor of `cap` buckets. */
  predicate Fits(n: nat, maxLoad: real, cap: nat) {
    n as real <= maxLoad * cap as real
  }

  lemma FitsMonotone(n: nat, maxLoad: real, a: nat, b: nat)
    requires maxLoad > 0.0 && a <= b && Fits(n, maxLoad, a)
    ensures Fits(n, maxLoad, b)
  {
    assert maxLoad * (b - a) as real >= 0.0;
  }

  lemma KeepsLoad(n: nat, maxLoad: real, a: nat, b: nat)
    requires maxLoad > 0.0 && a <= b
    ensures Fits(n, maxLoad, a) ==> Fits(n, maxLoad, b)
  {
    hide Fits;
    if Fits(n, maxLoad, a) {
      FitsMonotone(n, maxLoad, a, b);
    }
  }

  lemma UnfitIsBounded(n: nat, maxLoad: real, cap: nat)
    requires maxLoad > 0.0 && !Fits(n, maxLoad, cap)
    ensures cap <= (n as real / maxLoad).Floor
  {
    var q := n as real / maxLoad;
    assert q * maxLoad == n as real;
    assert (q - cap as real) * maxLoad > 0.0;
    assert q > cap as real;
  }

  lemma FitsSomewhere(n: nat, maxLoad: real, cap: nat)
    requires n > 0 && Fits(n, maxLoad, cap)
    ensures cap > 0
  {
  }

  /** With a load factor of at most 1, entries that fit have a bucket each. */
  lemma FitsInBuckets(n: nat, maxLoad: real, cap: nat)
    requires maxLoad <= 1.0 && Fits(n, maxLoad, cap)
    ensures n <= cap
  {
    assert maxLoad * cap as real <= cap as real by {
      assert (1.0 - maxLoad) * cap as real >= 0.0;
    }
  }

  /** Doubling from `cap` until `n` entries fit. */
  ghost function FittingFrom(cap: nat, n: nat, maxLoad: real): (c: nat)
    requires maxLoad > 0.0 && cap > 0
    ensures c >= cap
    decreases (n as real / maxLoad).Floor - cap
  {
    if Fits(n, maxLoad, cap) then cap
    else
      UnfitIsBounded(n, maxLoad, cap);
      FittingFrom(2 * cap, n, maxLoad)
  }

  /** The least capacity that `n` entries fit. */
  ghost function LeastCap(n: nat, maxLoad: real): (c: nat)
    requires maxLoad > 0.0
    ensures c == 0 <==> n == 0
  {
    if n == 0 then 0 else FittingFrom(MIN_NONZERO_BUCKET_COUNT, n, maxLoad)
  }

  lemma {:induction false} FittingFromFits(cap: nat, n: nat, maxLoad: real)
    requires maxLoad > 0.0 && IsPow2(cap)
    ensures var c := FittingFrom(cap, n, maxLoad);
            c >= cap && IsPow2(c) && Fits(n, maxLoad, c) && (c > cap ==> !Fits(n, maxLoad, c / 2))
    decreases (n as real / maxLoad).Floor - cap
  {
    hide Fits;
    if !Fits(n, maxLoad, cap) {
      UnfitIsBounded(n, maxLoad, cap);
      DoublePow2(cap);
      FittingFromFits(2 * cap, n, maxLoad);
    }
  }

  /** No smaller capacity that the table can have would do. */
  lemma LeastCapIsLeast(n: nat, maxLoad: real, c: nat)
    requires maxLoad > 0.0 && c >= MIN_NONZERO_BUCKET_COUNT && IsPow2(c) && Fits(n, maxLoad, c)
    ensures LeastCap(n, maxLoad) <= c
  {
    hide Fits, IsPow2;
    if n > 0 {
      EightIsPow2();
      FittingFromFits(MIN_NONZERO_BUCKET_COUNT, n, maxLoad);
      var least := LeastCap(n, maxLoad);
      if c < least {
        PowerGap(c, least);
        FitsMonotone(n, maxLoad, c, least / 2);
      }
    }
  }

  /** Powers of two are a factor of two apart. */
  lemma {:induction false} PowerGap(a: nat, b: nat)
    requires IsPow2(a) && IsPow2(b) && a < b
    ensures 2 * a <= b
  {
    if a > 1 {
      PowerGap(a / 2, b / 2);
    }
  }

  /** The first capacity that a table of `cap` buckets grows to. */
  function NextCap(cap: nat): nat
  {
    if cap == 0 then MIN_NONZERO_BUCKET_COUNT else 2 * cap
  }

  // ----- what no capacity can hold -----

  /** A chain has room for one entry per displacement below the limit. */
  lemma ChainRoom(t: Table, hash: Key -> Hash64, dist: seq<nat>, where: map<Key, nat>, h: nat, keys: set<Key>)
    requires Strong(t, hash, dist) && Indexed(t, where) && keys <= where.Keys
    requires forall k :: k in keys ==> HomeOf(hash, |t.md|, k) == h
    ensures |keys| <= LIMIT
  {
    hide Slot;
    var dists := set k | k in keys :: dist[where[k]];
    forall k | k in keys ensures dist[where[k]] < LIMIT {
      assert Occ(t, where[k]) && BucketOk(t, hash, dist, where[k]);
    }
    SameSizeImage(t, hash, dist, where, h, keys, dists);
    BoundedSet(dists, LIMIT);
  }

  lemma {:induction false} SameSizeImage(t: Table, hash: Key -> Hash64, dist: seq<nat>, where: map<Key, nat>, h: nat,
                                         keys: set<Key>, dists: set<nat>)
    requires Strong(t, hash, dist) && Indexed(t, where) && keys <= where.Keys
    requires forall k :: k in keys ==> HomeOf(hash, |t.md|, k) == h
    requires dists == set k | k in keys :: dist[where[k]]
    ensures |dists| == |keys|
    decreases keys
  {
    hide BucketOk, Slot;
    if keys != {} {
      var k :| k in keys;
      var rest := keys - {k};
      var dists' := set k' | k' in rest :: dist[where[k']];
      SameSizeImage(t, hash, dist, where, h, rest, dists');
      forall k' | k' in rest ensures dist[where[k']] != dist[where[k]] {
        NothingSkipped(t, hash, dist, where[k'], where[k]);
      }
      assert dists == dists' + {dist[where[k]]};
    }
  }
}
