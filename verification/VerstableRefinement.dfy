/** The linked table of Verstable refines the plain one: every change of the metadata and
    buckets is a change of what the buckets hold. */
module VerstableRefinement {
  import opened Entries
  import opened FiniteSets
  import opened Triangular
  import opened VerstableChains
  import opened VerstableContents
  import opened VerstablePlain

  // ----- what is stored where -----

  lemma {:induction false} FindIs(s: Slots, key: Key, b: nat, c: nat)
    requires Distinct(s) && b <= c < |s| && s[c].Some? && s[c].value.key == key
    ensures Find(s, key, b) == Some(c)
  {
    assert Find(s, key, b).Some?;
  }

  /** The keys, and the bucket of each. */
  lemma SlotsIndexed(t: Table, where: map<Key, nat>)
    requires Indexed(t, where)
    ensures Distinct(SlotsOf(t)) && KeysOf(SlotsOf(t)) == where.Keys && |KeysOf(SlotsOf(t))| == |where|
  {
    var s := SlotsOf(t);
    forall k | k in where ensures k in KeysOf(s) {
      assert s[where[k]].value.key == k;
    }
  }

  lemma FoundWhere(t: Table, where: map<Key, nat>, key: Key)
    requires Indexed(t, where)
    ensures Find(SlotsOf(t), key, 0) == if key in where then Some(where[key]) else None
  {
    SlotsIndexed(t, where);
    if key in where {
      FindIs(SlotsOf(t), key, 0, where[key]);
    } else {
      FindMeans(SlotsOf(t), key);
    }
  }

  /** The strong invariant places every entry well. */
  lemma StrongIsWellPlaced(t: Table, hash: Key -> Hash64, dist: seq<nat>, where: map<Key, nat>)
    requires Strong(t, hash, dist) && Indexed(t, where) && IsPow2(|t.md|)
    ensures WellPlaced(SlotsOf(t), hash)
  {
    hide IsPow2;
    var s := SlotsOf(t);
    SlotsIndexed(t, where);
    forall b | 0 <= b < |s| && s[b].Some? ensures RootedAt(s, hash, b) {
      assert Occ(t, b) && BucketOk(t, hash, dist, b);
      HeadIsHome(t, hash, dist, Home(t, hash, b));
    }
  }

  // ----- refusal -----

  lemma FirstEmptyOutOfReach(t: Table, h: nat)
    requires Shape(t)
    ensures FirstEmpty(SlotsOf(t), h, 1) == LIMIT <==> OutOfReach(t, h)
  {
    hide Slot;
    FirstEmptyPasses(SlotsOf(t), h, 1);
    if OutOfReach(t, h) {
      FirstEmptyIs(SlotsOf(t), h, 1, LIMIT);
    }
  }

  /** A search that finds no empty bucket has passed as many entries as there are buckets
      within the displacement limit. */
  lemma OutOfReachNeedsMany(t: Table, where: map<Key, nat>, h: nat)
    requires Indexed(t, where) && IsPow2(|t.md|) && Occ(t, h) && OutOfReach(t, h)
    ensures |where| >= |t.md| || |where| >= LIMIT
  {
    hide IsPow2, OutOfReach, FirstEmpty;
    SlotsIndexed(t, where);
    FirstEmptyOutOfReach(t, h);
    NoneEmptyNeedsMany(SlotsOf(t), h);
  }

  /** Where a search for an empty bucket starts when `key` is inserted: at the home of the
      entry that occupies the key's home bucket, be it evicted or be its chain prolonged. */
  ghost function SearchHome(t: Table, hash: Key -> Hash64, key: Key): nat
    requires Shape(t)
  {
    Home(t, hash, HomeOf(hash, |t.md|, key))
  }

  /** Inserting `key` runs into the displacement limit. */
  ghost predicate Stuck(t: Table, hash: Key -> Hash64, key: Key)
    requires Shape(t)
  {
    Occ(t, HomeOf(hash, |t.md|, key)) && OutOfReach(t, SearchHome(t, hash, key))
  }

  lemma StuckHasNoPlace(t: Table, hash: Key -> Hash64, key: Key)
    requires Shape(t)
    ensures Stuck(t, hash, key) <==> NoPlace(SlotsOf(t), hash, key)
  {
    hide OutOfReach, FirstEmpty;
    FirstEmptyOutOfReach(t, SearchHome(t, hash, key));
  }

  lemma StuckNeedsMany(t: Table, hash: Key -> Hash64, dist: seq<nat>, where: map<Key, nat>, key: Key)
    requires Strong(t, hash, dist) && Indexed(t, where) && IsPow2(|t.md|) && Stuck(t, hash, key)
    ensures |where| >= |t.md| || |where| >= LIMIT
  {
    hide IsPow2, OutOfReach, Indexed;
    var b := HomeOf(hash, |t.md|, key);
    assert BucketOk(t, hash, dist, b);
    HeadIsHome(t, hash, dist, Home(t, hash, b));
    OutOfReachNeedsMany(t, where, Home(t, hash, b));
  }

  // ----- changes -----

  lemma SlotHolds(t: Table, b: nat)
    requires Shape(t) && b < |t.md|
    ensures SlotsOf(t)[b] == if t.md[b] == EMPTY then None else Some(t.kv[b])
  {
  }

  lemma NothingInSlots(t: Table, where: map<Key, nat>)
    requires Indexed(t, where) && |where| == 0
    ensures SlotsOf(t) == Blank(|t.md|)
  {
  }

  /** Taking an entry off its chain leaves it in its bucket. */
  lemma SlotsDisconnected(t: Table, hash: Key -> Hash64, dist: seq<nat>, p: nat, b: nat)
    requires Follows(t, hash, dist, p, b)
    ensures SlotsOf(Skip(t, p, b)) == SlotsOf(t)
  {
    assert BucketOk(t, hash, dist, b);
  }

  /** The disconnected entry of `b` relinked elsewhere, and its old bucket cleared. */
  lemma SlotsRelinked(t: Table, hash: Key -> Hash64, dist: seq<nat>, b: nat, q: nat, e: nat, d: nat, frag: nat, entry: Entry)
    requires Shape(t) && b < |t.md| && e < |t.md| && Strong(Clear(t, b), hash, dist) && Occ(Clear(t, b), q)
    requires q != e && b != e && d > 0
    ensures SlotsOf(Clear(LinkAfter(t, q, e, d, frag, entry), b)) == SlotsOf(t)[e := Some(entry)][b := None]
  {
    assert BucketOk(Clear(t, b), hash, dist, q);
  }

  lemma SlotsLinked(t: Table, prev: nat, e: nat, d: nat, frag: nat, entry: Entry)
    requires Shape(t) && Occ(t, prev) && e < |t.md| && prev != e && t.md[prev].disp > 0 && d > 0
    ensures SlotsOf(LinkAfter(t, prev, e, d, frag, entry)) == SlotsOf(t)[e := Some(entry)]
  {
  }

  lemma SlotsPlacedHome(t: Table, h: nat, frag: nat, entry: Entry)
    requires Shape(t) && h < |t.md|
    ensures SlotsOf(PlaceHome(t, h, frag, entry)) == SlotsOf(t)[h := Some(entry)]
  {
  }

  lemma SlotsUpdated(t: Table, b: nat, entry: Entry)
    requires Shape(t) && Occ(t, b)
    ensures SlotsOf(t.(kv := t.kv[b := entry])) == SlotsOf(t)[b := Some(entry)]
  {
  }

  // ----- erasure -----

  /** The entry of `l` ends the chain that holds the entry of `b`. */
  ghost predicate EndsChain(t: Table, hash: Key -> Hash64, b: nat, l: nat)
    requires Shape(t)
  {
    Occ(t, b) && Occ(t, l) && Home(t, hash, l) == Home(t, hash, b) && t.md[l].disp == LIMIT
  }

  lemma NoneBeyond(t: Table, hash: Key -> Hash64, dist: seq<nat>, b: nat, l: nat, d: nat)
    requires Strong(t, hash, dist) && IsPow2(|t.md|) && EndsChain(t, hash, b, l) && dist[l] < d < |t.md|
    ensures var c := Slot(|t.md|, Home(t, hash, b), d);
            !(Occ(t, c) && Home(t, hash, c) == Home(t, hash, b))
  {
    hide IsPow2, Slot, Consecutive;
    var h := Home(t, hash, b);
    var c := Slot(|t.md|, h, d);
    if Occ(t, c) && Home(t, hash, c) == h {
      OnPath(t, hash, dist, c);
      DistinctSlots(|t.md|, h, d, dist[c]);
      NothingSkipped(t, hash, dist, l, c);
    }
  }

  /** The end of a chain lies furthest along the probe path of its home. */
  lemma {:induction false} FurthestEndsChain(t: Table, hash: Key -> Hash64, dist: seq<nat>, b: nat, l: nat, d: nat)
    requires Strong(t, hash, dist) && IsPow2(|t.md|) && EndsChain(t, hash, b, l) && dist[l] <= d < |t.md|
    ensures Furthest(SlotsOf(t), hash, Home(t, hash, b), d) == l
    decreases d
  {
    hide IsPow2, Slot, BucketOk, Consecutive;
    OnPath(t, hash, dist, l);
    if d > dist[l] {
      NoneBeyond(t, hash, dist, b, l, d);
      FurthestEndsChain(t, hash, dist, b, l, d - 1);
    }
  }

  lemma OnPath(t: Table, hash: Key -> Hash64, dist: seq<nat>, b: nat)
    requires Strong(t, hash, dist) && Occ(t, b)
    ensures b < |dist| && b == Slot(|t.md|, Home(t, hash, b), dist[b]) && dist[b] < |t.md|
  {
    assert BucketOk(t, hash, dist, b);
  }

  /** An erasure of the linked table erases the same bucket of the plain one. */
  lemma ErasureRefines(t: Table, where: map<Key, nat>, t': Table, where': map<Key, nat>,
                       hash: Key -> Hash64, dist: seq<nat>, b: nat, moved: nat)
    requires Indexed(t, where) && Strong(t, hash, dist) && IsPow2(|t.md|) && EndsChain(t, hash, b, moved)
    requires Erasure(t, where, t', where', hash, dist, b, moved)
    ensures SlotsOf(t') == Erased(SlotsOf(t), hash, t.kv[b].key)
  {
    hide IsPow2, Slot, Furthest, Find, BucketOk, Consecutive, Distinct;
    FoundWhere(t, where, t.kv[b].key);
    OnPath(t, hash, dist, moved);
    FurthestEndsChain(t, hash, dist, b, moved, |t.md| - 1);
    assert SlotsOf(t') == SlotsOf(t)[b := SlotsOf(t)[moved]][moved := None];
  }
}
