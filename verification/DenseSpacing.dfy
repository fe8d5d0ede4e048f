/** Which sets of keys keep the distances of an index within 24 bits. The condition is on
    the homes of the keys alone, and it is exact. */
module DenseSpacing {
  import opened Entries
  import opened EntryVectors
  import opened DenseIndex
  import opened FiniteSets

  /** The largest distance that a stored entry may have, counted from 1, so that every probe
      step fits 24 bits. */
  const REACH: nat := 0xFF_FFFE

  ghost function KeySet(vs: seq<Entry>): set<Key>
  {
    set e | e in vs :: e.key
  }

  /** The keys whose home is one of the `len` buckets from `s` on. */
  ghost function Homed(keys: set<Key>, hs: Hasher, n: nat, s: nat, len: nat): (r: set<Key>)
    requires HasherOk(hs, n) && s < n
    ensures r <= keys
  {
    set k | k in keys && Off(n, s, hs.home(k)) < len
  }

  /** Every interval of `len` buckets is home to fewer than `REACH + len` keys. */
  ghost predicate Spaced(keys: set<Key>, hs: Hasher, n: nat)
  {
    && HasherOk(hs, n)
    && forall s, len {:trigger Homed(keys, hs, n, s, len)} ::
         0 <= s < n && 1 <= len <= n ==> |Homed(keys, hs, n, s, len)| < REACH + len
  }

  /** Values with different keys whose distances will fit. */
  ghost predicate Fitting(vs: seq<Entry>, hs: Hasher, n: nat)
  {
    DistinctKeys(vs) && Spaced(KeySet(vs), hs, n)
  }

  /** Every stored distance is at most `REACH`. */
  ghost predicate Near(bs: seq<Bucket>)
  {
    forall p | 0 <= p < |bs| :: bs[p].daf < DIST_INC * (REACH + 1)
  }

  // ----- sets of keys -----

  lemma SpacedSubset(keys: set<Key>, more: set<Key>, hs: Hasher, n: nat)
    requires Spaced(more, hs, n) && keys <= more
    ensures Spaced(keys, hs, n)
  {
    forall s, len | 0 <= s < n && 1 <= len <= n ensures |Homed(keys, hs, n, s, len)| < REACH + len {
      SubsetSize(Homed(keys, hs, n, s, len), Homed(more, hs, n, s, len));
    }
  }

  /** Up to `REACH` keys are spaced well enough for every hash function ... */
  lemma FewAreSpaced(keys: set<Key>, hs: Hasher, n: nat)
    requires HasherOk(hs, n) && |keys| <= REACH
    ensures Spaced(keys, hs, n)
  {
    forall s, len | 0 <= s < n && 1 <= len <= n ensures |Homed(keys, hs, n, s, len)| < REACH + len {
      SubsetSize(Homed(keys, hs, n, s, len), keys);
    }
  }

  /** ... and more than that are not when they share a home. */
  lemma SharedHomeIsLimited(keys: set<Key>, hs: Hasher, n: nat, h: nat)
    requires HasherOk(hs, n) && h < n && forall k :: k in keys ==> hs.home(k) == h
    ensures Spaced(keys, hs, n) <==> |keys| <= REACH
  {
    assert Homed(keys, hs, n, h, 1) == keys;
    if |keys| <= REACH {
      FewAreSpaced(keys, hs, n);
    }
  }

  lemma SpacedFits(vs: seq<Entry>, hs: Hasher, n: nat)
    requires DistinctKeys(vs) && Spaced(KeySet(vs), hs, n)
    ensures Fitting(vs, hs, n)
  {
  }

  lemma NothingFits(hs: Hasher, n: nat)
    requires HasherOk(hs, n)
    ensures Fitting([], hs, n)
  {
    assert KeySet([]) == {};
    FewAreSpaced({}, hs, n);
  }

  lemma FittingSubset(vs: seq<Entry>, more: seq<Entry>, hs: Hasher, n: nat)
    requires Fitting(more, hs, n) && DistinctKeys(vs) && KeySet(vs) <= KeySet(more)
    ensures Fitting(vs, hs, n)
  {
    SpacedSubset(KeySet(vs), KeySet(more), hs, n);
  }

  lemma PrefixFits(vs: seq<Entry>, i: nat, hs: Hasher, n: nat)
    requires i <= |vs| && Fitting(vs, hs, n)
    ensures Fitting(vs[..i], hs, n)
  {
    assert forall e :: e in vs[..i] ==> e in vs;
    FittingSubset(vs[..i], vs, hs, n);
  }

  lemma AppendedFits(vs: seq<Entry>, entry: Entry, hs: Hasher, n: nat)
    requires DistinctKeys(vs) && Absent(vs, entry.key)
    ensures Fitting(vs + [entry], hs, n) <==> Spaced(KeySet(vs) + {entry.key}, hs, n)
  {
    assert forall e :: e in vs + [entry] <==> e in vs || e == entry;
    assert KeySet(vs + [entry]) == KeySet(vs) + {entry.key};
    Appended(vs, entry);
  }

  lemma RemovedFits(vs: seq<Entry>, i: nat, hs: Hasher, n: nat)
    requires i < |vs| && Fitting(vs, hs, n)
    ensures Fitting(RemoveAt(vs, i), hs, n)
  {
    assert forall e :: e in RemoveAt(vs, i) ==> e in vs;
    RemovedKeepsDistinct(vs, i);
    FittingSubset(RemoveAt(vs, i), vs, hs, n);
  }

  lemma ReassignedFits(vs: seq<Entry>, i: nat, val: Value, hs: Hasher, n: nat)
    requires i < |vs| && Fitting(vs, hs, n)
    ensures Fitting(vs[i := Entry(vs[i].key, val)], hs, n)
  {
    var vs' := vs[i := Entry(vs[i].key, val)];
    assert forall v | 0 <= v < |vs| :: vs'[v].key == vs[v].key;
    forall k | k in KeySet(vs') ensures k in KeySet(vs) {
      var e :| e in vs' && e.key == k;
      var v :| 0 <= v < |vs'| && vs'[v] == e;
      assert vs[v] in vs;
    }
    FittingSubset(vs', vs, hs, n);
  }

  /** Part of a container whose keys are well spaced. */
  lemma PartFits(vs: seq<Entry>, container: seq<Entry>, hs: Hasher, n: nat)
    requires Spaced(KeySet(container), hs, n) && DistinctKeys(vs) && forall e :: e in vs ==> e in container
    ensures Fitting(vs, hs, n)
  {
    SpacedSubset(KeySet(vs), KeySet(container), hs, n);
  }

  lemma ContentsKeys(vs: seq<Entry>)
    requires DistinctKeys(vs)
    ensures Contents(vs).Keys == KeySet(vs) && |KeySet(vs)| == |vs|
  {
    ContentsSize(vs);
    forall k | k in KeySet(vs) ensures k in Contents(vs) {
      var e :| e in vs && e.key == k;
      var v :| 0 <= v < |vs| && vs[v] == e;
      assert vs[v].key in Contents(vs);
    }
    assert |Contents(vs).Keys| == |Contents(vs)|;
  }

  // ----- from homes to distances -----

  /** Walking back from an occupied bucket `p`, an entry at home is met before any empty
      bucket. */
  lemma {:induction false} RunStart(bs: seq<Bucket>, p: nat, t: nat, w: nat) returns (i: nat)
    requires Ordered(bs) && p < |bs| && w < |bs| && bs[w].daf < 2 * DIST_INC && t <= Off(|bs|, w, p)
    requires forall u | 0 <= u < t :: bs[Back(|bs|, p, u)].daf >= 2 * DIST_INC
    ensures i < |bs| && bs[Back(|bs|, p, i)].daf < 2 * DIST_INC
    ensures forall u | 0 <= u < i :: bs[Back(|bs|, p, u)].daf >= 2 * DIST_INC
    decreases Off(|bs|, w, p) - t
  {
    assert Back(|bs|, p, Off(|bs|, w, p)) == w;
    if bs[Back(|bs|, p, t)].daf < 2 * DIST_INC {
      i := t;
    } else {
      i := RunStart(bs, p, t + 1, w);
    }
  }

  /** Along a run that starts at an entry at home, distances grow by at most one a step. */
  lemma {:induction false} RunDistances(bs: seq<Bucket>, s: nat, u: nat)
    requires Ordered(bs) && s < |bs| && u < |bs| && bs[s].daf < 2 * DIST_INC
    ensures bs[Fwd(|bs|, s, u)].daf < DIST_INC * (u + 2)
  {
    if u > 0 {
      RunDistances(bs, s, u - 1);
      assert StepOk(bs, Fwd(|bs|, s, u - 1));
    }
  }

  /** A run from the entry at home in bucket `s` to bucket `p`, `i` steps on. */
  ghost predicate Run(bs: seq<Bucket>, s: nat, i: nat)
  {
    && Ordered(bs) && s < |bs| && i < |bs| && bs[s].daf < 2 * DIST_INC
    && forall u | 0 <= u <= i :: Occ(bs, Fwd(|bs|, s, u))
  }

  /** The entries of a run have homes between its start and the home of its last entry. */
  lemma HomeInRun(bs: seq<Bucket>, vs: seq<Entry>, hs: Hasher, s: nat, i: nat, u: nat)
    requires Run(bs, s, i) && u <= i && HasherOk(hs, |bs|)
    requires BucketOk(bs, vs, hs, Fwd(|bs|, s, i)) && BucketOk(bs, vs, hs, Fwd(|bs|, s, u))
    ensures var p, q := Fwd(|bs|, s, i), Fwd(|bs|, s, u);
            Off(|bs|, s, hs.home(vs[bs[q].idx].key)) <= Off(|bs|, s, hs.home(vs[bs[p].idx].key)) <= i
    ensures var h := hs.home(vs[bs[Fwd(|bs|, s, i)].idx].key);
            Off(|bs|, h, Fwd(|bs|, s, i)) == i - Off(|bs|, s, h)
  {
    var p, q := Fwd(|bs|, s, i), Fwd(|bs|, s, u);
    RunDistances(bs, s, i);
    RunDistances(bs, s, u);
    var h := hs.home(vs[bs[p].idx].key);
    var d := Off(|bs|, h, p);
    if i - u < d {
      BackwardBound(bs, p, i - u);
      assert Back(|bs|, p, i - u) == q;
    }
  }

  /** The entries of the first `u` buckets of a run have different keys. */
  lemma {:induction false} KeysOfRun(bs: seq<Bucket>, vs: seq<Entry>, hs: Hasher, pos: seq<nat>, gap: int, s: nat, i: nat, u: nat)
    returns (keys: set<Key>)
    requires Run(bs, s, i) && u <= i + 1 && HasherOk(hs, |bs|) && Matched(bs, vs, hs, pos, -1, gap) && DistinctKeys(vs)
    requires BucketOk(bs, vs, hs, Fwd(|bs|, s, i))
    ensures |keys| == u
    ensures forall k :: k in keys ==> exists v :: 0 <= v < |vs| && vs[v].key == k && pos[v] < |bs| && Off(|bs|, s, pos[v]) < u
    ensures keys <= Homed(KeySet(vs), hs, |bs|, s, Off(|bs|, s, hs.home(vs[bs[Fwd(|bs|, s, i)].idx].key)) + 1)
  {
    keys := {};
    if u > 0 {
      var before := KeysOfRun(bs, vs, hs, pos, gap, s, i, u - 1);
      var q := Fwd(|bs|, s, u - 1);
      assert Occ(bs, q) && BucketOk(bs, vs, hs, q);
      var k := vs[bs[q].idx].key;
      HomeInRun(bs, vs, hs, s, i, u - 1);
      assert k !in before;
      assert vs[bs[q].idx] in vs;
      keys := before + {k};
    }
  }

  /** Well-spaced keys keep a stored distance within `REACH`, also while a bucket is in hand. */
  lemma NearWhenSpaced(bs: seq<Bucket>, vs: seq<Entry>, hs: Hasher, pos: seq<nat>, gap: int, p: nat, w: nat)
    requires Ordered(bs) && Matched(bs, vs, hs, pos, -1, gap) && Fitting(vs, hs, |bs|) && Occ(bs, p)
    requires w < |bs| && bs[w].daf < 2 * DIST_INC
    ensures bs[p].daf < DIST_INC * (REACH + 1)
  {
    hide Matched, Ordered, DistinctKeys;
    BucketIsOk(bs, vs, hs, pos, gap, p);
    var i := RunStart(bs, p, 0, w);
    var s := Back(|bs|, p, i);
    RunFromStart(bs, p, i);
    HomeInRun(bs, vs, hs, s, i, i);
    var keys := KeysOfRun(bs, vs, hs, pos, gap, s, i, i + 1);
    var len := Off(|bs|, s, hs.home(vs[bs[p].idx].key)) + 1;
    SubsetSize(keys, Homed(KeySet(vs), hs, |bs|, s, len));
  }

  lemma BucketIsOk(bs: seq<Bucket>, vs: seq<Entry>, hs: Hasher, pos: seq<nat>, gap: int, p: nat)
    requires Matched(bs, vs, hs, pos, -1, gap) && Occ(bs, p)
    ensures BucketOk(bs, vs, hs, p)
  {
  }

  lemma RunFromStart(bs: seq<Bucket>, p: nat, i: nat)
    requires Ordered(bs) && Occ(bs, p) && i < |bs| && bs[Back(|bs|, p, i)].daf < 2 * DIST_INC
    requires forall u | 0 <= u < i :: bs[Back(|bs|, p, u)].daf >= 2 * DIST_INC
    ensures Run(bs, Back(|bs|, p, i), i) && Fwd(|bs|, Back(|bs|, p, i), i) == p
  {
    var s := Back(|bs|, p, i);
    forall u | 0 <= u <= i ensures Occ(bs, Fwd(|bs|, s, u)) {
      assert Fwd(|bs|, s, u) == Back(|bs|, p, i - u);
      assert u < i ==> Next(|bs|, Back(|bs|, p, i - u)) == Back(|bs|, p, i - u - 1);
      assert StepOk(bs, Back(|bs|, p, i - u));
    }
  }

  lemma IndexedIsNear(bs: seq<Bucket>, vs: seq<Entry>, hs: Hasher, pos: seq<nat>)
    requires Indexed(bs, vs, hs, pos) && Fitting(vs, hs, |bs|)
    ensures Near(bs)
  {
    hide Ordered, Matched, Fitting;
    var w :| 0 <= w < |bs| && bs[w].daf < 2 * DIST_INC;
    forall p | 0 <= p < |bs| ensures bs[p].daf < DIST_INC * (REACH + 1) {
      if Occ(bs, p) {
        NearWhenSpaced(bs, vs, hs, pos, -1, p, w);
      }
    }
  }

  // ----- from distances to homes -----

  /** An entry with a home in an interval is stored no further than `REACH` allows. */
  lemma OffsetBound(bs: seq<Bucket>, vs: seq<Entry>, hs: Hasher, pos: seq<nat>, s: nat, len: nat, k: Key) returns (v: nat)
    requires Indexed(bs, vs, hs, pos) && Near(bs) && s < |bs| && len >= 1
    requires k in Homed(KeySet(vs), hs, |bs|, s, len)
    ensures v < |vs| && vs[v].key == k && v < |pos| && ValueOk(bs, pos, v) && Off(|bs|, s, pos[v]) < REACH + len - 1
  {
    v := StoredAt(bs, vs, hs, pos, k);
    var h := hs.home(k);
    assert Off(|bs|, h, pos[v]) < REACH;
  }

  ghost predicate KeptAt(vs: seq<Entry>, k: Key, v: int)
  {
    0 <= v < |vs| && vs[v].key == k
  }

  /** How far from bucket `s` the entry with key `k` is stored. */
  ghost function Distance(bs: seq<Bucket>, vs: seq<Entry>, pos: seq<nat>, s: nat, k: Key): nat
    requires s < |bs|
  {
    if exists v :: KeptAt(vs, k, v) then
      var v :| KeptAt(vs, k, v);
      if v < |pos| && pos[v] < |bs| then Off(|bs|, s, pos[v]) else 0
    else 0
  }

  lemma DistanceIs(bs: seq<Bucket>, vs: seq<Entry>, pos: seq<nat>, s: nat, k: Key, v: nat)
    requires s < |bs| && DistinctKeys(vs) && KeptAt(vs, k, v) && v < |pos| && pos[v] < |bs|
    ensures Distance(bs, vs, pos, s, k) == Off(|bs|, s, pos[v])
  {
  }

  /** Different entries are stored at different distances from a bucket. */
  lemma DistanceTells(bs: seq<Bucket>, vs: seq<Entry>, hs: Hasher, pos: seq<nat>, s: nat, k: Key, l: Key)
    requires Indexed(bs, vs, hs, pos) && DistinctKeys(vs) && s < |bs| && k in KeySet(vs) && l in KeySet(vs)
    requires Distance(bs, vs, pos, s, k) == Distance(bs, vs, pos, s, l)
    ensures k == l
  {
    hide Distance;
    var v := StoredAt(bs, vs, hs, pos, k);
    var u := StoredAt(bs, vs, hs, pos, l);
    DistanceIs(bs, vs, pos, s, k, v);
    DistanceIs(bs, vs, pos, s, l, u);
    assert pos[v] == pos[u];
  }

  /** True distances within `REACH` bound how many keys an interval is home to. */
  lemma HomedWhenNear(bs: seq<Bucket>, vs: seq<Entry>, hs: Hasher, pos: seq<nat>, s: nat, len: nat)
    requires Indexed(bs, vs, hs, pos) && Near(bs) && DistinctKeys(vs) && s < |bs| && len >= 1
    ensures |Homed(KeySet(vs), hs, |bs|, s, len)| < REACH + len
  {
    hide Near, Distance, Matched, Ordered, DistinctKeys;
    var keys := Homed(KeySet(vs), hs, |bs|, s, len);
    var f := k => Distance(bs, vs, pos, s, k);
    forall k | k in keys ensures f(k) < REACH + len - 1 {
      var v := OffsetBound(bs, vs, hs, pos, s, len, k);
      DistanceIs(bs, vs, pos, s, k, v);
    }
    forall k, l | k in keys && l in keys && f(k) == f(l) ensures k == l {
      DistanceTells(bs, vs, hs, pos, s, k, l);
    }
    var image := ImageBound(keys, f, REACH + len - 1);
  }

  lemma StoredAt(bs: seq<Bucket>, vs: seq<Entry>, hs: Hasher, pos: seq<nat>, k: Key) returns (v: nat)
    requires Indexed(bs, vs, hs, pos) && k in KeySet(vs)
    ensures v < |vs| && vs[v].key == k && v < |pos| && ValueOk(bs, pos, v) && BucketOk(bs, vs, hs, pos[v])
  {
    var e :| e in vs && e.key == k;
    v :| 0 <= v < |vs| && vs[v] == e;
    assert ValueOk(bs, pos, v);
  }

  /** The condition on homes is exact: whatever the order in which the values came, their
      distances stay within `REACH` if and only if their keys are well spaced. */
  lemma SpacedExactly(bs: seq<Bucket>, vs: seq<Entry>, hs: Hasher, pos: seq<nat>)
    requires Indexed(bs, vs, hs, pos) && DistinctKeys(vs)
    ensures Spaced(KeySet(vs), hs, |bs|) <==> Near(bs)
  {
    if Near(bs) {
      forall s, len | 0 <= s < |bs| && 1 <= len <= |bs|
        ensures |Homed(KeySet(vs), hs, |bs|, s, len)| < REACH + len
      {
        HomedWhenNear(bs, vs, hs, pos, s, len);
      }
    } else if Spaced(KeySet(vs), hs, |bs|) {
      IndexedIsNear(bs, vs, hs, pos);
    }
  }
}
