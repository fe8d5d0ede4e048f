/** The abstract map a Verstable table stands for. `where` is the index a reader would
    draw beside the table: it sends every stored key to its bucket. `Indexed` mentions no
    chain, so it is also the weak invariant that survives a failed eviction. */
module VerstableContents {
  import opened Entries
  import opened FiniteSets
  import opened Triangular
  import opened VerstableChains

  /** The occupied buckets hold exactly the keys of `where`, each once. */
  ghost predicate Indexed(t: Table, where: map<Key, nat>)
  {
    && Shape(t)
    && (forall k :: k in where ==> Occ(t, where[k]) && t.kv[where[k]].key == k)
    && (forall b :: Occ(t, b) ==> t.kv[b].key in where && where[t.kv[b].key] == b)
  }

  ghost function Contents(t: Table, where: map<Key, nat>): map<Key, Value>
    requires Indexed(t, where)
  {
    map k | k in where :: t.kv[where[k]].val
  }

  lemma Lookup(t: Table, where: map<Key, nat>, k: Key)
    requires Indexed(t, where)
    ensures k in where <==> k in Contents(t, where)
    ensures k in where ==> Occ(t, where[k]) && t.kv[where[k]] == Entry(k, Contents(t, where)[k])
  {
  }

  lemma Stored(t: Table, where: map<Key, nat>, b: nat)
    requires Indexed(t, where) && Occ(t, b)
    ensures t.kv[b].key in where && where[t.kv[b].key] == b && |where| > 0
  {
  }

  lemma SameSize(a: map<Key, nat>, b: map<Key, nat>)
    requires a.Keys == b.Keys
    ensures |a| == |b|
  {
    assert |a| == |a.Keys| && |b| == |b.Keys|;
  }

  lemma ContentsSize(t: Table, where: map<Key, nat>)
    requires Indexed(t, where)
    ensures Contents(t, where).Keys == where.Keys && |Contents(t, where)| == |where|
  {
    var m := Contents(t, where);
    assert m.Keys == where.Keys;
    assert |m| == |m.Keys| && |where| == |where.Keys|;
  }

  lemma NothingStored(t: Table, where: map<Key, nat>)
    requires Indexed(t, where) && |where| == 0
    ensures Contents(t, where) == map[]
  {
  }

  /** A table of empty buckets is the empty map. */
  lemma AllEmpty(t: Table, hash: Key -> Hash64, dist: seq<nat>)
    requires Shape(t) && |dist| == |t.md| && forall b | 0 <= b < |t.md| :: t.md[b] == EMPTY
    ensures Strong(t, hash, dist) && Indexed(t, map[]) && Contents(t, map[]) == map[]
  {
    assert forall b :: !Occ(t, b);
  }

  /** A new key enters an empty bucket. */
  lemma PutIndexed(t: Table, t': Table, where: map<Key, nat>, e: nat, entry: Entry)
    requires Indexed(t, where) && Shape(t') && |t'.md| == |t.md| && e < |t.md|
    requires !Occ(t, e) && entry.key !in where
    requires forall b :: Occ(t', b) <==> b == e || Occ(t, b)
    requires t'.kv == t.kv[e := entry]
    ensures Indexed(t', where[entry.key := e])
    ensures Contents(t', where[entry.key := e]) == Contents(t, where)[entry.key := entry.val]
  {
  }

  /** The entry of an occupied bucket gets a new value. */
  lemma UpdateIndexed(t: Table, t': Table, where: map<Key, nat>, b: nat, entry: Entry)
    requires Indexed(t, where) && Shape(t') && |t'.md| == |t.md|
    requires Occ(t, b) && t.kv[b].key == entry.key
    requires forall c :: Occ(t', c) <==> Occ(t, c)
    requires t'.kv == t.kv[b := entry]
    ensures Indexed(t', where)
    ensures Contents(t', where) == Contents(t, where)[entry.key := entry.val]
  {
  }

  /** Relinking alone changes nothing. */
  lemma UnlinkedIndexed(t: Table, t': Table, where: map<Key, nat>)
    requires Indexed(t, where) && Shape(t') && |t'.md| == |t.md| && t'.kv == t.kv
    requires forall c :: Occ(t', c) <==> Occ(t, c)
    ensures Indexed(t', where) && Contents(t', where) == Contents(t, where)
  {
  }

  /** The entry of bucket `b` disappears. */
  lemma DropIndexed(t: Table, t': Table, where: map<Key, nat>, b: nat)
    requires Indexed(t, where) && Shape(t') && |t'.md| == |t.md| && Occ(t, b)
    requires forall c :: Occ(t', c) <==> c != b && Occ(t, c)
    requires t'.kv == t.kv
    ensures Indexed(t', where - {t.kv[b].key})
    ensures Contents(t', where - {t.kv[b].key}) == Contents(t, where) - {t.kv[b].key}
  {
  }

  /** The entry of bucket `from` moves to the empty bucket `to`. */
  lemma MoveIndexed(t: Table, t': Table, where: map<Key, nat>, from: nat, to: nat)
    requires Indexed(t, where) && Shape(t') && |t'.md| == |t.md|
    requires Occ(t, from) && to < |t.md| && !Occ(t, to)
    requires forall c :: Occ(t', c) <==> c == to || (c != from && Occ(t, c))
    requires t'.kv == t.kv[to := t.kv[from]]
    ensures Indexed(t', where[t.kv[from].key := to])
    ensures Contents(t', where[t.kv[from].key := to]) == Contents(t, where)
  {
  }

  /** The entry of bucket `l` overwrites the one in bucket `b`, whose key disappears. */
  lemma SwapOutIndexed(t: Table, t': Table, where: map<Key, nat>, b: nat, l: nat)
    requires Indexed(t, where) && Shape(t') && |t'.md| == |t.md|
    requires Occ(t, b) && Occ(t, l) && b != l
    requires forall c :: Occ(t', c) <==> c != l && Occ(t, c)
    requires t'.kv == t.kv[b := t.kv[l]]
    ensures Indexed(t', (where - {t.kv[b].key})[t.kv[l].key := b])
    ensures Contents(t', (where - {t.kv[b].key})[t.kv[l].key := b]) == Contents(t, where) - {t.kv[b].key}
  {
    var where' := (where - {t.kv[b].key})[t.kv[l].key := b];
    forall k | k in where' ensures Occ(t', where'[k]) && t'.kv[where'[k]].key == k {
      if k != t.kv[l].key {
        assert where[k] != b && where[k] != l;
      }
    }
    forall c | Occ(t', c) ensures t'.kv[c].key in where' && where'[t'.kv[c].key] == c {
    }
  }

  /** The keys held by the first `i` buckets, all occupied, are `i` distinct keys. */
  lemma {:induction false} KeysOfFullPrefix(t: Table, where: map<Key, nat>, i: nat) returns (keys: set<Key>)
    requires Indexed(t, where) && i <= |t.md|
    requires forall b | 0 <= b < i :: Occ(t, b)
    ensures |keys| == i && keys <= where.Keys
    ensures forall k :: k in keys ==> where[k] < i
  {
    keys := {};
    if i > 0 {
      keys := KeysOfFullPrefix(t, where, i - 1);
      assert Occ(t, i - 1);
      keys := keys + {t.kv[i - 1].key};
    }
  }

  /** Fewer entries than buckets leaves an empty bucket. */
  lemma RoomLeft(t: Table, where: map<Key, nat>) returns (e: nat)
    requires Indexed(t, where) && |where| < |t.md|
    ensures e < |t.md| && !Occ(t, e)
  {
    if forall b | 0 <= b < |t.md| :: Occ(t, b) {
      var keys := KeysOfFullPrefix(t, where, |t.md|);
      assert |where.Keys| == |where|;
      SubsetSize(keys, where.Keys);
      assert false;
    }
    e :| 0 <= e < |t.md| && !Occ(t, e);
  }

  /** Every bucket that quadratic probing from `h` inspects within the displacement
      limit is occupied. */
  ghost predicate OutOfReach(t: Table, h: nat)
    requires Shape(t)
  {
    forall d | 1 <= d < LIMIT :: Occ(t, Slot(|t.md|, h, d))
  }

  /** The first empty bucket on a probe path lies within one round. */
  lemma FirstEmptyIsNear(t: Table, h: nat, d: nat)
    requires Shape(t) && IsPow2(|t.md|) && h < |t.md| && d > 0 && !Occ(t, Slot(|t.md|, h, d))
    requires forall i | 1 <= i < d :: Occ(t, Slot(|t.md|, h, i))
    ensures Occ(t, h) ==> d < |t.md|
  {
    hide Slot, IsPow2;
    var d' := ProbingReaches(|t.md|, h, Slot(|t.md|, h, d));
    SlotZero(|t.md|, h);
  }

  /** A probe sequence cut at the displacement limit still covers every bucket of a
      table of at most 1024 buckets. */
  lemma LimitIsHarmlessWhenSmall(t: Table, h: nat)
    requires Shape(t) && IsPow2(|t.md|) && h < |t.md| <= 1024 && Occ(t, h)
    requires OutOfReach(t, h)
    ensures forall b | 0 <= b < |t.md| :: Occ(t, b)
  {
    forall b | 0 <= b < |t.md| ensures Occ(t, b) {
      var d := ProbingReaches(|t.md|, h, b);
      SlotZero(|t.md|, h);
      assert d == 0 || Occ(t, Slot(|t.md|, h, d));
    }
  }

  /** The table after the entry of `b`, which followed `p` on its chain, has moved to the
      empty bucket `e` at displacement `d` and been linked in again after `q`. */
  function Evicted(t: Table, p: nat, b: nat, e: nat, d: nat, q: nat): Table
    requires Shape(t) && p < |t.md| && b < |t.md| && e < |t.md| && q < |t.md| && q != e
  {
    LinkAfter(Unlink(t, p, b), q, e, d, t.md[b].frag, t.kv[b])
  }

  /** With the entry of `b` skipped but still in place, the chains are well-formed apart
      from `b`, and the contents are untouched. */
  lemma DisconnectedTable(t: Table, hash: Key -> Hash64, dist: seq<nat>, where: map<Key, nat>, p: nat, b: nat)
    requires Follows(t, hash, dist, p, b) && Indexed(t, where) && !t.md[b].inHome
    ensures p != b && Strong(Unlink(t, p, b), hash, dist)
    ensures forall c :: Occ(Skip(t, p, b), c) <==> Occ(t, c)
    ensures forall c :: Occ(Unlink(t, p, b), c) <==> c != b && Occ(t, c)
    ensures Indexed(Skip(t, p, b), where) && Contents(Skip(t, p, b), where) == Contents(t, where)
    ensures var h := Home(t, hash, b);
            Occ(t, h) && h != b && Unlink(t, p, b).md[h].inHome
  {
    EvictHome(t, hash, dist, b);
    assert BucketOk(t, hash, dist, p);
    UnlinkKeepsStrong(t, hash, dist, p, b);
    UnlinkedIndexed(t, Skip(t, p, b), where);
  }

  /** Clearing one bucket and linking into others commute. */
  lemma ClearCommutes(t: Table, b: nat, q: nat, e: nat, d: nat, frag: nat, entry: Entry)
    requires Shape(t) && b < |t.md| && e < |t.md| && q < |t.md| && q != e && b != q && b != e
    ensures Clear(LinkAfter(t, q, e, d, frag, entry), b) == LinkAfter(Clear(t, b), q, e, d, frag, entry)
  {
  }

  /** When `Evicted(t, p, b, e, d, q)` relocates an entry along its own chain. */
  ghost predicate CanEvict(t: Table, hash: Key -> Hash64, dist: seq<nat>,
                           p: nat, b: nat, e: nat, d: nat, q: nat)
  {
    && Follows(t, hash, dist, p, b)
    && e < |t.md| && !Occ(t, e) && e == Slot(|t.md|, Home(t, hash, b), d)
    && q != b && Occ(t, q) && Home(t, hash, q) == Home(t, hash, b)
    && dist[q] < d < Unlink(t, p, b).md[q].disp && d < |t.md|
  }

  /** Eviction empties the bucket and keeps the strong invariant ... */
  lemma EvictionKeepsStrong(t: Table, hash: Key -> Hash64, dist: seq<nat>,
                            p: nat, b: nat, e: nat, d: nat, q: nat)
    requires CanEvict(t, hash, dist, p, b, e, d, q)
    ensures Strong(Evicted(t, p, b, e, d, q), hash, dist[e := d])
  {
    var t1 := Unlink(t, p, b);
    UnlinkKeepsStrong(t, hash, dist, p, b);
    assert t1.kv == t.kv && t1.md[e] == EMPTY && Occ(t1, q);
    assert t.md[b].frag == Frag(hash(t.kv[b].key)) by {
      assert BucketOk(t, hash, dist, b);
    }
    LinkKeepsStrong(t1, hash, dist, q, e, d, t.kv[b]);
  }

  lemma OccAfterEviction(t: Table, p: nat, b: nat, e: nat, d: nat, q: nat)
    requires Shape(t) && Occ(t, p) && Occ(t, b) && Occ(t, q) && e < |t.md| && !Occ(t, e)
    requires q != b && 0 < t.md[b].disp && 0 < d < Unlink(t, p, b).md[q].disp
    ensures forall c :: Occ(Evicted(t, p, b, e, d, q), c) <==> c == e || (c != b && Occ(t, c))
  {
  }

  /** ... and the contents. */
  lemma EvictionKeepsContents(t: Table, hash: Key -> Hash64, dist: seq<nat>, where: map<Key, nat>,
                              p: nat, b: nat, e: nat, d: nat, q: nat)
    requires CanEvict(t, hash, dist, p, b, e, d, q) && Indexed(t, where)
    ensures Indexed(Evicted(t, p, b, e, d, q), where[t.kv[b].key := e])
    ensures Contents(Evicted(t, p, b, e, d, q), where[t.kv[b].key := e]) == Contents(t, where)
  {
    var t' := Evicted(t, p, b, e, d, q);
    assert 0 < t.md[b].disp by {
      assert BucketOk(t, hash, dist, b);
    }
    OccAfterEviction(t, p, b, e, d, q);
    MoveIndexed(t, t', where, b, e);
  }

  /** The home bucket of a stored key is flagged. */
  lemma StoredKeyFlagsHome(t: Table, hash: Key -> Hash64, dist: seq<nat>, where: map<Key, nat>, k: Key)
    requires Strong(t, hash, dist) && Indexed(t, where)
    ensures k in where ==> t.md[HomeOf(hash, |t.md|, k)].inHome
  {
    assert k in where ==> BucketOk(t, hash, dist, where[k]);
  }

  /** The chain of `b` does not hold key `k` before `b`. */
  ghost predicate Missed(t: Table, hash: Key -> Hash64, dist: seq<nat>, k: Key, b: nat)
    requires Strong(t, hash, dist)
  {
    && Occ(t, b) && Home(t, hash, b) == HomeOf(hash, |t.md|, k)
    && forall c :: Occ(t, c) && Home(t, hash, c) == Home(t, hash, b) && dist[c] < dist[b] ==> t.kv[c].key != k
  }

  /** A chain search that passes `b` moves on to the next entry, or has shown that the key
      is absent. */
  lemma SearchStep(t: Table, hash: Key -> Hash64, dist: seq<nat>, where: map<Key, nat>, k: Key, b: nat)
    requires Strong(t, hash, dist) && Indexed(t, where) && Missed(t, hash, dist, k, b) && t.kv[b].key != k
    ensures t.md[b].disp <= LIMIT
    ensures t.md[b].disp == LIMIT ==> k !in where
    ensures t.md[b].disp < LIMIT ==>
              var s := Slot(|t.md|, Home(t, hash, b), t.md[b].disp);
              Missed(t, hash, dist, k, s) && dist[b] < dist[s] < LIMIT
  {
    assert BucketOk(t, hash, dist, b);
    if k in where {
      NothingSkipped(t, hash, dist, b, where[k]);
    }
    if t.md[b].disp < LIMIT {
      var s := Slot(|t.md|, Home(t, hash, b), t.md[b].disp);
      forall c | Occ(t, c) && Home(t, hash, c) == Home(t, hash, s) && dist[c] < dist[s] ensures t.kv[c].key != k {
        NothingSkipped(t, hash, dist, b, c);
      }
    }
  }

  /** Fragment and key identify the bucket of a stored key. */
  lemma SearchHit(t: Table, hash: Key -> Hash64, dist: seq<nat>, where: map<Key, nat>, k: Key, b: nat)
    requires Strong(t, hash, dist) && Indexed(t, where) && Occ(t, b)
    ensures t.md[b].frag == Frag(hash(k)) && t.kv[b].key == k <==> k in where && where[k] == b
    ensures dist[b] < LIMIT
  {
    assert BucketOk(t, hash, dist, b);
  }

  /** A new entry placed in its empty home bucket. */
  lemma PlacementKeeps(t: Table, hash: Key -> Hash64, dist: seq<nat>, where: map<Key, nat>, entry: Entry)
    requires Strong(t, hash, dist) && Indexed(t, where) && entry.key !in where
    requires t.md[HomeOf(hash, |t.md|, entry.key)] == EMPTY
    ensures var h := HomeOf(hash, |t.md|, entry.key);
            var t' := PlaceHome(t, h, Frag(hash(entry.key)), entry);
            && Strong(t', hash, dist[h := 0]) && Indexed(t', where[entry.key := h])
            && Contents(t', where[entry.key := h]) == Contents(t, where)[entry.key := entry.val]
  {
    var h := HomeOf(hash, |t.md|, entry.key);
    PlaceHomeKeepsStrong(t, hash, dist, entry);
    PutIndexed(t, PlaceHome(t, h, Frag(hash(entry.key)), entry), where, h, entry);
  }

  /** A new entry linked into the chain of its home bucket. */
  lemma LinkingKeeps(t: Table, hash: Key -> Hash64, dist: seq<nat>, where: map<Key, nat>,
                     prev: nat, e: nat, d: nat, entry: Entry)
    requires CanLink(t, hash, dist, prev, e, d, entry) && Indexed(t, where) && entry.key !in where
    ensures var t' := LinkAfter(t, prev, e, d, Frag(hash(entry.key)), entry);
            && Strong(t', hash, dist[e := d]) && Indexed(t', where[entry.key := e])
            && Contents(t', where[entry.key := e]) == Contents(t, where)[entry.key := entry.val]
  {
    var t' := LinkAfter(t, prev, e, d, Frag(hash(entry.key)), entry);
    LinkKeepsStrong(t, hash, dist, prev, e, d, entry);
    assert forall b :: Occ(t', b) <==> b == e || Occ(t, b);
    PutIndexed(t, t', where, e, entry);
  }

  /** A replaced value. */
  lemma ReplacementKeeps(t: Table, hash: Key -> Hash64, dist: seq<nat>, where: map<Key, nat>, b: nat, entry: Entry)
    requires Strong(t, hash, dist) && Indexed(t, where) && Occ(t, b) && t.kv[b].key == entry.key
    ensures var t' := t.(kv := t.kv[b := entry]);
            && Strong(t', hash, dist) && Indexed(t', where)
            && Contents(t', where) == Contents(t, where)[entry.key := entry.val]
  {
    assert BucketOk(t, hash, dist, b);
    assert ReplacePayload(t, b, Frag(hash(entry.key)), entry) == t.(kv := t.kv[b := entry]);
    ReplaceKeepsStrong(t, hash, dist, b, entry);
    UpdateIndexed(t, t.(kv := t.kv[b := entry]), where, b, entry);
  }

  /** `t'` is `t` without the entry that `b` held; `moved` is the bucket that became empty,
      and unless it is `b` its entry now lives in `b`. */
  ghost predicate Erasure(t: Table, where: map<Key, nat>, t': Table, where': map<Key, nat>,
                          hash: Key -> Hash64, dist: seq<nat>, b: nat, moved: nat)
    requires Indexed(t, where) && Occ(t, b)
  {
    && Strong(t', hash, dist) && Indexed(t', where') && |t'.md| == |t.md| && Occ(t, moved)
    && where'.Keys == where.Keys - {t.kv[b].key}
    && Contents(t', where') == Contents(t, where) - {t.kv[b].key}
    && t'.kv == t.kv[b := t.kv[moved]]
    && forall c :: Occ(t', c) <==> c != moved && Occ(t, c)
  }

  lemma ErasureSize(t: Table, where: map<Key, nat>, where': map<Key, nat>, b: nat)
    requires Indexed(t, where) && Occ(t, b) && where'.Keys == where.Keys - {t.kv[b].key}
    ensures |where'| == |where| - 1
  {
    assert |where'| == |where'.Keys| && |where| == |where.Keys|;
  }

  /** Erasure of the only entry of a chain. */
  lemma ClearingErases(t: Table, hash: Key -> Hash64, dist: seq<nat>, where: map<Key, nat>, b: nat)
    requires Strong(t, hash, dist) && Indexed(t, where)
    requires b < |t.md| && t.md[b].inHome && t.md[b].disp == LIMIT
    ensures Occ(t, b) && Erasure(t, where, Clear(t, b), where - {t.kv[b].key}, hash, dist, b, b)
  {
    HeadIsHome(t, hash, dist, b);
    ClearKeepsStrong(t, hash, dist, b);
    DropIndexed(t, Clear(t, b), where, b);
  }

  /** Erasure of an entry that follows another on its chain. */
  lemma UnlinkingErases(t: Table, hash: Key -> Hash64, dist: seq<nat>, where: map<Key, nat>, p: nat, b: nat)
    requires Follows(t, hash, dist, p, b) && Indexed(t, where)
    ensures Erasure(t, where, Unlink(t, p, b), where - {t.kv[b].key}, hash, dist, b, b)
  {
    UnlinkKeepsStrong(t, hash, dist, p, b);
    assert BucketOk(t, hash, dist, p) && BucketOk(t, hash, dist, b);
    DropIndexed(t, Unlink(t, p, b), where, b);
  }

  /** The table after the last entry `l` of a chain, which followed `p`, has overwritten
      the entry in `b`. */
  function SwappedOut(t: Table, b: nat, p: nat, l: nat): Table
    requires Shape(t) && b < |t.md| && p < |t.md| && l < |t.md|
  {
    Unlink(ReplacePayload(t, b, t.md[l].frag, t.kv[l]), p, l)
  }

  /** Erasure of an entry that is not the last of its chain. */
  lemma SwappingErases(t: Table, hash: Key -> Hash64, dist: seq<nat>, where: map<Key, nat>, b: nat, p: nat, l: nat)
    requires Follows(t, hash, dist, p, l) && Indexed(t, where) && Occ(t, b) && b != l
    requires Home(t, hash, b) == Home(t, hash, l)
    ensures Erasure(t, where, SwappedOut(t, b, p, l), (where - {t.kv[b].key})[t.kv[l].key := b], hash, dist, b, l)
  {
    assert BucketOk(t, hash, dist, b) && BucketOk(t, hash, dist, l) && BucketOk(t, hash, dist, p);
    OccAfterSwap(t, b, p, l);
    ReplaceKeepsStrong(t, hash, dist, b, t.kv[l]);
    UnlinkKeepsStrong(ReplacePayload(t, b, t.md[l].frag, t.kv[l]), hash, dist, p, l);
    SwapOutIndexed(t, SwappedOut(t, b, p, l), where, b, l);
  }

  lemma OccAfterSwap(t: Table, b: nat, p: nat, l: nat)
    requires Shape(t) && Occ(t, b) && Occ(t, p) && Occ(t, l) && b != l
    requires 0 < t.md[b].disp && 0 < t.md[l].disp
    ensures forall c :: Occ(ReplacePayload(t, b, t.md[l].frag, t.kv[l]), c) <==> Occ(t, c)
    ensures forall c :: Occ(SwappedOut(t, b, p, l), c) <==> c != l && Occ(t, c)
  {
  }

  /** The part of the contents held by the first `i` buckets. */
  ghost function Prefix(t: Table, where: map<Key, nat>, i: nat): map<Key, Value>
    requires Indexed(t, where)
  {
    map k | k in where && where[k] < i :: t.kv[where[k]].val
  }

  lemma PrefixStep(t: Table, where: map<Key, nat>, i: nat)
    requires Indexed(t, where) && i < |t.md|
    ensures !Occ(t, i) ==> Prefix(t, where, i + 1) == Prefix(t, where, i)
    ensures Occ(t, i) ==> t.kv[i].key !in Prefix(t, where, i)
    ensures Occ(t, i) ==> Prefix(t, where, i + 1) == Prefix(t, where, i)[t.kv[i].key := t.kv[i].val]
  {
  }

  lemma PrefixSmaller(t: Table, where: map<Key, nat>, i: nat)
    requires Indexed(t, where) && Occ(t, i)
    ensures |Prefix(t, where, i)| < |where|
  {
    var keys := Prefix(t, where, i).Keys;
    SubsetSize(keys, where.Keys - {t.kv[i].key});
    assert |where.Keys| == |where| && |keys| == |Prefix(t, where, i)|;
  }

  lemma PrefixWhole(t: Table, where: map<Key, nat>)
    requires Indexed(t, where)
    ensures Prefix(t, where, 0) == map[] && Prefix(t, where, |t.md|) == Contents(t, where)
  {
  }
}
