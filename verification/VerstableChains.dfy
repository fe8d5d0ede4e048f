/** Verstable as a value: metadata, buckets, and the chain structure threaded through
    the metadata. Every mutation of the table is one of the five functions `LinkAfter`,
    `Unlink`, `Clear`, `PlaceHome` and `ReplacePayload`, and each keeps the strong
    invariant. */
module VerstableChains {
  import opened Entries
  import opened Triangular
  import Words

  /** The displacement mask, which doubles as the displacement limit and as the
      end-of-chain mark. */
  const LIMIT: nat := 0x7FF

  /** One 16-bit metadatum: hash fragment, in-home flag, displacement of the next
      entry of the chain. */
  datatype Meta = Meta(frag: nat, inHome: bool, disp: nat)

  const EMPTY := Meta(0, false, 0)

  datatype Table = Table(md: seq<Meta>, kv: seq<Entry>)

  /** The top four bits of a hash code. */
  function Frag(h: Hash64): nat
  {
    h / 0x1000_0000_0000_0000
  }

  function HomeOf(hash: Key -> Hash64, n: nat, k: Key): nat
    requires n > 0
  {
    hash(k) % n
  }

  /** The fragment is what stands above the low sixty bits. */
  lemma FragIsTop(h: Hash64)
    ensures Frag(h) < 16 && Frag(h) * 0x1000_0000_0000_0000 <= h < (Frag(h) + 1) * 0x1000_0000_0000_0000
  {
  }

  /** With a power of two of buckets, the home is the hash code masked by the bucket count
      less one. */
  lemma HomeIsMasked(hash: Key -> Hash64, n: nat, k: Key)
    requires IsPow2(n)
    ensures HomeOf(hash, n, k) == Words.And(hash(k), n - 1)
  {
    Words.MaskIsRemainder(hash(k), n);
  }

  ghost predicate Shape(t: Table)
  {
    |t.md| == |t.kv| > 0
  }

  ghost predicate Occ(t: Table, b: int)
  {
    0 <= b < |t.md| && t.md[b] != EMPTY
  }

  ghost function Home(t: Table, hash: Key -> Hash64, b: nat): nat
    requires Shape(t) && b < |t.kv|
  {
    HomeOf(hash, |t.md|, t.kv[b].key)
  }

  /** What holds of one occupied bucket `b` at displacement `dist[b]` from its home:
      its fragment is right, only the entry at displacement 0 is flagged, the chain is
      headed by a flagged entry, displacements increase and stay below the bucket count, and a displacement below the
      limit leads to another entry of the same chain. */
  ghost predicate BucketOk(t: Table, hash: Key -> Hash64, dist: seq<nat>, b: nat)
    requires Shape(t) && |dist| == |t.md| && b < |t.md|
  {
    var h := Home(t, hash, b);
    && t.md[b].frag == Frag(hash(t.kv[b].key))
    && dist[b] < t.md[b].disp <= LIMIT && dist[b] < |t.md|
    && b == Slot(|t.md|, h, dist[b])
    && (t.md[b].inHome <==> dist[b] == 0)
    && t.md[h].inHome
    && (t.md[b].disp < LIMIT ==>
          var s := Slot(|t.md|, h, t.md[b].disp);
          Occ(t, s) && Home(t, hash, s) == h && dist[s] == t.md[b].disp)
  }

  /** No entry of a chain lies strictly between an entry and its successor. */
  ghost predicate Consecutive(t: Table, hash: Key -> Hash64, dist: seq<nat>)
    requires Shape(t) && |dist| == |t.md|
  {
    forall b, c :: Occ(t, b) && Occ(t, c) && Home(t, hash, b) == Home(t, hash, c) && dist[b] < dist[c]
      ==> t.md[b].disp <= dist[c]
  }

  /** The strong invariant: the well-formed, sorted chains partition the occupied buckets. */
  ghost predicate Strong(t: Table, hash: Key -> Hash64, dist: seq<nat>)
  {
    && Shape(t)
    && |dist| == |t.md|
    && (forall b {:trigger BucketOk(t, hash, dist, b)} :: Occ(t, b) ==> BucketOk(t, hash, dist, b))
    && Consecutive(t, hash, dist)
  }

  function LinkAfter(t: Table, prev: nat, e: nat, d: nat, frag: nat, entry: Entry): Table
    requires prev < |t.md| && e < |t.md| && e < |t.kv| && prev != e
  {
    Table(t.md[e := Meta(frag, false, t.md[prev].disp)][prev := t.md[prev].(disp := d)],
          t.kv[e := entry])
  }

  /** The chain runs from the entry in `p` to whatever followed the entry in `b`. */
  function Skip(t: Table, p: nat, b: nat): Table
    requires p < |t.md| && b < |t.md|
  {
    t.(md := t.md[p := t.md[p].(disp := t.md[b].disp)])
  }

  function Unlink(t: Table, p: nat, b: nat): Table
    requires p < |t.md| && b < |t.md|
  {
    Clear(Skip(t, p, b), b)
  }

  function Clear(t: Table, b: nat): Table
    requires b < |t.md|
  {
    t.(md := t.md[b := EMPTY])
  }

  function PlaceHome(t: Table, h: nat, frag: nat, entry: Entry): Table
    requires h < |t.md| && h < |t.kv|
  {
    Table(t.md[h := Meta(frag, true, LIMIT)], t.kv[h := entry])
  }

  function ReplacePayload(t: Table, b: nat, frag: nat, entry: Entry): Table
    requires b < |t.md| && b < |t.kv|
  {
    Table(t.md[b := t.md[b].(frag := frag)], t.kv[b := entry])
  }

  /** A flagged bucket is the home of its own entry. */
  lemma HeadIsHome(t: Table, hash: Key -> Hash64, dist: seq<nat>, h: nat)
    requires Strong(t, hash, dist) && h < |t.md| && t.md[h].inHome
    ensures Occ(t, h) && Home(t, hash, h) == h && dist[h] == 0
  {
    assert BucketOk(t, hash, dist, h);
    SlotZero(|t.md|, Home(t, hash, h));
  }

  /** One step along a chain. */
  lemma ChainStep(t: Table, hash: Key -> Hash64, dist: seq<nat>, b: nat)
    requires Strong(t, hash, dist) && Occ(t, b) && t.md[b].disp < LIMIT
    ensures var s := Slot(|t.md|, Home(t, hash, b), t.md[b].disp);
            Occ(t, s) && Home(t, hash, s) == Home(t, hash, b) && dist[b] < dist[s] == t.md[b].disp
  {
    assert BucketOk(t, hash, dist, b);
  }

  /** A chain step taken below the displacement of an empty bucket stays below it. */
  lemma InsertStep(t: Table, hash: Key -> Hash64, dist: seq<nat>, b: nat, d: nat)
    requires Strong(t, hash, dist) && Occ(t, b) && t.md[b].disp <= d < LIMIT
    requires !Occ(t, Slot(|t.md|, Home(t, hash, b), d))
    ensures dist[b] < t.md[b].disp < d
  {
    assert BucketOk(t, hash, dist, b);
  }

  /** A chain step never jumps over an entry of the chain. */
  lemma NothingSkipped(t: Table, hash: Key -> Hash64, dist: seq<nat>, b: nat, c: nat)
    requires Strong(t, hash, dist) && Occ(t, b) && Occ(t, c)
    requires Home(t, hash, b) == Home(t, hash, c)
    ensures dist[b] < dist[c] ==> t.md[b].disp <= dist[c]
    ensures dist[b] == dist[c] ==> b == c
    ensures dist[c] < t.md[c].disp <= LIMIT
  {
    assert BucketOk(t, hash, dist, b) && BucketOk(t, hash, dist, c);
  }

  /** When a new entry may be linked into bucket `e` after the entry in `prev`. */
  ghost predicate CanLink(t: Table, hash: Key -> Hash64, dist: seq<nat>, prev: nat, e: nat, d: nat, entry: Entry)
  {
    && Strong(t, hash, dist) && Occ(t, prev)
    && e < |t.md| && t.md[e] == EMPTY
    && HomeOf(hash, |t.md|, entry.key) == Home(t, hash, prev)
    && e == Slot(|t.md|, Home(t, hash, prev), d)
    && dist[prev] < d < t.md[prev].disp && d < |t.md|
  }

  lemma LinkBucketOk(t: Table, hash: Key -> Hash64, dist: seq<nat>,
                     prev: nat, e: nat, d: nat, entry: Entry, b: nat)
    requires CanLink(t, hash, dist, prev, e, d, entry)
    requires b == e || Occ(t, b)
    ensures BucketOk(LinkAfter(t, prev, e, d, Frag(hash(entry.key)), entry), hash, dist[e := d], b)
  {
    var t' := LinkAfter(t, prev, e, d, Frag(hash(entry.key)), entry);
    var source := if b == e then prev else b;
    assert BucketOk(t, hash, dist, source);
    var h := Home(t, hash, source);
    assert Occ(t, h) && h != e;
    assert Home(t', hash, b) == h;
    assert t'.md[h].inHome;
    if b != prev && t.md[source].disp < LIMIT {
      var s := Slot(|t.md|, h, t.md[source].disp);
      assert Occ(t, s) && s != e;
    }
  }

  lemma LinkConsecutive(t: Table, hash: Key -> Hash64, dist: seq<nat>,
                        prev: nat, e: nat, d: nat, entry: Entry, b: nat, c: nat)
    requires CanLink(t, hash, dist, prev, e, d, entry)
    requires b == e || Occ(t, b)
    requires c == e || Occ(t, c)
    requires var t' := LinkAfter(t, prev, e, d, Frag(hash(entry.key)), entry);
             Home(t', hash, b) == Home(t', hash, c)
    requires dist[e := d][b] < dist[e := d][c]
    ensures LinkAfter(t, prev, e, d, Frag(hash(entry.key)), entry).md[b].disp <= dist[e := d][c]
  {
    var h := Home(t, hash, prev);
    if b == e {
      assert Home(t, hash, c) == h;
    } else if c == e {
      assert Home(t, hash, b) == h;
      assert BucketOk(t, hash, dist, b) && BucketOk(t, hash, dist, prev);
      assert b == prev || dist[b] < dist[prev];
    } else {
      assert Home(t, hash, b) == Home(t, hash, c);
    }
  }

  lemma LinkKeepsStrong(t: Table, hash: Key -> Hash64, dist: seq<nat>,
                        prev: nat, e: nat, d: nat, entry: Entry)
    requires CanLink(t, hash, dist, prev, e, d, entry)
    ensures Strong(LinkAfter(t, prev, e, d, Frag(hash(entry.key)), entry), hash, dist[e := d])
  {
    var t' := LinkAfter(t, prev, e, d, Frag(hash(entry.key)), entry);
    forall b | Occ(t', b) ensures BucketOk(t', hash, dist[e := d], b) {
      LinkBucketOk(t, hash, dist, prev, e, d, entry, b);
    }
    forall b, c | Occ(t', b) && Occ(t', c) && Home(t', hash, b) == Home(t', hash, c) && dist[e := d][b] < dist[e := d][c]
      ensures t'.md[b].disp <= dist[e := d][c]
    {
      LinkConsecutive(t, hash, dist, prev, e, d, entry, b, c);
    }
  }

  /** When the entry in `b` directly follows the entry in `p` on its chain. */
  ghost predicate Follows(t: Table, hash: Key -> Hash64, dist: seq<nat>, p: nat, b: nat)
  {
    && Strong(t, hash, dist) && Occ(t, p) && Occ(t, b)
    && Home(t, hash, p) == Home(t, hash, b) && t.md[p].disp == dist[b]
  }

  lemma UniquePredecessor(t: Table, hash: Key -> Hash64, dist: seq<nat>, p: nat, b: nat, c: nat)
    requires Follows(t, hash, dist, p, b) && Follows(t, hash, dist, c, b)
    ensures c == p
  {
    assert BucketOk(t, hash, dist, p) && BucketOk(t, hash, dist, c);
    assert dist[p] == dist[c];
  }

  lemma UnlinkBucketOk(t: Table, hash: Key -> Hash64, dist: seq<nat>, p: nat, b: nat, c: nat)
    requires Follows(t, hash, dist, p, b) && Occ(t, c) && c != b
    ensures BucketOk(Unlink(t, p, b), hash, dist, c)
  {
    var t' := Unlink(t, p, b);
    assert BucketOk(t, hash, dist, c) && BucketOk(t, hash, dist, p) && BucketOk(t, hash, dist, b);
    var h := Home(t, hash, c);
    assert h != b && t'.md[h].inHome;
    var source := if c == p then b else c;
    if t.md[source].disp < LIMIT {
      var s := Slot(|t.md|, h, t.md[source].disp);
      assert Occ(t, s);
      if s == b {
        UniquePredecessor(t, hash, dist, p, b, c);
      }
      assert Occ(t', s);
    }
  }

  lemma UnlinkKeepsStrong(t: Table, hash: Key -> Hash64, dist: seq<nat>, p: nat, b: nat)
    requires Follows(t, hash, dist, p, b)
    ensures Strong(Unlink(t, p, b), hash, dist)
  {
    var t' := Unlink(t, p, b);
    assert BucketOk(t, hash, dist, p) && BucketOk(t, hash, dist, b);
    forall c | Occ(t', c) ensures BucketOk(t', hash, dist, c) {
      UnlinkBucketOk(t, hash, dist, p, b, c);
    }
    forall c, e | Occ(t', c) && Occ(t', e) && Home(t', hash, c) == Home(t', hash, e) && dist[c] < dist[e]
      ensures t'.md[c].disp <= dist[e]
    {
      assert Occ(t, c) && Occ(t, e) && BucketOk(t, hash, dist, e);
      assert t.md[c].disp <= dist[e];
      if c == p {
        assert e != b && dist[e] != dist[b];
        assert t.md[b].disp <= dist[e];
      }
    }
  }

  lemma ClearKeepsStrong(t: Table, hash: Key -> Hash64, dist: seq<nat>, b: nat)
    requires Strong(t, hash, dist) && b < |t.md| && t.md[b].inHome && t.md[b].disp == LIMIT
    ensures Strong(Clear(t, b), hash, dist)
  {
    var t' := Clear(t, b);
    HeadIsHome(t, hash, dist, b);
    assert forall c :: Occ(t', c) <==> c != b && Occ(t, c);
    forall c | Occ(t', c) ensures BucketOk(t', hash, dist, c) {
      assert BucketOk(t, hash, dist, c);
      NothingSkipped(t, hash, dist, b, if Home(t, hash, c) == b then c else b);
      assert Home(t, hash, c) != b;
      if t.md[c].disp < LIMIT {
        assert Occ(t', Slot(|t.md|, Home(t, hash, c), t.md[c].disp));
      }
    }
  }

  lemma PlaceHomeKeepsStrong(t: Table, hash: Key -> Hash64, dist: seq<nat>, entry: Entry)
    requires Strong(t, hash, dist) && t.md[HomeOf(hash, |t.md|, entry.key)] == EMPTY
    ensures var h := HomeOf(hash, |t.md|, entry.key);
            Strong(PlaceHome(t, h, Frag(hash(entry.key)), entry), hash, dist[h := 0])
  {
    var h := HomeOf(hash, |t.md|, entry.key);
    var t' := PlaceHome(t, h, Frag(hash(entry.key)), entry);
    SlotZero(|t.md|, h);
    assert forall c :: Occ(t', c) <==> c == h || Occ(t, c);
    forall c | Occ(t, c) ensures Home(t, hash, c) != h && BucketOk(t', hash, dist[h := 0], c) {
      assert BucketOk(t, hash, dist, c);
    }
    assert BucketOk(t', hash, dist[h := 0], h);
  }

  lemma ReplaceKeepsStrong(t: Table, hash: Key -> Hash64, dist: seq<nat>, b: nat, entry: Entry)
    requires Strong(t, hash, dist) && Occ(t, b)
    requires HomeOf(hash, |t.md|, entry.key) == Home(t, hash, b)
    ensures Strong(ReplacePayload(t, b, Frag(hash(entry.key)), entry), hash, dist)
  {
    var t' := ReplacePayload(t, b, Frag(hash(entry.key)), entry);
    assert BucketOk(t, hash, dist, b);
    assert forall c :: Occ(t', c) <==> Occ(t, c);
    assert forall c :: Occ(t, c) ==> Home(t', hash, c) == Home(t, hash, c);
    forall c | Occ(t', c) ensures BucketOk(t', hash, dist, c) {
      assert BucketOk(t, hash, dist, c);
    }
  }

  /** An entry outside its home sits on a chain that starts elsewhere. */
  lemma EvictHome(t: Table, hash: Key -> Hash64, dist: seq<nat>, b: nat)
    requires Strong(t, hash, dist) && Occ(t, b) && !t.md[b].inHome
    ensures var h := Home(t, hash, b);
            h != b && Occ(t, h) && Home(t, hash, h) == h && t.md[h].inHome && dist[h] == 0 < dist[b]
    ensures 0 < t.md[b].disp
  {
    assert BucketOk(t, hash, dist, b);
    HeadIsHome(t, hash, dist, Home(t, hash, b));
  }

  lemma HeadOrTail(t: Table, hash: Key -> Hash64, dist: seq<nat>, b: nat)
    requires Strong(t, hash, dist) && Occ(t, b)
    ensures t.md[b].inHome ==> Home(t, hash, b) == b
    ensures t.md[b].disp <= LIMIT
  {
    assert BucketOk(t, hash, dist, b);
    SlotZero(|t.md|, Home(t, hash, b));
  }

  /** The buckets met by following the chain from `b` to its end. */
  ghost function ChainFrom(t: Table, hash: Key -> Hash64, dist: seq<nat>, b: nat): (chain: seq<nat>)
    requires Strong(t, hash, dist) && Occ(t, b)
    ensures forall c :: c in chain ==> Occ(t, c)
    decreases LIMIT - dist[b]
  {
    assert BucketOk(t, hash, dist, b);
    if t.md[b].disp == LIMIT then [b]
    else
      ChainStep(t, hash, dist, b);
      var s := Slot(|t.md|, Home(t, hash, b), t.md[b].disp);
      assert BucketOk(t, hash, dist, s);
      [b] + ChainFrom(t, hash, dist, s)
  }

  /** An entry of the chain at or after `b` is `b` or at or after its successor. */
  lemma SuccessorSplits(t: Table, hash: Key -> Hash64, dist: seq<nat>, b: nat, c: nat)
    requires Strong(t, hash, dist) && Occ(t, b) && Occ(t, c) && Home(t, hash, c) == Home(t, hash, b)
    ensures t.md[b].disp == LIMIT ==> (dist[b] <= dist[c] <==> c == b)
    ensures t.md[b].disp < LIMIT ==> (dist[b] <= dist[c] <==> c == b || t.md[b].disp <= dist[c])
  {
    NothingSkipped(t, hash, dist, b, b);
    NothingSkipped(t, hash, dist, b, c);
  }

  /** The chain from `b` holds exactly the entries of its home at no smaller displacement ... */
  lemma {:induction false} ChainFromExact(t: Table, hash: Key -> Hash64, dist: seq<nat>, b: nat)
    requires Strong(t, hash, dist) && Occ(t, b)
    ensures forall c :: c in ChainFrom(t, hash, dist, b) <==>
                        Occ(t, c) && Home(t, hash, c) == Home(t, hash, b) && dist[b] <= dist[c]
    decreases LIMIT - dist[b]
  {
    forall c | Occ(t, c) && Home(t, hash, c) == Home(t, hash, b)
      ensures t.md[b].disp == LIMIT ==> (dist[b] <= dist[c] <==> c == b)
      ensures t.md[b].disp < LIMIT ==> (dist[b] <= dist[c] <==> c == b || t.md[b].disp <= dist[c])
    {
      SuccessorSplits(t, hash, dist, b, c);
    }
    NothingSkipped(t, hash, dist, b, b);
    if t.md[b].disp < LIMIT {
      ChainStep(t, hash, dist, b);
      var s := Slot(|t.md|, Home(t, hash, b), t.md[b].disp);
      NothingSkipped(t, hash, dist, s, s);
      ChainFromExact(t, hash, dist, s);
    }
  }

  /** ... in strictly increasing order of displacement. */
  lemma {:induction false} ChainFromIncreases(t: Table, hash: Key -> Hash64, dist: seq<nat>, b: nat)
    requires Strong(t, hash, dist) && Occ(t, b)
    ensures forall i, j | 0 <= i < j < |ChainFrom(t, hash, dist, b)| ::
              Before(dist, ChainFrom(t, hash, dist, b)[i], ChainFrom(t, hash, dist, b)[j])
    decreases LIMIT - dist[b]
  {
    NothingSkipped(t, hash, dist, b, b);
    if t.md[b].disp < LIMIT {
      ChainStep(t, hash, dist, b);
      var s := Slot(|t.md|, Home(t, hash, b), t.md[b].disp);
      NothingSkipped(t, hash, dist, s, s);
      ChainFromExact(t, hash, dist, s);
      ChainFromIncreases(t, hash, dist, s);
      var rest := ChainFrom(t, hash, dist, s);
      assert forall j | 0 <= j < |rest| :: rest[j] in rest;
    }
  }

  ghost predicate Before(dist: seq<nat>, b: nat, c: nat)
  {
    b < |dist| && c < |dist| && dist[b] < dist[c]
  }

  /** The chains partition the occupied buckets: the chain of a flagged bucket `h` holds
      exactly the entries whose home is `h`, and every occupied bucket is on the chain of
      its own home, which is flagged. */
  lemma ChainsPartition(t: Table, hash: Key -> Hash64, dist: seq<nat>)
    requires Strong(t, hash, dist)
    ensures forall h | 0 <= h < |t.md| && t.md[h].inHome ::
              Occ(t, h) && forall c :: c in ChainFrom(t, hash, dist, h) <==> Occ(t, c) && Home(t, hash, c) == h
    ensures forall c | Occ(t, c) :: t.md[Home(t, hash, c)].inHome
  {
    forall h | 0 <= h < |t.md| && t.md[h].inHome
      ensures Occ(t, h) && forall c :: c in ChainFrom(t, hash, dist, h) <==> Occ(t, c) && Home(t, hash, c) == h
    {
      HeadIsHome(t, hash, dist, h);
      ChainFromExact(t, hash, dist, h);
    }
    forall c | Occ(t, c) ensures t.md[Home(t, hash, c)].inHome {
      assert BucketOk(t, hash, dist, c);
    }
  }

  lemma SkippedHasNoPlace(t: Table, hash: Key -> Hash64, dist: seq<nat>, p: nat, b: nat, dist': seq<nat>)
    requires Follows(t, hash, dist, p, b)
    ensures !Strong(Skip(t, p, b), hash, dist')
  {
    var t' := Skip(t, p, b);
    assert BucketOk(t, hash, dist, p) && BucketOk(t, hash, dist, b);
    assert Occ(t', p) && Occ(t', b) && Home(t', hash, p) == Home(t', hash, b);
    if Strong(t', hash, dist') {
      NothingSkipped(t', hash, dist', p, b);
      NothingSkipped(t', hash, dist', b, p);
    }
  }

  /** A skipped entry is off its chain: whatever displacements one assigns, the strong
      invariant fails until it is relinked or cleared. */
  lemma SkipBreaksChain(t: Table, hash: Key -> Hash64, dist: seq<nat>, p: nat, b: nat)
    requires Follows(t, hash, dist, p, b)
    ensures forall dist' :: !Strong(Skip(t, p, b), hash, dist')
  {
    var t' := Skip(t, p, b);
    forall dist' ensures !Strong(t', hash, dist') {
      SkippedHasNoPlace(t, hash, dist, p, b, dist');
    }
  }
}
