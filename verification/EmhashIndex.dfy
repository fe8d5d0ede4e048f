/** The index of emhash8 as a value: chains of buckets whose payload packs a position in the
    dense pair array together with the high bits of the hash code. */
module EmhashIndex {
  import opened Entries
  import opened EntryVectors
  import opened EmhashChains
  import opened FiniteSets
  import opened Modular
  import opened Triangular
  import Words

  /** The part of a hash code that the table uses. */
  type Hash32 = h: nat | h < 0x1_0000_0000

  // ----- packed payloads, for `n` buckets -----

  /** The main bucket of a hash code. */
  function Main(n: nat, h: nat): (b: nat)
    requires n > 0
    ensures b < n
  {
    h % n
  }

  /** With a power of two of buckets, the main bucket is the hash code masked by the bucket
      count less one. */
  lemma MainIsMasked(n: nat, h: nat)
    requires IsPow2(n)
    ensures Main(n, h) == Words.And(h, n - 1)
  {
    Words.MaskIsRemainder(h, n);
  }

  /** The slot in the low bits, the high bits of `h` above them. */
  function Pack(n: nat, slot: nat, h: nat): nat
    requires n > 0
  {
    n * (h / n) + slot
  }

  function SlotOf(n: nat, packed: nat): (slot: nat)
    requires n > 0
    ensures slot < n
  {
    packed % n
  }

  function FragOf(n: nat, packed: nat): nat
    requires n > 0
  {
    packed / n
  }

  lemma PackReads(n: nat, slot: nat, h: nat)
    requires slot < n
    ensures SlotOf(n, Pack(n, slot, h)) == slot && FragOf(n, Pack(n, slot, h)) == FragOf(n, h)
  {
    DivModUnique(n, h / n, slot);
  }

  /** Two words agree above the slot's bits exactly when their high parts are the same. */
  lemma FragTells(n: nat, a: nat, b: nat)
    requires n > 0
    ensures FragOf(n, a) == FragOf(n, b) <==> a - a % n == b - b % n
  {
    assert a == n * (a / n) + a % n && b == n * (b / n) + b % n;
    if a - a % n == b - b % n {
      DivModUnique(n, a / n, a % n);
      DivModUnique(n, a / n, b % n);
    }
  }

  // ----- the invariant -----

  ghost function SlotAt(c: Links, b: nat): (slot: nat)
    requires b < |c.ix|
    ensures slot < |c.ix|
  {
    SlotOf(|c.ix|, c.ix[b].packed)
  }

  /** The occupied bucket `b` refers to a pair, with the high bits of its hash code, and hangs
      on the chain of that pair's main bucket. */
  ghost predicate BucketOk(c: Links, ps: seq<Entry>, hash: Key -> Hash32, where: seq<nat>, gap: int, b: nat)
    requires Shape(c) && b < |c.ix| && |where| == |ps|
  {
    var s := SlotAt(c, b);
    && s < |ps| && s != gap && where[s] == b
    && FragOf(|c.ix|, c.ix[b].packed) == FragOf(|c.ix|, hash(ps[s].key))
    && c.home[b] == Main(|c.ix|, hash(ps[s].key))
  }

  ghost predicate SlotOk(c: Links, where: seq<nat>, s: nat)
    requires s < |where|
  {
    Occ(c, where[s]) && SlotAt(c, where[s]) == s
  }

  /** Well-formed chains, and a bijection between the occupied buckets and the slots of the
      pair array other than `gap`. */
  ghost predicate Indexed(c: Links, ps: seq<Entry>, hash: Key -> Hash32, where: seq<nat>, gap: int)
  {
    && Shape(c) && Chained(c) && |where| == |ps| <= |c.ix|
    && (forall b {:trigger BucketOk(c, ps, hash, where, gap, b)} :: Occ(c, b) ==> BucketOk(c, ps, hash, where, gap, b))
    && (forall s {:trigger SlotOk(c, where, s)} :: 0 <= s < |ps| && s != gap ==> SlotOk(c, where, s))
  }

  lemma IndexedFrom(c: Links, ps: seq<Entry>, hash: Key -> Hash32, where: seq<nat>, gap: int)
    requires Shape(c) && Chained(c) && |where| == |ps| <= |c.ix|
    requires forall b: nat | Occ(c, b) :: BucketOk(c, ps, hash, where, gap, b)
    requires forall s: nat | s < |ps| && s != gap :: SlotOk(c, where, s)
    ensures Indexed(c, ps, hash, where, gap)
  {
    hide Chained, BucketOk, SlotOk;
  }

  /** The bucket that refers to a slot hangs on the chain of the pair's main bucket. */
  lemma BucketOf(c: Links, ps: seq<Entry>, hash: Key -> Hash32, where: seq<nat>, gap: int, s: nat)
    requires Indexed(c, ps, hash, where, gap) && s < |ps| && s != gap
    ensures |where| == |ps| && Occ(c, where[s]) && SlotAt(c, where[s]) == s
    ensures c.home[where[s]] == Main(|c.ix|, hash(ps[s].key)) && Occ(c, c.home[where[s]])
  {
    hide SlotOf, FragOf, Main, Pair;
    assert SlotOk(c, where, s);
    assert BucketOk(c, ps, hash, where, gap, where[s]) && Node(c, where[s]);
  }

  /** An occupied bucket is the one recorded for its slot. */
  lemma BucketRecorded(c: Links, ps: seq<Entry>, hash: Key -> Hash32, where: seq<nat>, gap: int, b: nat)
    requires Indexed(c, ps, hash, where, gap) && Occ(c, b)
    ensures SlotAt(c, b) < |ps| && where[SlotAt(c, b)] == b
    ensures c.home[b] == Main(|c.ix|, hash(ps[SlotAt(c, b)].key))
  {
    hide SlotOf, FragOf, Main, Chained;
    assert BucketOk(c, ps, hash, where, gap, b);
  }

  // ----- insertion -----

  /** A pair whose main bucket is free starts a chain. */
  lemma NewHead(c: Links, ps: seq<Entry>, hash: Key -> Hash32, where: seq<nat>, entry: Entry, b: nat)
    requires Indexed(c, ps, hash, where, -1) && b < |c.ix| && !Occ(c, b) && |ps| < |c.ix|
    requires b == Main(|c.ix|, hash(entry.key))
    ensures Indexed(Headed(c, b, Pack(|c.ix|, |ps|, hash(entry.key))), ps + [entry], hash, where + [b], -1)
  {
    hide Chained, Pack, SlotOf, FragOf, Main;
    var c', ps', where' := Headed(c, b, Pack(|c.ix|, |ps|, hash(entry.key))), ps + [entry], where + [b];
    HeadedKeeps(c, b, Pack(|c.ix|, |ps|, hash(entry.key)));
    PackReads(|c.ix|, |ps|, hash(entry.key));
    forall x: nat | Occ(c', x) ensures BucketOk(c', ps', hash, where', -1, x) {
      assert x != b ==> BucketOk(c, ps, hash, where, -1, x);
    }
    forall s: nat | s < |ps'| ensures SlotOk(c', where', s) {
      assert s < |ps| ==> SlotOk(c, where, s);
    }
    IndexedFrom(c', ps', hash, where', -1);
  }

  /** A pair goes behind the end `t` of the chain of its main bucket. */
  lemma NewTail(c: Links, ps: seq<Entry>, hash: Key -> Hash32, where: seq<nat>, entry: Entry, t: nat, b: nat)
    requires Indexed(c, ps, hash, where, -1) && b < |c.ix| && !Occ(c, b) && |ps| < |c.ix|
    requires Occ(c, t) && c.ix[t].next == t && c.home[t] == Main(|c.ix|, hash(entry.key))
    ensures Indexed(Lengthened(c, t, b, Pack(|c.ix|, |ps|, hash(entry.key))), ps + [entry], hash, where + [b], -1)
  {
    hide Chained, Pack, SlotOf, FragOf, Main;
    var c', ps', where' := Lengthened(c, t, b, Pack(|c.ix|, |ps|, hash(entry.key))), ps + [entry], where + [b];
    LengthenedKeeps(c, t, b, Pack(|c.ix|, |ps|, hash(entry.key)));
    PackReads(|c.ix|, |ps|, hash(entry.key));
    forall x: nat | Occ(c', x) ensures BucketOk(c', ps', hash, where', -1, x) {
      assert x != b ==> BucketOk(c, ps, hash, where, -1, x);
    }
    forall s: nat | s < |ps'| ensures SlotOk(c', where', s) {
      assert s < |ps| ==> SlotOk(c, where, s);
    }
    IndexedFrom(c', ps', hash, where', -1);
  }

  /** The link of bucket `t` led to itself before it was set. */
  function Unset(c: Links, t: nat): Links
    requires t < |c.ix|
  {
    c.(ix := c.ix[t := c.ix[t].(next := t)])
  }

  /** The empty bucket `b` is about to receive a pair whose main bucket is `h`: either it is
      that main bucket, and starts a chain, or the end `tail` of the chain links to it. */
  ghost predicate Awaiting(c: Links, ps: seq<Entry>, hash: Key -> Hash32, where: seq<nat>, h: nat, b: nat, tail: int)
  {
    && b < |c.ix| && c.ix[b].next < 0
    && if tail == INACTIVE then b == h && Indexed(c, ps, hash, where, -1)
       else
         && 0 <= tail < |c.ix| && c.ix[tail].next == b && tail != b && Indexed(Unset(c, tail), ps, hash, where, -1)
         && c.home[tail] == h
  }

  lemma Arrived(c: Links, ps: seq<Entry>, hash: Key -> Hash32, where: seq<nat>, entry: Entry, b: nat, tail: int)
    requires |c.ix| > 0 && Awaiting(c, ps, hash, where, Main(|c.ix|, hash(entry.key)), b, tail) && |ps| < |c.ix|
    ensures |c.home| == |c.rank| == |c.ix| && (tail != INACTIVE ==> 0 <= tail < |c.ix|)
    ensures var rank := if tail == INACTIVE then 0 else c.rank[tail] + 1;
            Indexed(Links(c.ix[b := Index(b, Pack(|c.ix|, |ps|, hash(entry.key)))],
                          c.home[b := Main(|c.ix|, hash(entry.key))], c.rank[b := rank]),
                    ps + [entry], hash, where + [b], -1)
  {
    hide Chained, Pack, Main;
    if tail == INACTIVE {
      NewHead(c, ps, hash, where, entry, b);
    } else {
      var packed := Pack(|c.ix|, |ps|, hash(entry.key));
      NewTail(Unset(c, tail), ps, hash, where, entry, tail, b);
      assert Lengthened(Unset(c, tail), tail, b, packed).ix == c.ix[b := Index(b, packed)];
    }
  }

  /** Kicking the entry in bucket `b`, behind `p`, out to the empty bucket `e`. */
  lemma KickKeeps(c: Links, ps: seq<Entry>, hash: Key -> Hash32, where: seq<nat>, p: nat, b: nat, e: nat)
    requires Indexed(c, ps, hash, where, -1) && b < |c.ix| && Precedes(c, p, b) && e < |c.ix| && !Occ(c, e)
    ensures SlotAt(c, b) < |where|
    ensures Indexed(Kicked(c, p, b, e), ps, hash, where[SlotAt(c, b) := e], -1)
    ensures !Occ(Kicked(c, p, b, e), b)
  {
    hide Chained, SlotOf, FragOf, Main;
    PrecededOnChain(c, p, b);
    KickedKeeps(c, p, b, e);
    assert BucketOk(c, ps, hash, where, -1, b);
    var c', where' := Kicked(c, p, b, e), where[SlotAt(c, b) := e];
    forall x: nat | Occ(c', x) ensures BucketOk(c', ps, hash, where', -1, x) {
      assert x != e ==> BucketOk(c, ps, hash, where, -1, x);
    }
    forall s: nat | s < |ps| ensures SlotOk(c', where', s) {
      assert SlotOk(c, where, s);
    }
    IndexedFrom(c', ps, hash, where', -1);
  }

  // ----- erasure -----

  /** Unlinking bucket `b` from behind `p` leaves its pair unreferenced. */
  lemma DropKeeps(c: Links, ps: seq<Entry>, hash: Key -> Hash32, where: seq<nat>, p: nat, b: nat)
    requires Indexed(c, ps, hash, where, -1) && b < |c.ix| && Precedes(c, p, b)
    ensures Indexed(Dropped(c, p, b, c.ix[p].packed), ps, hash, where, SlotAt(c, b))
  {
    hide Chained, SlotOf, FragOf, Main;
    PrecededOnChain(c, p, b);
    DroppedKeeps(c, p, b, c.ix[p].packed);
    var c', gap := Dropped(c, p, b, c.ix[p].packed), SlotAt(c, b);
    assert BucketOk(c, ps, hash, where, -1, b);
    forall x: nat | Occ(c', x) ensures BucketOk(c', ps, hash, where, gap, x) {
      assert BucketOk(c, ps, hash, where, -1, x);
    }
    forall s: nat | s < |ps| && s != gap ensures SlotOk(c', where, s) {
      assert SlotOk(c, where, s);
    }
    IndexedFrom(c', ps, hash, where, gap);
  }

  /** Erasing at a main bucket `h`: the payload of its successor `b` is copied there. */
  lemma PullKeeps(c: Links, ps: seq<Entry>, hash: Key -> Hash32, where: seq<nat>, h: nat, b: nat)
    requires Indexed(c, ps, hash, where, -1) && b < |c.ix| && Precedes(c, h, b)
    ensures SlotAt(c, b) < |where| && where[SlotAt(c, b)] == b
    ensures Indexed(Dropped(c, h, b, c.ix[b].packed), ps, hash, where[SlotAt(c, b) := h], SlotAt(c, h))
  {
    hide Chained, SlotOf, FragOf, Main;
    PrecededOnChain(c, h, b);
    DroppedKeeps(c, h, b, c.ix[b].packed);
    assert BucketOk(c, ps, hash, where, -1, b) && BucketOk(c, ps, hash, where, -1, h);
    var c', gap, where' := Dropped(c, h, b, c.ix[b].packed), SlotAt(c, h), where[SlotAt(c, b) := h];
    forall x: nat | Occ(c', x) ensures BucketOk(c', ps, hash, where', gap, x) {
      assert BucketOk(c, ps, hash, where, -1, x);
    }
    forall s: nat | s < |ps| && s != gap ensures SlotOk(c', where', s) {
      assert SlotOk(c, where, s);
    }
    IndexedFrom(c', ps, hash, where', gap);
  }

  /** Erasing the only entry of a chain. */
  lemma EmptyKeeps(c: Links, ps: seq<Entry>, hash: Key -> Hash32, where: seq<nat>, h: nat)
    requires Indexed(c, ps, hash, where, -1) && Alone(c, h)
    ensures Indexed(Emptied(c, h), ps, hash, where, SlotAt(c, h))
  {
    hide Chained, SlotOf, FragOf, Main;
    EmptiedKeeps(c, h);
    var c', gap := Emptied(c, h), SlotAt(c, h);
    assert BucketOk(c, ps, hash, where, -1, h);
    forall x: nat | Occ(c', x) ensures BucketOk(c', ps, hash, where, gap, x) {
      assert BucketOk(c, ps, hash, where, -1, x);
    }
    forall s: nat | s < |ps| && s != gap ensures SlotOk(c', where, s) {
      assert SlotOk(c, where, s);
    }
    IndexedFrom(c', ps, hash, where, gap);
  }

  /** Bucket `b` marked as empty. */
  function Cleared(c: Links, b: nat): Links
    requires b < |c.ix|
  {
    c.(ix := c.ix[b := Index(INACTIVE, 0)])
  }

  /** Bucket `b` referring to slot `s` instead, its high bits kept. */
  function Repointed(c: Links, b: nat, s: nat): Links
    requires b < |c.ix|
  {
    c.(ix := c.ix[b := c.ix[b].(packed := Pack(|c.ix|, s, c.ix[b].packed))])
  }

  lemma RepointedNodes(c: Links, b: nat, s: nat, x: nat, y: nat)
    requires Chained(c) && b < |c.ix| && x < |c.ix| && y < |c.ix|
    ensures Node(Repointed(c, b, s), x) == Node(c, x) && Pair(Repointed(c, b, s), x, y) == Pair(c, x, y)
    ensures Occ(Repointed(c, b, s), x) == Occ(c, x)
  {
    hide Pack, Chained;
    var c' := Repointed(c, b, s);
    assert forall z: nat | z < |c.ix| :: c'.ix[z].next == c.ix[z].next;
  }

  lemma RepointedChained(c: Links, b: nat, s: nat)
    requires Chained(c) && b < |c.ix|
    ensures Chained(Repointed(c, b, s))
  {
    hide Node, Pair, Pack;
    var c' := Repointed(c, b, s);
    forall x: nat | Occ(c', x) ensures Node(c', x) {
      RepointedNodes(c, b, s, x, x);
      assert Node(c, x);
    }
    forall x: nat, y: nat | Occ(c', x) && Occ(c', y) && c'.home[x] == c'.home[y] ensures Pair(c', x, y) {
      RepointedNodes(c, b, s, x, y);
      RepointedNodes(c, b, s, y, x);
      assert Pair(c, x, y);
    }
    ChainedFrom(c');
  }

  /** The last pair moves into the gap, and its bucket is re-pointed. */
  lemma GapFilled(c: Links, ps: seq<Entry>, hash: Key -> Hash32, where: seq<nat>, gap: nat)
    requires Indexed(c, ps, hash, where, gap) && gap < |ps| - 1
    ensures var last := |ps| - 1;
            && where[last] < |c.ix|
            && Indexed(Repointed(c, where[last], gap), RemoveAt(ps, gap), hash, where[gap := where[last]][..last], -1)
  {
    hide Chained, Pack, SlotOf, FragOf, Main;
    var last := |ps| - 1;
    assert SlotOk(c, where, last);
    var b := where[last];
    assert BucketOk(c, ps, hash, where, gap, b);
    RepointedChained(c, b, gap);
    PackReads(|c.ix|, gap, c.ix[b].packed);
    var c', ps', where' := Repointed(c, b, gap), RemoveAt(ps, gap), where[gap := b][..last];
    forall x: nat | Occ(c', x) ensures BucketOk(c', ps', hash, where', -1, x) {
      assert BucketOk(c, ps, hash, where, gap, x);
    }
    forall s: nat | s < |ps'| ensures SlotOk(c', where', s) {
      assert s != gap ==> SlotOk(c, where, s);
    }
    IndexedFrom(c', ps', hash, where', -1);
  }

  /** The erased pair was the last one. */
  lemma LastDropped(c: Links, ps: seq<Entry>, hash: Key -> Hash32, where: seq<nat>)
    requires |ps| > 0 && Indexed(c, ps, hash, where, |ps| - 1)
    ensures |where| == |ps| && Indexed(c, RemoveAt(ps, |ps| - 1), hash, where[..|ps| - 1], -1)
  {
    hide Chained, SlotOf, FragOf, Main;
    var gap := |ps| - 1;
    var ps', where' := RemoveAt(ps, gap), where[..gap];
    forall x: nat | Occ(c, x) ensures BucketOk(c, ps', hash, where', -1, x) {
      assert BucketOk(c, ps, hash, where, gap, x);
    }
    forall s: nat | s < |ps'| ensures SlotOk(c, where', s) {
      assert SlotOk(c, where, s);
    }
    IndexedFrom(c, ps', hash, where', -1);
  }

  /** A new value for a stored key changes nothing in the index. */
  lemma ValueChanged(c: Links, ps: seq<Entry>, hash: Key -> Hash32, where: seq<nat>, s: nat, val: Value)
    requires Indexed(c, ps, hash, where, -1) && s < |ps|
    ensures Indexed(c, ps[s := Entry(ps[s].key, val)], hash, where, -1)
  {
    hide Chained, SlotOf, FragOf, Main;
    var ps' := ps[s := Entry(ps[s].key, val)];
    forall x: nat | Occ(c, x) ensures BucketOk(c, ps', hash, where, -1, x) {
      assert BucketOk(c, ps, hash, where, -1, x);
    }
    forall u: nat | u < |ps'| ensures SlotOk(c, where, u) {
      assert SlotOk(c, where, u);
    }
    IndexedFrom(c, ps', hash, where, -1);
  }

  // ----- search -----

  /** No bucket of the chain of `h` up to and including bucket `b` holds key `k`. */
  ghost predicate Passed(c: Links, ps: seq<Entry>, h: nat, k: Key, b: nat)
    requires Shape(c) && b < |c.ix|
  {
    forall d: nat | Occ(c, d) && c.home[d] == h && c.rank[d] <= c.rank[b] ::
      SlotAt(c, d) < |ps| && ps[SlotAt(c, d)].key != k
  }

  ghost predicate Differs(c: Links, ps: seq<Entry>, k: Key, b: nat)
    requires b < |c.ix|
  {
    SlotAt(c, b) < |ps| && ps[SlotAt(c, b)].key != k
  }

  /** An entry whose high bits differ from those of the hash code is another key's. */
  lemma FragmentTells(c: Links, ps: seq<Entry>, hash: Key -> Hash32, where: seq<nat>, k: Key, b: nat)
    requires Indexed(c, ps, hash, where, -1) && Occ(c, b)
    ensures SlotAt(c, b) < |ps|
    ensures FragOf(|c.ix|, c.ix[b].packed) != FragOf(|c.ix|, hash(k)) ==> Differs(c, ps, k, b)
  {
    hide Chained, SlotOf, FragOf, Main;
    assert BucketOk(c, ps, hash, where, -1, b);
  }

  lemma PassHead(c: Links, ps: seq<Entry>, hash: Key -> Hash32, where: seq<nat>, k: Key, b: nat)
    requires Indexed(c, ps, hash, where, -1) && Occ(c, b) && c.home[b] == b && Differs(c, ps, k, b)
    ensures Passed(c, ps, b, k, b)
  {
    hide SlotAt, Main, FragOf;
    assert Node(c, b);
    forall d: nat | Occ(c, d) && c.home[d] == b && c.rank[d] <= c.rank[b] ensures d == b {
      assert Pair(c, d, b);
    }
  }

  lemma PassNext(c: Links, ps: seq<Entry>, hash: Key -> Hash32, where: seq<nat>, k: Key, b: nat)
    requires Indexed(c, ps, hash, where, -1) && Occ(c, b) && Passed(c, ps, c.home[b], k, b)
    requires c.ix[b].next != b && 0 <= c.ix[b].next < |c.ix| && Differs(c, ps, k, c.ix[b].next)
    ensures Passed(c, ps, c.home[b], k, c.ix[b].next)
  {
    hide SlotAt, Main, FragOf, Node, Pair;
    var s := c.ix[b].next;
    forall d: nat | Occ(c, d) && c.home[d] == c.home[b] && c.rank[d] <= c.rank[s]
      ensures SlotAt(c, d) < |ps| && ps[SlotAt(c, d)].key != k
    {
      Ahead(c, b, d);
    }
  }

  /** Having passed the end of its chain, a key is absent. */
  lemma PassedEnd(c: Links, ps: seq<Entry>, hash: Key -> Hash32, where: seq<nat>, k: Key, b: nat)
    requires Indexed(c, ps, hash, where, -1) && Occ(c, b) && c.ix[b].next == b
    requires c.home[b] == Main(|c.ix|, hash(k)) && Passed(c, ps, c.home[b], k, b)
    ensures Absent(ps, k)
  {
    hide SlotOf, Main, FragOf, Node, Pair;
    forall s | 0 <= s < |ps| ensures ps[s].key != k {
      assert SlotOk(c, where, s);
      var d := where[s];
      assert BucketOk(c, ps, hash, where, -1, d);
      if c.home[d] == c.home[b] {
        Ahead(c, b, d);
      }
    }
  }

  /** A key whose main bucket is empty, or holds an entry of another chain, is absent. */
  lemma NoChain(c: Links, ps: seq<Entry>, hash: Key -> Hash32, where: seq<nat>, k: Key)
    requires Indexed(c, ps, hash, where, -1)
    requires var h := Main(|c.ix|, hash(k)); !Occ(c, h) || c.home[h] != h
    ensures Absent(ps, k)
  {
    hide SlotOf, Main, FragOf, Pair;
    forall s | 0 <= s < |ps| ensures ps[s].key != k {
      assert SlotOk(c, where, s);
      assert BucketOk(c, ps, hash, where, -1, where[s]) && Node(c, where[s]);
    }
  }

  // ----- counting -----

  lemma {:induction false} SlotsOfFullPrefix(c: Links, ps: seq<Entry>, hash: Key -> Hash32, where: seq<nat>, i: nat)
    returns (slots: set<nat>)
    requires Indexed(c, ps, hash, where, -1) && i <= |c.ix| && forall b: nat | b < i :: Occ(c, b)
    ensures |slots| == i && forall s :: s in slots ==> s < |ps| && where[s] < i
  {
    hide Chained, SlotOf, FragOf, Main;
    slots := {};
    if i > 0 {
      slots := SlotsOfFullPrefix(c, ps, hash, where, i - 1);
      assert BucketOk(c, ps, hash, where, -1, i - 1);
      slots := slots + {SlotAt(c, i - 1)};
    }
  }

  /** Fewer pairs than buckets leaves an empty bucket. */
  lemma RoomLeft(c: Links, ps: seq<Entry>, hash: Key -> Hash32, where: seq<nat>) returns (e: nat)
    requires Indexed(c, ps, hash, where, -1) && |ps| < |c.ix|
    ensures e < |c.ix| && c.ix[e].next < 0
  {
    hide Chained, SlotOf, FragOf, Main;
    if forall b: nat | b < |c.ix| :: Occ(c, b) {
      var slots := SlotsOfFullPrefix(c, ps, hash, where, |c.ix|);
      BoundedSet(slots, |ps|);
      assert false;
    }
    e :| 0 <= e < |c.ix| && !Occ(c, e);
  }

  /** An index without pairs. */
  lemma NothingIndexed(c: Links, hash: Key -> Hash32)
    requires Shape(c) && forall b: nat | b < |c.ix| :: c.ix[b].next < 0
    ensures Indexed(c, [], hash, [], -1)
  {
    hide SlotOf, FragOf, Main, Node, Pair;
    ChainedFrom(c);
    IndexedFrom(c, [], hash, [], -1);
  }
}
