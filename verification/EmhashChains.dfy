/** The bucket chains of emhash8 as a value: every bucket has the link `next`, which is
    negative when the bucket is empty and the bucket itself at the end of a chain. Two ghost
    sequences say which chain a bucket is on and how far along it is. */
module EmhashChains {

  datatype Index = Index(next: int, packed: nat)

  const INACTIVE := -1

  /** `home[b]` is the main bucket of the chain that bucket `b` is on, and ranks increase
      along every chain from 0 at the main bucket. */
  datatype Links = Links(ix: seq<Index>, home: seq<nat>, rank: seq<nat>)

  ghost predicate Occ(c: Links, b: int)
  {
    0 <= b < |c.ix| && c.ix[b].next >= 0
  }

  ghost predicate Shape(c: Links)
  {
    |c.ix| == |c.home| == |c.rank| > 0
  }

  /** An occupied bucket hangs on the chain of an occupied main bucket, and its link leads
      along that chain or, at the end, to itself. */
  ghost predicate Node(c: Links, b: nat)
    requires Shape(c) && b < |c.ix|
  {
    var h, s := c.home[b], c.ix[b].next;
    && Occ(c, h) && c.home[h] == h && (c.rank[b] == 0 <==> b == h)
    && Occ(c, s) && c.home[s] == h && (s == b || c.rank[b] < c.rank[s])
  }

  /** No bucket of a chain lies strictly between a bucket and its successor. */
  ghost predicate Pair(c: Links, b: nat, d: nat)
    requires Shape(c) && b < |c.ix| && d < |c.ix|
  {
    && (c.rank[b] == c.rank[d] ==> b == d)
    && (c.rank[b] < c.rank[d] ==> c.ix[b].next != b && 0 <= c.ix[b].next < |c.ix| && c.rank[c.ix[b].next] <= c.rank[d])
  }

  /** The chains are acyclic, end in themselves, and partition the occupied buckets. */
  ghost predicate Chained(c: Links)
  {
    && Shape(c)
    && (forall b {:trigger Node(c, b)} :: Occ(c, b) ==> Node(c, b))
    && (forall b, d {:trigger Pair(c, b, d)} :: Occ(c, b) && Occ(c, d) && c.home[b] == c.home[d] ==> Pair(c, b, d))
  }

  // ----- walking -----

  /** The successor is the next bucket of the chain, and the end is the last. */
  lemma Ahead(c: Links, b: nat, d: nat)
    requires Chained(c) && Occ(c, b) && Occ(c, d) && c.home[b] == c.home[d]
    ensures Occ(c, c.ix[b].next) && c.home[c.ix[b].next] == c.home[b]
    ensures c.ix[b].next == b ==> c.rank[d] <= c.rank[b]
    ensures c.ix[b].next != b ==> c.rank[b] < c.rank[c.ix[b].next]
    ensures c.ix[b].next != b && c.rank[d] <= c.rank[c.ix[b].next] ==> c.rank[d] <= c.rank[b] || d == c.ix[b].next
  {
    assert Node(c, b) && Pair(c, b, d);
    assert Pair(c, d, c.ix[b].next);
  }

  /** From a bucket that comes before `d`, the link leads to `d` or to one still before it. */
  lemma Toward(c: Links, b: nat, d: nat)
    requires Chained(c) && Occ(c, b) && Occ(c, d) && c.home[b] == c.home[d] && c.rank[b] < c.rank[d]
    ensures var s := c.ix[b].next;
            && Occ(c, s) && c.home[s] == c.home[b] && s != b && c.rank[b] < c.rank[s]
            && (s == d || c.rank[s] < c.rank[d])
  {
    assert Node(c, b) && Pair(c, b, d);
    assert Pair(c, c.ix[b].next, d);
  }

  /** The main bucket of a chain comes before all its other buckets. */
  lemma MainFirst(c: Links, d: nat)
    requires Chained(c) && Occ(c, d)
    ensures Occ(c, c.home[d]) && c.home[c.home[d]] == c.home[d] && c.rank[c.home[d]] == 0
    ensures d != c.home[d] ==> c.rank[d] > 0
  {
    assert Node(c, d) && Node(c, c.home[d]);
  }

  lemma OnlyOnePredecessor(c: Links, p: nat, d: nat)
    requires Chained(c) && Occ(c, p) && Occ(c, d) && c.ix[p].next == c.ix[d].next
    requires c.ix[p].next != p && c.ix[d].next != d
    ensures p == d
  {
    assert Node(c, p) && Node(c, d);
    assert Pair(c, p, d) && Pair(c, d, p);
  }

  /** Some bound that no rank exceeds, for termination. */
  ghost function Top(rank: seq<nat>): (m: nat)
    ensures forall b | 0 <= b < |rank| :: rank[b] <= m
  {
    if rank == [] then 0
    else
      var m := Top(rank[1..]);
      assert forall b | 1 <= b < |rank| :: rank[b] == rank[1..][b - 1];
      if rank[0] > m then rank[0] else m
  }

  /** The buckets met when following the links from `b` to the end. */
  ghost function ChainFrom(c: Links, b: nat): seq<nat>
    requires Chained(c) && Occ(c, b)
    decreases Top(c.rank) - c.rank[b]
  {
    Ahead(c, b, b);
    if c.ix[b].next == b then [b] else [b] + ChainFrom(c, c.ix[b].next)
  }

  /** Following the links meets exactly the rest of the chain, in the order of the ranks and
      hence no bucket twice. */
  lemma {:induction false} ChainFromExact(c: Links, b: nat)
    requires Chained(c) && Occ(c, b)
    ensures ChainFrom(c, b)[0] == b
    ensures forall d: nat :: d in ChainFrom(c, b) <==> Occ(c, d) && c.home[d] == c.home[b] && c.rank[b] <= c.rank[d]
    ensures forall i, j | 0 <= i < j < |ChainFrom(c, b)| ::
              ChainFrom(c, b)[i] < |c.rank| && ChainFrom(c, b)[j] < |c.rank|
              && c.rank[ChainFrom(c, b)[i]] < c.rank[ChainFrom(c, b)[j]]
    decreases Top(c.rank) - c.rank[b]
  {
    hide Node, Pair;
    Ahead(c, b, b);
    var s := c.ix[b].next;
    if s != b {
      ChainFromExact(c, s);
    }
    forall d: nat | Occ(c, d) && c.home[d] == c.home[b]
      ensures d in ChainFrom(c, b) <==> c.rank[b] <= c.rank[d]
    {
      Ahead(c, b, d);
      Ahead(c, d, b);
      SameRank(c, b, d);
    }
  }

  lemma SameRank(c: Links, b: nat, d: nat)
    requires Chained(c) && Occ(c, b) && Occ(c, d) && c.home[b] == c.home[d]
    ensures c.rank[b] == c.rank[d] <==> b == d
  {
    assert Pair(c, b, d);
  }

  /** From a main bucket, following the links meets exactly the entries that belong to it. */
  lemma MainChain(c: Links, h: nat)
    requires Chained(c) && Occ(c, h) && c.home[h] == h
    ensures forall d: nat :: d in ChainFrom(c, h) <==> Occ(c, d) && c.home[d] == h
  {
    MainFirst(c, h);
    ChainFromExact(c, h);
  }

  // ----- the changes that an operation makes -----

  /** A chain of its own for bucket `h`. */
  function Headed(c: Links, h: nat, packed: nat): Links
    requires Shape(c) && h < |c.ix|
  {
    Links(c.ix[h := Index(h, packed)], c.home[h := h], c.rank[h := 0])
  }

  /** Bucket `e` behind the end `b` of a chain. */
  function Lengthened(c: Links, b: nat, e: nat, packed: nat): Links
    requires Shape(c) && b < |c.ix| && e < |c.ix|
  {
    Links(c.ix[b := c.ix[b].(next := e)][e := Index(e, packed)], c.home[e := c.home[b]], c.rank[e := c.rank[b] + 1])
  }

  /** The entry in bucket `b`, behind `p`, moved to bucket `e`. */
  function Kicked(c: Links, p: nat, b: nat, e: nat): Links
    requires Shape(c) && p < |c.ix| && b < |c.ix| && e < |c.ix|
  {
    Links(c.ix[e := Index(if c.ix[b].next == b then e else c.ix[b].next, c.ix[b].packed)]
              [p := c.ix[p].(next := e)][b := c.ix[b].(next := INACTIVE)],
          c.home[e := c.home[b]], c.rank[e := c.rank[b]])
  }

  /** Bucket `b` taken out from behind `p`, which gets the given payload. */
  function Dropped(c: Links, p: nat, b: nat, packed: nat): Links
    requires Shape(c) && p < |c.ix| && b < |c.ix|
  {
    c.(ix := c.ix[p := Index(if c.ix[b].next == b then p else c.ix[b].next, packed)][b := Index(INACTIVE, 0)])
  }

  /** The chain of `h`, which has no other bucket, gone. */
  function Emptied(c: Links, h: nat): Links
    requires Shape(c) && h < |c.ix|
  {
    c.(ix := c.ix[h := Index(INACTIVE, 0)])
  }

  // ----- each keeps the chains -----

  lemma ChainedFrom(c: Links)
    requires Shape(c) && forall b: nat | Occ(c, b) :: Node(c, b)
    requires forall b: nat, d: nat | Occ(c, b) && Occ(c, d) && c.home[b] == c.home[d] :: Pair(c, b, d)
    ensures Chained(c)
  {
    hide Node, Pair;
  }

  lemma HeadedNode(c: Links, h: nat, packed: nat, x: nat)
    requires Chained(c) && h < |c.ix| && !Occ(c, h) && Occ(Headed(c, h, packed), x)
    ensures Node(Headed(c, h, packed), x)
    ensures x != h ==> c.home[x] != h
  {
    assert x != h ==> Node(c, x);
  }

  lemma HeadedKeeps(c: Links, h: nat, packed: nat)
    requires Chained(c) && h < |c.ix| && !Occ(c, h)
    ensures Chained(Headed(c, h, packed))
  {
    hide Node;
    var c' := Headed(c, h, packed);
    forall x: nat | Occ(c', x) ensures Node(c', x) && (x != h ==> c.home[x] != h) {
      HeadedNode(c, h, packed, x);
    }
    forall x: nat, y: nat | Occ(c', x) && Occ(c', y) && c'.home[x] == c'.home[y] ensures Pair(c', x, y) {
      if x != h && y != h {
        assert Pair(c, x, y);
      }
    }
    ChainedFrom(c');
  }

  lemma LengthenedNode(c: Links, b: nat, e: nat, packed: nat, x: nat)
    requires Chained(c) && Occ(c, b) && c.ix[b].next == b && e < |c.ix| && !Occ(c, e)
    requires Occ(Lengthened(c, b, e, packed), x)
    ensures Node(Lengthened(c, b, e, packed), x)
  {
    assert Node(c, b);
    assert x != e ==> Node(c, x);
  }

  lemma LengthenedPair(c: Links, b: nat, e: nat, packed: nat, x: nat, y: nat)
    requires Chained(c) && Occ(c, b) && c.ix[b].next == b && e < |c.ix| && !Occ(c, e)
    requires var c' := Lengthened(c, b, e, packed); Occ(c', x) && Occ(c', y) && c'.home[x] == c'.home[y]
    ensures Pair(Lengthened(c, b, e, packed), x, y)
  {
    if x != e && y != e {
      assert Pair(c, x, y) && Node(c, x);
      assert x == b ==> c.rank[y] <= c.rank[x];
    } else if x == e && y != e {
      assert Pair(c, b, y);
    } else if y == e && x != e {
      assert Pair(c, b, x) && Pair(c, x, b);
    }
  }

  lemma LengthenedKeeps(c: Links, b: nat, e: nat, packed: nat)
    requires Chained(c) && Occ(c, b) && c.ix[b].next == b && e < |c.ix| && !Occ(c, e)
    ensures Chained(Lengthened(c, b, e, packed))
  {
    hide Node, Pair;
    var c' := Lengthened(c, b, e, packed);
    forall x: nat | Occ(c', x) ensures Node(c', x) {
      LengthenedNode(c, b, e, packed, x);
    }
    forall x: nat, y: nat | Occ(c', x) && Occ(c', y) && c'.home[x] == c'.home[y] ensures Pair(c', x, y) {
      LengthenedPair(c, b, e, packed, x, y);
    }
    ChainedFrom(c');
  }

  /** Bucket `p` precedes bucket `b` on its chain. */
  ghost predicate Precedes(c: Links, p: nat, b: nat)
  {
    Occ(c, p) && p != b && c.ix[p].next == b
  }

  lemma PrecededOnChain(c: Links, p: nat, b: nat)
    requires Chained(c) && Precedes(c, p, b)
    ensures Occ(c, b) && c.home[b] == c.home[p] && c.home[b] != b && b < |c.ix|
    ensures c.rank[p] < c.rank[b]
    ensures forall x: nat | Occ(c, x) && c.ix[x].next == b :: x == b || x == p
  {
    assert Node(c, p) && Node(c, b);
    forall x: nat | Occ(c, x) && c.ix[x].next == b ensures x == b || x == p {
      if x != b && x != p {
        OnlyOnePredecessor(c, p, x);
      }
    }
  }

  lemma DroppedNode(c: Links, p: nat, b: nat, packed: nat, x: nat)
    requires Chained(c) && Precedes(c, p, b) && b < |c.ix| && Occ(Dropped(c, p, b, packed), x)
    ensures Node(Dropped(c, p, b, packed), x)
  {
    PrecededOnChain(c, p, b);
    assert Node(c, x) && Node(c, b);
  }

  lemma DroppedPair(c: Links, p: nat, b: nat, packed: nat, x: nat, y: nat)
    requires Chained(c) && Precedes(c, p, b) && b < |c.ix|
    requires var c' := Dropped(c, p, b, packed); Occ(c', x) && Occ(c', y) && c'.home[x] == c'.home[y]
    ensures Pair(Dropped(c, p, b, packed), x, y)
  {
    PrecededOnChain(c, p, b);
    assert Pair(c, x, y);
    if x == p {
      assert Pair(c, b, y) && Node(c, b);
    }
  }

  lemma DroppedKeeps(c: Links, p: nat, b: nat, packed: nat)
    requires Chained(c) && Precedes(c, p, b) && b < |c.ix|
    ensures Chained(Dropped(c, p, b, packed))
  {
    hide Node, Pair;
    var c' := Dropped(c, p, b, packed);
    forall x: nat | Occ(c', x) ensures Node(c', x) {
      DroppedNode(c, p, b, packed, x);
    }
    forall x: nat, y: nat | Occ(c', x) && Occ(c', y) && c'.home[x] == c'.home[y] ensures Pair(c', x, y) {
      DroppedPair(c, p, b, packed, x, y);
    }
    ChainedFrom(c');
  }

  /** Bucket `h` is the whole of its chain. */
  ghost predicate Alone(c: Links, h: nat)
    requires Shape(c)
  {
    Occ(c, h) && c.home[h] == h && c.ix[h].next == h
  }

  lemma AloneOnChain(c: Links, h: nat, x: nat)
    requires Chained(c) && Alone(c, h) && Occ(c, x) && x != h
    ensures c.home[x] != h && c.ix[x].next != h
  {
    assert Node(c, h) && Node(c, x);
    assert c.home[x] == c.home[h] ==> Pair(c, h, x);
  }

  lemma EmptiedNode(c: Links, h: nat, x: nat)
    requires Chained(c) && Alone(c, h) && Occ(Emptied(c, h), x)
    ensures Node(Emptied(c, h), x)
  {
    AloneOnChain(c, h, x);
    assert Node(c, x);
  }

  lemma EmptiedPair(c: Links, h: nat, x: nat, y: nat)
    requires Chained(c) && Alone(c, h)
    requires var c' := Emptied(c, h); Occ(c', x) && Occ(c', y) && c'.home[x] == c'.home[y]
    ensures Pair(Emptied(c, h), x, y)
  {
    assert Pair(c, x, y);
  }

  lemma EmptiedKeeps(c: Links, h: nat)
    requires Chained(c) && Alone(c, h)
    ensures Chained(Emptied(c, h))
  {
    hide Node, Pair;
    var c' := Emptied(c, h);
    forall x: nat | Occ(c', x) ensures Node(c', x) {
      EmptiedNode(c, h, x);
    }
    forall x: nat, y: nat | Occ(c', x) && Occ(c', y) && c'.home[x] == c'.home[y] ensures Pair(c', x, y) {
      EmptiedPair(c, h, x, y);
    }
    ChainedFrom(c');
  }

  lemma KickedNode(c: Links, p: nat, b: nat, e: nat, x: nat)
    requires Chained(c) && Precedes(c, p, b) && b < |c.ix| && e < |c.ix| && !Occ(c, e)
    requires Occ(Kicked(c, p, b, e), x)
    ensures Node(Kicked(c, p, b, e), x)
  {
    PrecededOnChain(c, p, b);
    assert Node(c, b);
    assert x != e ==> Node(c, x);
  }

  lemma KickedPair(c: Links, p: nat, b: nat, e: nat, x: nat, y: nat)
    requires Chained(c) && Precedes(c, p, b) && b < |c.ix| && e < |c.ix| && !Occ(c, e)
    requires var c' := Kicked(c, p, b, e); Occ(c', x) && Occ(c', y) && c'.home[x] == c'.home[y]
    ensures Pair(Kicked(c, p, b, e), x, y)
  {
    PrecededOnChain(c, p, b);
    var x0, y0 := if x == e then b else x, if y == e then b else y;
    assert Pair(c, x0, y0) && Node(c, x0);
  }

  lemma KickedKeeps(c: Links, p: nat, b: nat, e: nat)
    requires Chained(c) && Precedes(c, p, b) && b < |c.ix| && e < |c.ix| && !Occ(c, e)
    ensures Chained(Kicked(c, p, b, e))
  {
    hide Node, Pair;
    var c' := Kicked(c, p, b, e);
    forall x: nat | Occ(c', x) ensures Node(c', x) {
      KickedNode(c, p, b, e, x);
    }
    forall x: nat, y: nat | Occ(c', x) && Occ(c', y) && c'.home[x] == c'.home[y] ensures Pair(c', x, y) {
      KickedPair(c, p, b, e, x, y);
    }
    ChainedFrom(c');
  }
}
