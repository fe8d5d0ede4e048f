/** The index of `ankerl::unordered_dense` as a value: Robin Hood buckets holding a packed
    distance and fingerprint (`daf`) and an index into a vector of entries without holes. */
module DenseIndex {
  import opened Entries
  import opened EntryVectors
  import opened FiniteSets

  /** One bucket. Distance 1, in units of `DIST_INC`, is an entry at home; `daf == 0` is an
      empty bucket. */
  datatype Bucket = Bucket(daf: nat, idx: nat)

  const EMPTY := Bucket(0, 0)
  const DIST_INC: nat := 256

  /** Where a key's probing starts and what its fingerprint byte is. */
  datatype Hasher = Hasher(home: Key -> nat, fp: Key -> nat)

  ghost predicate HasherOk(hs: Hasher, n: nat)
  {
    forall k {:trigger hs.home(k)} {:trigger hs.fp(k)} :: hs.home(k) < n && hs.fp(k) < DIST_INC
  }

  // ----- positions on the circle of n buckets -----

  function Next(n: nat, p: nat): (q: nat)
    requires p < n
    ensures q < n
  {
    if p + 1 == n then 0 else p + 1
  }

  /** How many steps lead from `p` to `q`. */
  function Off(n: nat, p: nat, q: nat): nat
    requires p < n && q < n
  {
    if q >= p then q - p else q + n - p
  }

  /** The position `j` steps after `p`. */
  function Fwd(n: nat, p: nat, j: nat): (q: nat)
    requires p < n && j <= n
    ensures q < n
  {
    if p + j < n then p + j else p + j - n
  }

  /** The position `j` steps before `p`. */
  function Back(n: nat, p: nat, j: nat): nat
    requires p < n && j <= n
  {
    if p >= j then p - j else p + n - j
  }

  // ----- the invariant -----

  ghost predicate Occ(bs: seq<Bucket>, p: int)
  {
    0 <= p < |bs| && bs[p].daf != 0
  }

  /** An entry that is not at home is at most one step richer than its left neighbour. */
  ghost predicate StepOk(bs: seq<Bucket>, p: nat)
    requires p < |bs|
  {
    var q := Next(|bs|, p);
    bs[q].daf >= 2 * DIST_INC ==> bs[q].daf <= bs[p].daf + DIST_INC
  }

  ghost predicate Ordered(bs: seq<Bucket>)
  {
    forall p {:trigger StepOk(bs, p)} :: 0 <= p < |bs| ==> StepOk(bs, p)
  }

  /** The packed distance and fingerprint of key `k` when it sits at position `p`. */
  function DafAt(hs: Hasher, n: nat, k: Key, p: nat): nat
    requires p < n && hs.home(k) < n
  {
    DIST_INC * (Off(n, hs.home(k), p) + 1) + hs.fp(k)
  }

  /** The occupied bucket `p` refers to a value and stores its true distance. */
  ghost predicate BucketOk(bs: seq<Bucket>, vs: seq<Entry>, hs: Hasher, p: nat)
    requires p < |bs|
  {
    && bs[p].idx < |vs|
    && hs.home(vs[bs[p].idx].key) < |bs|
    && bs[p].daf == DafAt(hs, |bs|, vs[bs[p].idx].key, p)
  }

  /** The value at index `v` is found in bucket `pos[v]`. */
  ghost predicate ValueOk(bs: seq<Bucket>, pos: seq<nat>, v: nat)
    requires v < |pos|
  {
    Occ(bs, pos[v]) && bs[pos[v]].idx == v
  }

  /** Some bucket is empty or holds an entry at home, so every backward shift ends. */
  ghost predicate Grounded(bs: seq<Bucket>)
  {
    exists w :: 0 <= w < |bs| && bs[w].daf < 2 * DIST_INC
  }

  /** The index invariant, apart from the bucket `hole` and the value `gap`: true
      distances and a bijection between occupied buckets and value indices. */
  ghost predicate Matched(bs: seq<Bucket>, vs: seq<Entry>, hs: Hasher, pos: seq<nat>, hole: int, gap: int)
  {
    && |pos| == |vs|
    && (forall p {:trigger BucketOk(bs, vs, hs, p)} :: Occ(bs, p) && p != hole ==> BucketOk(bs, vs, hs, p))
    && (forall p {:trigger Occ(bs, p)} ::
          Occ(bs, p) && p != hole ==> bs[p].idx < |vs| && bs[p].idx != gap && pos[bs[p].idx] == p)
    && (forall v {:trigger ValueOk(bs, pos, v)} :: 0 <= v < |vs| && v != gap ==> ValueOk(bs, pos, v) && pos[v] != hole)
    && (forall p :: 0 <= p < |bs| && bs[p].daf == 0 ==> bs[p].idx == 0)
  }

  /** The central invariant of the table's index. */
  ghost predicate Indexed(bs: seq<Bucket>, vs: seq<Entry>, hs: Hasher, pos: seq<nat>)
  {
    && |bs| >= 2 && HasherOk(hs, |bs|)
    && Ordered(bs) && Grounded(bs)
    && Matched(bs, vs, hs, pos, -1, -1)
  }

  // ----- runs of occupied buckets -----

  /** Walking back from a bucket, distances drop by at most one step at a time. */
  lemma {:induction false} BackwardBound(bs: seq<Bucket>, p: nat, i: nat)
    requires Ordered(bs) && p < |bs| && i < |bs|
    requires bs[p].daf >= DIST_INC * (i + 1)
    ensures bs[Back(|bs|, p, i)].daf + DIST_INC * i >= bs[p].daf
  {
    if i > 0 {
      BackwardBound(bs, p, i - 1);
      assert StepOk(bs, Back(|bs|, p, i));
    }
  }

  /** Every bucket between the home of a stored key and the key's bucket holds at least
      what a probe for the key carries there; in particular none of them is empty. */
  lemma RunBound(bs: seq<Bucket>, vs: seq<Entry>, hs: Hasher, p: nat, j: nat)
    requires Ordered(bs) && p < |bs| && BucketOk(bs, vs, hs, p)
    requires var h := hs.home(vs[bs[p].idx].key); j <= Off(|bs|, h, p)
    ensures var k := vs[bs[p].idx].key;
            bs[Fwd(|bs|, hs.home(k), j)].daf >= DIST_INC * (j + 1) + hs.fp(k)
  {
    var h := hs.home(vs[bs[p].idx].key);
    var i := Off(|bs|, h, p) - j;
    BackwardBound(bs, p, i);
    assert Back(|bs|, p, i) == Fwd(|bs|, h, j);
  }

  /** An empty bucket is not on the run of any stored key. */
  lemma RunAvoidsEmpty(bs: seq<Bucket>, vs: seq<Entry>, hs: Hasher, p: nat, e: nat)
    requires Ordered(bs) && p < |bs| && BucketOk(bs, vs, hs, p)
    requires e < |bs| && bs[e].daf == 0
    ensures Off(|bs|, hs.home(vs[bs[p].idx].key), p) < Off(|bs|, hs.home(vs[bs[p].idx].key), e)
  {
    var h := hs.home(vs[bs[p].idx].key);
    var j := Off(|bs|, h, e);
    if j <= Off(|bs|, h, p) {
      RunBound(bs, vs, hs, p, j);
    }
  }

  // ----- probing -----

  /** What a probe for key `k` carries after `j` steps. */
  function ProbeDaf(hs: Hasher, k: Key, j: nat): nat
  {
    DIST_INC * (j + 1) + hs.fp(k)
  }

  /** Key `k` does not sit fewer than `j` steps from its home. */
  ghost predicate NotBefore(bs: seq<Bucket>, vs: seq<Entry>, hs: Hasher, pos: seq<nat>, k: Key, j: nat)
    requires Indexed(bs, vs, hs, pos)
  {
    forall v | 0 <= v < |vs| && vs[v].key == k && ValueOk(bs, pos, v) :: Off(|bs|, hs.home(k), pos[v]) >= j
  }

  /** Early exit is sound: a probe that carries more than the bucket it meets has shown the
      key to be absent; a probe that does not match moves on; and a probe never goes round
      the circle more than once. */
  lemma ProbeStep(bs: seq<Bucket>, vs: seq<Entry>, hs: Hasher, pos: seq<nat>, k: Key, j: nat)
    requires Indexed(bs, vs, hs, pos) && j <= |bs| && NotBefore(bs, vs, hs, pos, k, j)
    ensures var b := bs[Fwd(|bs|, hs.home(k), j)];
            && (ProbeDaf(hs, k, j) > b.daf ==> Absent(vs, k))
            && (j == |bs| ==> ProbeDaf(hs, k, j) > b.daf)
            && (ProbeDaf(hs, k, j) == b.daf ==> b.idx < |vs|)
            && (ProbeDaf(hs, k, j) == b.daf && vs[b.idx].key != k ==> NotBefore(bs, vs, hs, pos, k, j + 1))
            && (ProbeDaf(hs, k, j) < b.daf ==> NotBefore(bs, vs, hs, pos, k, j + 1))
  {
    var n, h := |bs|, hs.home(k);
    var place := Fwd(n, h, j);
    var b := bs[place];
    if Occ(bs, place) {
      assert BucketOk(bs, vs, hs, place);
    }
    forall v | 0 <= v < |vs| && vs[v].key == k
      ensures ValueOk(bs, pos, v) && ProbeDaf(hs, k, j) <= b.daf
      ensures Off(n, h, pos[v]) == j ==> b.idx == v && b.daf == ProbeDaf(hs, k, j)
    {
      assert ValueOk(bs, pos, v) && BucketOk(bs, vs, hs, pos[v]);
      RunBound(bs, vs, hs, pos[v], j);
    }
  }

  /** `j` steps from `h` do not pass an empty bucket. */
  ghost predicate ShortOfEmpty(bs: seq<Bucket>, h: nat, j: nat)
    requires h < |bs|
  {
    forall e | 0 <= e < |bs| && bs[e].daf == 0 :: j <= Off(|bs|, h, e)
  }

  lemma PassOccupied(bs: seq<Bucket>, h: nat, j: nat)
    requires h < |bs| && j < |bs| && ShortOfEmpty(bs, h, j) && bs[Fwd(|bs|, h, j)].daf != 0
    ensures ShortOfEmpty(bs, h, j + 1)
  {
    forall e | 0 <= e < |bs| && bs[e].daf == 0 ensures j + 1 <= Off(|bs|, h, e) {
      assert j <= Off(|bs|, h, e) && e != Fwd(|bs|, h, j);
    }
  }

  /** Where a probe for `k` stopped: it carries at least what the bucket there holds, and
      no more than the bucket before. */
  ghost predicate StopsAt(bs: seq<Bucket>, hs: Hasher, k: Key, j: nat)
    requires HasherOk(hs, |bs|)
  {
    && j <= |bs| && ShortOfEmpty(bs, hs.home(k), j)
    && bs[Fwd(|bs|, hs.home(k), j)].daf <= ProbeDaf(hs, k, j)
    && (j > 0 ==> ProbeDaf(hs, k, j - 1) <= bs[Fwd(|bs|, hs.home(k), j - 1)].daf)
  }

  /** After a tie the next bucket never exceeds the probe, so a search that has seen a tie
      needs no further test for being overtaken. */
  lemma AfterTie(bs: seq<Bucket>, hs: Hasher, k: Key, j: nat)
    requires HasherOk(hs, |bs|) && Ordered(bs) && j < |bs|
    requires bs[Fwd(|bs|, hs.home(k), j)].daf == ProbeDaf(hs, k, j)
    ensures bs[Fwd(|bs|, hs.home(k), j + 1)].daf <= ProbeDaf(hs, k, j + 1)
  {
    assert StepOk(bs, Fwd(|bs|, hs.home(k), j));
  }

  // ----- insertion: shifting up -----

  /** The bucket `c` is in hand and belongs to position `place`: put there it would continue
      a table that is well-formed apart from the value of `c`, which no bucket refers to. */
  ghost predicate Carrying(bs: seq<Bucket>, vs: seq<Entry>, hs: Hasher, pos: seq<nat>, c: Bucket, place: nat)
  {
    && |bs| >= 2 && HasherOk(hs, |bs|) && place < |bs|
    && Ordered(bs) && Matched(bs, vs, hs, pos, -1, c.idx)
    && c.idx < |vs| && c.daf == DafAt(hs, |bs|, vs[c.idx].key, place)
    && bs[place].daf <= c.daf
    && (c.daf >= 2 * DIST_INC ==> c.daf <= bs[Back(|bs|, place, 1)].daf + DIST_INC)
  }

  lemma PlacingKeepsOrder(bs: seq<Bucket>, c: Bucket, place: nat)
    requires |bs| >= 2 && place < |bs| && Ordered(bs) && bs[place].daf <= c.daf
    requires c.daf >= 2 * DIST_INC ==> c.daf <= bs[Back(|bs|, place, 1)].daf + DIST_INC
    ensures Ordered(bs[place := c])
  {
    var bs' := bs[place := c];
    forall p | 0 <= p < |bs| ensures StepOk(bs', p) {
      assert StepOk(bs, p);
      assert Next(|bs|, p) == place ==> p == Back(|bs|, place, 1);
    }
  }

  lemma ExchangeKeepsMatch(bs: seq<Bucket>, vs: seq<Entry>, hs: Hasher, pos: seq<nat>, c: Bucket, place: nat)
    requires Carrying(bs, vs, hs, pos, c, place) && Occ(bs, place)
    ensures Matched(bs[place := c], vs, hs, pos[c.idx := place], -1, bs[place].idx)
  {
    var bs' := bs[place := c];
    var pos' := pos[c.idx := place];
    var found := bs[place].idx;
    assert found < |vs| && found != c.idx && pos[found] == place;
    forall p | Occ(bs', p)
      ensures BucketOk(bs', vs, hs, p) && bs'[p].idx != found && pos'[bs'[p].idx] == p
    {
      if p != place {
        assert Occ(bs, p) && BucketOk(bs, vs, hs, p);
      }
    }
    forall v | 0 <= v < |vs| && v != found ensures ValueOk(bs', pos', v) {
      if v != c.idx {
        assert ValueOk(bs, pos, v);
      }
    }
  }

  /** One exchange of `place_and_shift_up`: the bucket in hand takes its place and the one
      found there is now in hand, one step further from home. `e` is an empty bucket. */
  lemma ShiftUpStep(bs: seq<Bucket>, vs: seq<Entry>, hs: Hasher, pos: seq<nat>, c: Bucket, place: nat, e: nat)
    requires Carrying(bs, vs, hs, pos, c, place) && Occ(bs, place)
    requires e < |bs| && bs[e].daf == 0
    ensures var c' := Bucket(bs[place].daf + DIST_INC, bs[place].idx);
            Carrying(bs[place := c], vs, hs, pos[c.idx := place], c', Next(|bs|, place))
    ensures bs[place := c][e].daf == 0 && Off(|bs|, Next(|bs|, place), e) < Off(|bs|, place, e)
  {
    PlacingKeepsOrder(bs, c, place);
    ExchangeKeepsMatch(bs, vs, hs, pos, c, place);
    assert BucketOk(bs, vs, hs, place) && StepOk(bs, place);
    RunAvoidsEmpty(bs, vs, hs, place, e);
  }

  /** The bucket in hand reaches an empty bucket. */
  lemma ShiftUpEnd(bs: seq<Bucket>, vs: seq<Entry>, hs: Hasher, pos: seq<nat>, c: Bucket, place: nat)
    requires Carrying(bs, vs, hs, pos, c, place) && bs[place].daf == 0
    ensures Indexed(bs[place := c], vs, hs, pos[c.idx := place])
  {
    var bs' := bs[place := c];
    var pos' := pos[c.idx := place];
    PlacingKeepsOrder(bs, c, place);
    assert StepOk(bs, place) && bs'[Next(|bs|, place)].daf < 2 * DIST_INC;
    forall p | Occ(bs', p) ensures BucketOk(bs', vs, hs, p) && pos'[bs'[p].idx] == p {
      if p != place {
        assert Occ(bs, p) && BucketOk(bs, vs, hs, p);
      }
    }
    forall v | 0 <= v < |vs| ensures ValueOk(bs', pos', v) {
      if v != c.idx {
        assert ValueOk(bs, pos, v);
      }
    }
  }

  // ----- erasure: shifting down -----

  /** The bucket `hole` is stale: its contents still keep the order of the buckets, but the
      index is complete without it and without the value `gap`. */
  ghost predicate Vacating(bs: seq<Bucket>, vs: seq<Entry>, hs: Hasher, pos: seq<nat>, hole: nat, gap: nat)
  {
    && |bs| >= 2 && HasherOk(hs, |bs|)
    && Ordered(bs) && Matched(bs, vs, hs, pos, hole, gap)
    && gap < |vs| && Occ(bs, hole)
  }

  lemma StartVacating(bs: seq<Bucket>, vs: seq<Entry>, hs: Hasher, pos: seq<nat>, p: nat)
    requires Indexed(bs, vs, hs, pos) && Occ(bs, p)
    ensures Vacating(bs, vs, hs, pos, p, bs[p].idx)
  {
    assert BucketOk(bs, vs, hs, p);
    forall v | 0 <= v < |vs| && v != bs[p].idx ensures ValueOk(bs, pos, v) && pos[v] != p {
      assert ValueOk(bs, pos, v);
    }
  }

  /** The position right after the hole moves one step down and becomes the hole. */
  function ShiftedDown(bs: seq<Bucket>, hole: nat): seq<Bucket>
    requires hole < |bs| && bs[Next(|bs|, hole)].daf >= DIST_INC
  {
    var q := bs[Next(|bs|, hole)];
    bs[hole := Bucket(q.daf - DIST_INC, q.idx)]
  }

  lemma ShiftDownKeepsOrder(bs: seq<Bucket>, hole: nat)
    requires |bs| >= 2 && hole < |bs| && Ordered(bs) && bs[Next(|bs|, hole)].daf >= 2 * DIST_INC
    ensures Ordered(ShiftedDown(bs, hole))
  {
    forall p | 0 <= p < |bs| ensures StepOk(ShiftedDown(bs, hole), p) {
      assert StepOk(bs, p) && StepOk(bs, hole);
    }
  }

  lemma ShiftDownStep(bs: seq<Bucket>, vs: seq<Entry>, hs: Hasher, pos: seq<nat>, hole: nat, gap: nat)
    requires Vacating(bs, vs, hs, pos, hole, gap) && bs[Next(|bs|, hole)].daf >= 2 * DIST_INC
    ensures bs[Next(|bs|, hole)].idx < |pos|
    ensures Vacating(ShiftedDown(bs, hole), vs, hs, pos[bs[Next(|bs|, hole)].idx := hole], Next(|bs|, hole), gap)
    ensures bs[hole].daf < 2 * DIST_INC ==> ShiftedDown(bs, hole)[hole].daf < 2 * DIST_INC
  {
    assert StepOk(bs, hole);
    var q := Next(|bs|, hole);
    var bs' := ShiftedDown(bs, hole);
    assert Occ(bs, q) && BucketOk(bs, vs, hs, q);
    var pos' := pos[bs[q].idx := hole];
    ShiftDownKeepsOrder(bs, hole);
    forall p | Occ(bs', p) && p != q
      ensures BucketOk(bs', vs, hs, p) && bs'[p].idx != gap && pos'[bs'[p].idx] == p
    {
      if p != hole {
        assert Occ(bs, p) && BucketOk(bs, vs, hs, p);
      }
    }
    forall v | 0 <= v < |vs| && v != gap ensures ValueOk(bs', pos', v) && pos'[v] != q {
      assert ValueOk(bs, pos, v);
    }
  }

  /** Clearing the hole when the next bucket is empty or at home leaves an index that only
      lacks the value `gap`. */
  lemma ClearHole(bs: seq<Bucket>, vs: seq<Entry>, hs: Hasher, pos: seq<nat>, hole: nat, gap: nat)
    requires Vacating(bs, vs, hs, pos, hole, gap) && bs[Next(|bs|, hole)].daf < 2 * DIST_INC
    ensures Ordered(bs[hole := EMPTY]) && Matched(bs[hole := EMPTY], vs, hs, pos, -1, gap)
  {
    var bs' := bs[hole := EMPTY];
    forall p | 0 <= p < |bs| ensures StepOk(bs', p) {
      assert StepOk(bs, p);
    }
    forall p | Occ(bs', p) ensures BucketOk(bs', vs, hs, p) && bs'[p].idx != gap && pos[bs'[p].idx] == p {
      assert Occ(bs, p) && BucketOk(bs, vs, hs, p);
    }
    forall v | 0 <= v < |vs| && v != gap ensures ValueOk(bs', pos, v) {
      assert ValueOk(bs, pos, v);
    }
  }

  // ----- the values -----

  /** A value about to be placed `j` steps from its home is in hand. */
  lemma StartCarrying(bs: seq<Bucket>, vs: seq<Entry>, hs: Hasher, pos: seq<nat>, entry: Entry, j: nat, e: nat)
    requires Indexed(bs, vs, hs, pos) && StopsAt(bs, hs, entry.key, j)
    requires e < |bs| && bs[e].daf == 0
    ensures Carrying(bs, vs + [entry], hs, pos + [0], Bucket(ProbeDaf(hs, entry.key, j), |vs|),
                     Fwd(|bs|, hs.home(entry.key), j))
  {
    var vs', pos' := vs + [entry], pos + [0];
    assert j <= Off(|bs|, hs.home(entry.key), e);
    forall p | Occ(bs, p) ensures BucketOk(bs, vs', hs, p) {
      assert BucketOk(bs, vs, hs, p);
    }
    forall v | 0 <= v < |vs'| && v != |vs| ensures ValueOk(bs, pos', v) {
      assert ValueOk(bs, pos, v);
    }
  }

  /** Scanning from its home, a value is met in its own bucket and nowhere before, and no
      empty bucket is met on the way. */
  lemma ScanStep(bs: seq<Bucket>, vs: seq<Entry>, hs: Hasher, pos: seq<nat>, gap: int, v: nat, j: nat)
    requires HasherOk(hs, |bs|) && Ordered(bs) && Matched(bs, vs, hs, pos, -1, gap)
    requires v < |vs| && v != gap && ValueOk(bs, pos, v) && j <= Off(|bs|, hs.home(vs[v].key), pos[v])
    ensures var here := Fwd(|bs|, hs.home(vs[v].key), j);
            && Occ(bs, here)
            && (bs[here].idx == v <==> j == Off(|bs|, hs.home(vs[v].key), pos[v]))
            && (bs[here].idx == v <==> here == pos[v])
  {
    assert BucketOk(bs, vs, hs, pos[v]);
    RunBound(bs, vs, hs, pos[v], j);
    assert Occ(bs, Fwd(|bs|, hs.home(vs[v].key), j));
  }

  /** The index once the last value has moved to index `gap` and its bucket follows. */
  lemma Repointed(bs: seq<Bucket>, vs: seq<Entry>, hs: Hasher, pos: seq<nat>, gap: nat)
    requires HasherOk(hs, |bs|) && Ordered(bs) && Matched(bs, vs, hs, pos, -1, gap)
    requires gap < |vs| - 1
    ensures var last := |vs| - 1;
            && Occ(bs, pos[last])
            && Ordered(bs[pos[last] := bs[pos[last]].(idx := gap)])
            && Matched(bs[pos[last] := bs[pos[last]].(idx := gap)], RemoveAt(vs, gap), hs, pos[gap := pos[last]][..last], -1, -1)
  {
    var last := |vs| - 1;
    assert ValueOk(bs, pos, last);
    var p0 := pos[last];
    var bs' := bs[p0 := bs[p0].(idx := gap)];
    var vs', pos' := RemoveAt(vs, gap), pos[gap := p0][..last];
    forall p | 0 <= p < |bs| ensures StepOk(bs', p) {
      assert StepOk(bs, p);
    }
    forall p | Occ(bs', p) ensures BucketOk(bs', vs', hs, p) && bs'[p].idx < |vs'| && pos'[bs'[p].idx] == p {
      assert Occ(bs, p) && BucketOk(bs, vs, hs, p);
    }
    forall v | 0 <= v < |vs'| ensures ValueOk(bs', pos', v) {
      assert v != gap ==> ValueOk(bs, pos, v);
    }
  }

  /** The index once the last value, no longer referred to, is gone. */
  lemma LastDropped(bs: seq<Bucket>, vs: seq<Entry>, hs: Hasher, pos: seq<nat>)
    requires |vs| > 0 && HasherOk(hs, |bs|) && Matched(bs, vs, hs, pos, -1, |vs| - 1)
    ensures Matched(bs, RemoveAt(vs, |vs| - 1), hs, pos[..|vs| - 1], -1, -1)
  {
    var vs', pos' := RemoveAt(vs, |vs| - 1), pos[..|vs| - 1];
    forall p | Occ(bs, p) ensures BucketOk(bs, vs', hs, p) {
      assert BucketOk(bs, vs, hs, p);
    }
    forall v | 0 <= v < |vs'| ensures ValueOk(bs, pos', v) {
      assert ValueOk(bs, pos, v);
    }
  }

  // ----- counting -----

  /** The `i` buckets from `h` on are all occupied. */
  ghost predicate FullRun(bs: seq<Bucket>, h: nat, i: nat)
    requires h < |bs| && i <= |bs|
  {
    forall j | 0 <= j < i :: Occ(bs, Fwd(|bs|, h, j))
  }

  /** The buckets of a full run refer to different values. */
  lemma {:induction false} IndicesOfRun(bs: seq<Bucket>, vs: seq<Entry>, hs: Hasher, pos: seq<nat>, hole: int, gap: int, h: nat, i: nat)
    returns (indices: set<nat>)
    requires Matched(bs, vs, hs, pos, hole, gap) && h < |bs| && i <= |bs| && FullRun(bs, h, i)
    requires forall j | 0 <= j < i :: Fwd(|bs|, h, j) != hole
    ensures |indices| == i && forall v :: v in indices ==> v < |vs| && v != gap && pos[v] < |bs| && Off(|bs|, h, pos[v]) < i
  {
    indices := {};
    if i > 0 {
      indices := IndicesOfRun(bs, vs, hs, pos, hole, gap, h, i - 1);
      assert Occ(bs, Fwd(|bs|, h, i - 1));
      indices := indices + {bs[Fwd(|bs|, h, i - 1)].idx};
    }
  }

  /** No more buckets in a full run than values with a bucket. */
  lemma RunCount(bs: seq<Bucket>, vs: seq<Entry>, hs: Hasher, pos: seq<nat>, hole: int, gap: int, h: nat, i: nat)
    requires Matched(bs, vs, hs, pos, hole, gap) && h < |bs| && i <= |bs| && FullRun(bs, h, i)
    requires forall j | 0 <= j < i :: Fwd(|bs|, h, j) != hole
    ensures i <= |vs| && (0 <= gap < |vs| ==> i < |vs|)
  {
    var indices := IndicesOfRun(bs, vs, hs, pos, hole, gap, h, i);
    BoundedSet(indices, |vs|);
    if 0 <= gap < |vs| {
      BoundedSet(indices + {gap}, |vs|);
    }
  }

  /** A bucket that holds at least what a probe carries after `j` steps ends a full run. */
  lemma RunBehind(bs: seq<Bucket>, h: nat, j: nat)
    requires Ordered(bs) && h < |bs| && j < |bs|
    requires bs[Fwd(|bs|, h, j)].daf >= DIST_INC * (j + 1)
    ensures FullRun(bs, h, j + 1)
  {
    forall i | 0 <= i < j + 1 ensures Occ(bs, Fwd(|bs|, h, i)) {
      BackwardBound(bs, Fwd(|bs|, h, j), j - i);
      assert Back(|bs|, Fwd(|bs|, h, j), j - i) == Fwd(|bs|, h, i);
    }
  }

  /** Fewer values than buckets leaves an empty bucket. */
  lemma RoomLeft(bs: seq<Bucket>, vs: seq<Entry>, hs: Hasher, pos: seq<nat>) returns (e: nat)
    requires Indexed(bs, vs, hs, pos) && |vs| < |bs|
    ensures e < |bs| && bs[e].daf == 0
  {
    if forall p | 0 <= p < |bs| :: Occ(bs, p) {
      RunCount(bs, vs, hs, pos, -1, -1, 0, |bs|);
      assert false;
    }
    e :| 0 <= e < |bs| && !Occ(bs, e);
  }

  /** No stored distance exceeds the number of values. */
  lemma StoredDistance(bs: seq<Bucket>, vs: seq<Entry>, hs: Hasher, pos: seq<nat>, p: nat)
    requires Indexed(bs, vs, hs, pos) && Occ(bs, p)
    ensures bs[p].daf < DIST_INC * (|vs| + 1)
  {
    assert BucketOk(bs, vs, hs, p);
    var h := hs.home(vs[bs[p].idx].key);
    RunBehind(bs, h, Off(|bs|, h, p));
    RunCount(bs, vs, hs, pos, -1, -1, h, Off(|bs|, h, p) + 1);
  }

  /** The value at index `v` sits fewer than `d` steps from `h`. */
  ghost predicate Within(bs: seq<Bucket>, pos: seq<nat>, h: nat, v: nat, d: nat)
    requires h < |bs| && v < |pos|
  {
    ValueOk(bs, pos, v) && Off(|bs|, h, pos[v]) < d
  }

  /** When all values share a home, the last of them sits as many steps away as there are
      others, so its distance needs as many bits as the number of values. */
  lemma SharedHome(bs: seq<Bucket>, vs: seq<Entry>, hs: Hasher, pos: seq<nat>, h: nat) returns (v: nat)
    requires Indexed(bs, vs, hs, pos) && |vs| > 0 && forall e <- vs :: hs.home(e.key) == h
    ensures v < |vs| && ValueOk(bs, pos, v) && bs[pos[v]].daf >= DIST_INC * |vs|
  {
    assert hs.home(vs[0].key) == h < |bs|;
    assert forall u | 0 <= u < |vs| :: ValueOk(bs, pos, u);
    var d := |vs| - 1;
    if forall u | 0 <= u < |vs| :: Within(bs, pos, h, u, d) {
      var offs := Offsets(bs, vs, hs, pos, h, |vs|);
      forall o | o in offs ensures o < d {
        var u :| 0 <= u < |vs| && ValueOk(bs, pos, u) && o == Off(|bs|, h, pos[u]);
        assert Within(bs, pos, h, u, d);
      }
      BoundedSet(offs, d);
      assert false;
    }
    v :| 0 <= v < |vs| && !Within(bs, pos, h, v, d);
    assert ValueOk(bs, pos, v) && BucketOk(bs, vs, hs, pos[v]);
    assert hs.home(vs[v].key) == h;
  }

  lemma {:induction false} Offsets(bs: seq<Bucket>, vs: seq<Entry>, hs: Hasher, pos: seq<nat>, h: nat, i: nat)
    returns (offs: set<nat>)
    requires Indexed(bs, vs, hs, pos) && h < |bs| && i <= |vs|
    requires forall u | 0 <= u < |vs| :: ValueOk(bs, pos, u)
    ensures |offs| == i && forall o :: o in offs ==> exists u :: 0 <= u < i && ValueOk(bs, pos, u) && o == Off(|bs|, h, pos[u])
  {
    offs := {};
    if i > 0 {
      offs := Offsets(bs, vs, hs, pos, h, i - 1);
      assert ValueOk(bs, pos, i - 1);
      offs := offs + {Off(|bs|, h, pos[i - 1])};
    }
  }

  /** An index without values. */
  lemma EmptyIndexed(bs: seq<Bucket>, hs: Hasher)
    requires |bs| >= 2 && HasherOk(hs, |bs|) && forall p | 0 <= p < |bs| :: bs[p] == EMPTY
    ensures Indexed(bs, [], hs, [])
  {
    assert bs[0].daf < 2 * DIST_INC;
    forall p | 0 <= p < |bs| ensures StepOk(bs, p) && !Occ(bs, p) {
    }
  }

  /** A new value for a stored key. */
  lemma Reassigned(bs: seq<Bucket>, vs: seq<Entry>, hs: Hasher, pos: seq<nat>, i: nat, val: Value)
    requires Indexed(bs, vs, hs, pos) && DistinctKeys(vs) && i < |vs|
    ensures var vs' := vs[i := Entry(vs[i].key, val)];
            Indexed(bs, vs', hs, pos) && DistinctKeys(vs') && Contents(vs') == Contents(vs)[vs[i].key := val]
  {
    var vs' := vs[i := Entry(vs[i].key, val)];
    assert forall v | 0 <= v < |vs| :: vs'[v].key == vs[v].key;
    forall p | Occ(bs, p) ensures BucketOk(bs, vs', hs, p) {
      assert BucketOk(bs, vs, hs, p);
    }
    WithValue(vs, i, val);
  }
}
