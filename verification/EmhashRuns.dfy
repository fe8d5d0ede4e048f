/** Whole runs of emhash8 operations against the abstract map. */
module EmhashRuns {
  import opened Entries
  import opened EntryVectors
  import opened EmhashIndex
  import opened EmhashSizes
  import opened EmhashMap
  import opened Triangular

  datatype Op =
    | InsertOp(key: Key, val: Value)
    | AssignOp(key: Key, val: Value)
    | EraseOp(key: Key)
    | EraseIfOp(pred: Entry -> bool)
    | ReserveOp(n: nat)
    | RehashOp(n: nat)
    | ClearOp

  ghost function Apply(op: Op, m: map<Key, Value>): map<Key, Value>
  {
    match op
    case InsertOp(k, v) => if k in m then m else m[k := v]
    case AssignOp(k, v) => m[k := v]
    case EraseOp(k) => m - {k}
    case EraseIfOp(pred) => Unmatched(m, pred)
    case ReserveOp(_) => m
    case RehashOp(_) => m
    case ClearOp => map[]
  }

  /** What the operations mean, seen by lookups: an insertion keeps a stored value, an
      assignment replaces it, an erasure removes the key alone. */
  lemma OperationsMean(m: map<Key, Value>, k: Key, v: Value, other: Key)
    requires other != k
    ensures k in Apply(InsertOp(k, v), m) && Apply(InsertOp(k, v), m)[k] == if k in m then m[k] else v
    ensures k in Apply(AssignOp(k, v), m) && Apply(AssignOp(k, v), m)[k] == v
    ensures k !in Apply(EraseOp(k), m)
    ensures Apply(ClearOp, m) == map[]
    ensures other in Apply(InsertOp(k, v), m) <==> other in m
    ensures other in m ==> Apply(InsertOp(k, v), m)[other] == m[other]
    ensures other in Apply(AssignOp(k, v), m) <==> other in m
    ensures other in m ==> Apply(AssignOp(k, v), m)[other] == m[other]
    ensures other in Apply(EraseOp(k), m) <==> other in m
    ensures other in m ==> Apply(EraseOp(k), m)[other] == m[other]
    ensures forall n: nat :: Apply(ReserveOp(n), m) == m && Apply(RehashOp(n), m) == m
  {
  }

  ghost function ApplyAll(ops: seq<Op>, m: map<Key, Value>): map<Key, Value>
  {
    if ops == [] then m else Apply(ops[|ops| - 1], ApplyAll(ops[..|ops| - 1], m))
  }

  /** Whether the table may carry out the operation: what makes it grow is limited by the
      32-bit bucket numbers, and a direct rehash has to be safe. */
  predicate Permitted(t: HashMap, op: Op)
    reads t
  {
    match op
    case InsertOp(_, _) => t.Allowed(t.numFilled)
    case AssignOp(_, _) => t.Allowed(t.numFilled)
    case ReserveOp(n) => t.Allowed(n)
    case RehashOp(n) => (n < t.numFilled || n < MAX_SIZE) && RehashSafe(t.numFilled, n, t.mlf)
    case _ => true
  }

  /** The limits, without the sizes computed: an insertion into a table that has to grow, and
      a reservation or rehash, may ask for fewer than 2^31 buckets. */
  lemma PermittedMeans(t: HashMap, key: Key, val: Value, n: nat)
    requires t.numBuckets > 0
    ensures Permitted(t, InsertOp(key, val)) <==>
            || t.numFilled * t.mlf < (t.numBuckets - 1) * 0x800_0000
            || t.numFilled * t.mlf < (0x8000_0000 - 2) * 0x800_0000
    ensures Permitted(t, AssignOp(key, val)) <==> Permitted(t, InsertOp(key, val))
    ensures Permitted(t, ReserveOp(n)) <==>
            n * t.mlf < (t.numBuckets - 1) * 0x800_0000 || n * t.mlf < (0x8000_0000 - 2) * 0x800_0000
    ensures Permitted(t, RehashOp(n)) <==> (n < t.numFilled || n < 0x8000_0000) && RehashSafe(t.numFilled, n, t.mlf)
  {
    RequiredMeans(t.numFilled, t.mlf, t.numBuckets - 1);
    RequiredMeans(t.numFilled, t.mlf, MAX_SIZE - 2);
    RequiredMeans(n, t.mlf, t.numBuckets - 1);
    RequiredMeans(n, t.mlf, MAX_SIZE - 2);
    hide Required, RehashSafe;
  }

  method Step(t: HashMap, op: Op)
    requires t.Valid() && Permitted(t, op)
    modifies t, t.index, t.pairs
    ensures t.Valid() && t.Model() == Apply(op, old(t.Model()))
    ensures (t.index == old(t.index) || fresh(t.index)) && (t.pairs == old(t.pairs) || fresh(t.pairs))
  {
    hide Indexed, IsPow2, PairCapacity, DistinctKeys, LoadOk, Contents;
    match op {
      case InsertOp(k, v) => var slot, inserted := t.Insert(k, v);
      case AssignOp(k, v) => var slot, inserted := t.InsertOrAssign(k, v);
      case EraseOp(k) => var n := t.Erase(k);
      case EraseIfOp(pred) => var count := t.EraseIf(pred);
      case ReserveOp(n) => var grown := t.Reserve(n);
      case RehashOp(n) => t.Rehash(n);
      case ClearOp => t.ClearAll();
    }
  }

  /** Every run keeps the chains, the bijection and the cached tail, and acts on the abstract
      map operation by operation; it stops only at an operation that would have to outgrow
      the 32-bit bucket numbers or at an unsafe rehash. */
  method Run(t: HashMap, ops: seq<Op>) returns (done: nat)
    requires t.Valid()
    modifies t, t.index, t.pairs
    ensures t.Valid() && done <= |ops|
    ensures t.Model() == ApplyAll(ops[..done], old(t.Model()))
    ensures done < |ops| ==> !Permitted(t, ops[done])
  {
    hide Indexed, IsPow2, PairCapacity, DistinctKeys, LoadOk, Contents;
    done := 0;
    ghost var m := t.Model();
    while done < |ops| && Permitted(t, ops[done])
      invariant done <= |ops| && t.Valid() && t.Model() == ApplyAll(ops[..done], m)
      invariant (t.index == old(t.index) || fresh(t.index)) && (t.pairs == old(t.pairs) || fresh(t.pairs))
    {
      assert ops[..done + 1][..done] == ops[..done];
      Step(t, ops[done]);
      done := done + 1;
    }
  }

  /** A stored state in which a direct rehash falls short: any 64 entries with distinct keys,
      at a load factor of 0.8, and 64 buckets requested. */
  method FallsShort(hash: Key -> Hash32, entries: seq<Entry>) returns (t: HashMap)
    requires |entries| == 64 && DistinctKeys(entries)
    ensures t.Valid() && t.Model() == Contents(entries) && t.numFilled == 64 && t.mlf == FOUR_FIFTHS
    ensures !RehashSafe(t.numFilled, 64, t.mlf)
  {
    hide Indexed, IsPow2, PairCapacity, DistinctKeys, RehashSafe, Contents, LoadOk;
    RehashCanFallShort();
    t := new HashMap(hash, FOUR_FIFTHS, 0);
    var i := 0;
    NothingStored(entries);
    CountedPairs(t);
    while i < 64
      invariant i <= 64 && t.Valid() && t.numFilled == i && t.mlf == FOUR_FIFTHS && fresh(t) && fresh(t.index) && fresh(t.pairs)
      invariant DistinctKeys(entries[..i]) && t.Model() == Contents(entries[..i])
    {
      NextStored(entries, i);
      var slot, inserted := t.Insert(entries[i].key, entries[i].val);
      CountedPairs(t);
      i := i + 1;
    }
    assert entries[..64] == entries;
  }

  lemma CountedPairs(t: HashMap)
    requires t.Valid()
    ensures t.numFilled == |t.Model()|
  {
    ContentsSize(t.pairs[..t.numFilled]);
  }

  lemma NothingStored(vs: seq<Entry>)
    ensures DistinctKeys(vs[..0]) && Contents(vs[..0]) == map[]
  {
  }

  lemma NextStored(vs: seq<Entry>, i: nat)
    requires i < |vs| && DistinctKeys(vs)
    ensures DistinctKeys(vs[..i]) && vs[i].key !in Contents(vs[..i])
    ensures DistinctKeys(vs[..i + 1])
    ensures Contents(vs[..i + 1]) == Contents(vs[..i])[vs[i].key := vs[i].val]
    ensures |Contents(vs[..i])| == i && |Contents(vs[..i + 1])| == i + 1
  {
    assert vs[..i + 1] == vs[..i] + [vs[i]];
    Appended(vs[..i], vs[i]);
    ContentsSize(vs[..i]);
    ContentsSize(vs[..i + 1]);
  }
}
