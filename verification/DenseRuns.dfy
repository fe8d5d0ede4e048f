/** Whole runs of dense-table operations against the abstract map. */
module DenseRuns {
  import opened Entries
  import opened EntryVectors
  import opened DenseIndex
  import opened DenseSpacing
  import opened DenseTable

  datatype Op =
    | TryEmplaceOp(key: Key, val: Value)
    | AssignOp(key: Key, val: Value)
    | EraseOp(key: Key)
    | EraseIfOp(pred: Entry -> bool)
    | ClearOp

  ghost function Apply(op: Op, m: map<Key, Value>): map<Key, Value>
  {
    match op
    case TryEmplaceOp(k, v) => if k in m then m else m[k := v]
    case AssignOp(k, v) => m[k := v]
    case EraseOp(k) => m - {k}
    case EraseIfOp(pred) => Unmatched(m, pred)
    case ClearOp => map[]
  }

  /** What the operations mean, seen by lookups: an insertion keeps a stored value, an
      assignment replaces it, an erasure removes the key alone. */
  lemma OperationsMean(m: map<Key, Value>, k: Key, v: Value, other: Key)
    requires other != k
    ensures k in Apply(TryEmplaceOp(k, v), m) && Apply(TryEmplaceOp(k, v), m)[k] == if k in m then m[k] else v
    ensures k in Apply(AssignOp(k, v), m) && Apply(AssignOp(k, v), m)[k] == v
    ensures k !in Apply(EraseOp(k), m)
    ensures Apply(ClearOp, m) == map[]
    ensures other in Apply(TryEmplaceOp(k, v), m) <==> other in m
    ensures other in m ==> Apply(TryEmplaceOp(k, v), m)[other] == m[other]
    ensures other in Apply(AssignOp(k, v), m) <==> other in m
    ensures other in m ==> Apply(AssignOp(k, v), m)[other] == m[other]
    ensures other in Apply(EraseOp(k), m) <==> other in m
    ensures other in m ==> Apply(EraseOp(k), m)[other] == m[other]
  {
  }

  ghost function ApplyAll(ops: seq<Op>, m: map<Key, Value>): map<Key, Value>
  {
    if ops == [] then m else Apply(ops[|ops| - 1], ApplyAll(ops[..|ops| - 1], m))
  }

  predicate Inserting(op: Op) {
    op.TryEmplaceOp? || op.AssignOp?
  }

  /** The table is full to the limit of its index type. */
  predicate Full(t: Table)
    reads t
  {
    |t.values| >= t.maxBucketCapacity == t.maxBucketCount
  }

  /** The keys are well spaced in a table of any size that has a bucket for each. */
  ghost predicate SpacedThroughout(keys: set<Key>, hash: Key -> Hash64, maxBuckets: nat)
    requires maxBuckets > 0
  {
    forall sh {:trigger NumBuckets(sh, maxBuckets)} :: 0 <= sh <= INITIAL_SHIFTS && |keys| <= NumBuckets(sh, maxBuckets) ==>
      Spaced(keys, Hashing(hash, sh, maxBuckets), NumBuckets(sh, maxBuckets))
  }

  /** Up to 2^24 - 2 keys are, whatever the hash function. */
  lemma FewAreSpacedThroughout(keys: set<Key>, hash: Key -> Hash64, maxBuckets: nat)
    requires maxBuckets > 0 && |keys| <= REACH
    ensures SpacedThroughout(keys, hash, maxBuckets)
  {
    hide NumBuckets, Hashing, Spaced;
    forall sh | 0 <= sh <= INITIAL_SHIFTS ensures Spaced(keys, Hashing(hash, sh, maxBuckets), NumBuckets(sh, maxBuckets)) {
      HashingOk(hash, sh, maxBuckets);
      FewAreSpaced(keys, Hashing(hash, sh, maxBuckets), NumBuckets(sh, maxBuckets));
    }
  }

  lemma InsertionIsSpaced(t: Table, key: Key)
    requires t.Valid() && !Full(t) && SpacedThroughout(t.Model().Keys + {key}, t.hash, t.maxBucketCount)
    ensures t.SpacedAt(KeySet(t.values) + {key}, t.InsertShifts())
  {
    hide NumBuckets, Hashing, Spaced, Indexed, Fitting, LimitFor, KeySet;
    ContentsKeys(t.values);
    t.RoomForOneMore();
    assert |KeySet(t.values) + {key}| <= |t.values| + 1;
  }

  /** One operation; `ok` is false exactly for an insertion into a full table. */
  method Step(t: Table, op: Op) returns (ok: bool)
    requires t.Valid()
    requires Inserting(op) ==> SpacedThroughout(t.Model().Keys + {op.key}, t.hash, t.maxBucketCount)
    modifies t, t.buckets
    ensures t.Valid() && (t.buckets == old(t.buckets) || fresh(t.buckets))
    ensures t.Model() == if ok then Apply(op, old(t.Model())) else old(t.Model())
    ensures ok <==> !(Inserting(op) && old(Full(t)))
    ensures !ok ==> Full(t)
  {
    hide Indexed, NumBuckets, BucketIdx, Fitting, Spaced, SpacedThroughout, LimitFor, Hashing;
    ok := true;
    if Inserting(op) && !Full(t) {
      InsertionIsSpaced(t, op.key);
    }
    match op {
      case TryEmplaceOp(k, v) =>
        var r := t.DoTryEmplace(k, v);
        ok := r.Emplaced?;
        if ok {
          if r.inserted {
            Appended(old(t.values), Entry(k, v));
          } else {
            Lookup(t.values, r.idx);
          }
        }
      case AssignOp(k, v) =>
        var r := t.DoInsertOrAssign(k, v);
        ok := r.Emplaced?;
      case EraseOp(k) =>
        var count := t.DoEraseKey(k);
      case EraseIfOp(pred) =>
        var count := t.EraseIf(pred);
      case ClearOp =>
        t.ClearAll();
    }
  }

  /** The keys stored after each insertion are well spaced. */
  ghost predicate SpacedRun(ops: seq<Op>, m: map<Key, Value>, hash: Key -> Hash64, maxBuckets: nat)
    requires maxBuckets > 0
  {
    forall i | 0 <= i < |ops| && Inserting(ops[i]) :: SpacedThroughout(ApplyAll(ops[..i], m).Keys + {ops[i].key}, hash, maxBuckets)
  }

  /** In particular they are as long as no insertion makes them more than 2^24 - 2. */
  lemma FewAreSpacedRun(ops: seq<Op>, m: map<Key, Value>, hash: Key -> Hash64, maxBuckets: nat)
    requires maxBuckets > 0
    requires forall i | 0 <= i < |ops| && Inserting(ops[i]) :: |ApplyAll(ops[..i], m).Keys + {ops[i].key}| <= REACH
    ensures SpacedRun(ops, m, hash, maxBuckets)
  {
    hide SpacedThroughout;
    forall i | 0 <= i < |ops| && Inserting(ops[i])
      ensures SpacedThroughout(ApplyAll(ops[..i], m).Keys + {ops[i].key}, hash, maxBuckets)
    {
      FewAreSpacedThroughout(ApplyAll(ops[..i], m).Keys + {ops[i].key}, hash, maxBuckets);
    }
  }

  /** Every run whose keys stay well spaced keeps the index invariant and acts on the abstract
      map operation by operation. It stops only at an insertion into a table that is full to
      the limit of its index type. */
  method Run(t: Table, ops: seq<Op>) returns (done: nat)
    requires t.Valid() && SpacedRun(ops, t.Model(), t.hash, t.maxBucketCount)
    modifies t, t.buckets
    ensures t.Valid() && done <= |ops|
    ensures t.Model() == ApplyAll(ops[..done], old(t.Model()))
    ensures done < |ops| ==> Inserting(ops[done]) && Full(t)
  {
    hide Indexed, NumBuckets, BucketIdx, Fitting, Spaced, SpacedThroughout, LimitFor, Hashing;
    done := 0;
    ghost var m := t.Model();
    while done < |ops|
      invariant done <= |ops| && t.Valid() && t.Model() == ApplyAll(ops[..done], m)
      invariant t.buckets == old(t.buckets) || fresh(t.buckets)
    {
      assert ops[..done + 1][..done] == ops[..done];
      var ok := Step(t, ops[done]);
      if !ok {
        return;
      }
      done := done + 1;
    }
  }
}
