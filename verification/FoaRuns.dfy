/** Whole runs of operations on Boost's table against the abstract map. */
module FoaRuns {
  import opened Entries
  import opened FoaIndex
  import opened FoaSizes
  import opened FoaCore

  datatype Op =
    | EmplaceOp(key: Key, val: Value)
    | EraseOp(key: Key)
    | ClearOp
    | RehashOp(n: nat)
    | ReserveOp(n: nat)

  function Apply(op: Op, m: map<Key, Value>): map<Key, Value>
  {
    match op
    case EmplaceOp(k, v) => if k in m then m else m[k := v]
    case EraseOp(k) => m - {k}
    case ClearOp => map[]
    case RehashOp(_) => m
    case ReserveOp(_) => m
  }

  /** What the operations mean, seen by lookups: an insertion keeps a stored value, an
      assignment replaces it, an erasure removes the key alone. */
  lemma OperationsMean(m: map<Key, Value>, k: Key, v: Value, other: Key)
    requires other != k
    ensures k in Apply(EmplaceOp(k, v), m) && Apply(EmplaceOp(k, v), m)[k] == if k in m then m[k] else v
    ensures k !in Apply(EraseOp(k), m)
    ensures Apply(ClearOp, m) == map[]
    ensures other in Apply(EmplaceOp(k, v), m) <==> other in m
    ensures other in m ==> Apply(EmplaceOp(k, v), m)[other] == m[other]
    ensures other in Apply(EraseOp(k), m) <==> other in m
    ensures other in m ==> Apply(EraseOp(k), m)[other] == m[other]
    ensures forall n: nat :: Apply(ReserveOp(n), m) == m && Apply(RehashOp(n), m) == m
  {
  }

  function ApplyAll(ops: seq<Op>, m: map<Key, Value>): map<Key, Value>
  {
    if ops == [] then m else Apply(ops[|ops| - 1], ApplyAll(ops[..|ops| - 1], m))
  }

  /** The capacity the operation may ask for fits a 64-bit word. */
  predicate Permitted(t: TableCore, op: Op)
    reads t
  {
    match op
    case EmplaceOp(_, _) => t.size < t.ml || GrowthRequest(t.size) <= MAX_REQUEST
    case RehashOp(n) => n <= MAX_REQUEST && CeilDivLoad(t.size) <= MAX_REQUEST
    case ReserveOp(n) => CeilDivLoad(n) <= MAX_REQUEST && CeilDivLoad(t.size) <= MAX_REQUEST
    case _ => true
  }

  method Step(t: TableCore, op: Op)
    requires t.Valid() && Permitted(t, op)
    modifies t, t.arrays, t.arrays.groups, t.arrays.elements
    ensures t.Valid() && t.Model() == Apply(op, old(t.Model()))
    ensures t.arrays == old(t.arrays) || (fresh(t.arrays) && fresh(t.arrays.groups) && fresh(t.arrays.elements))
  {
    hide Indexed, Sized, InitialMaxLoad;
    match op {
      case EmplaceOp(k, v) => var loc, inserted := t.Emplace(k, v);
      case EraseOp(k) => var n := t.Erase(k);
      case ClearOp => t.ClearAll();
      case RehashOp(n) => t.Rehash(n);
      case ReserveOp(n) => t.Reserve(n);
    }
  }

  /** Every run keeps the overflow invariant and `size <= ml <= capacity`, and acts on the
      abstract map operation by operation; it stops only at an operation that may ask for a
      capacity beyond 64 bits. */
  method Run(t: TableCore, ops: seq<Op>) returns (done: nat)
    requires t.Valid()
    modifies t, t.arrays, t.arrays.groups, t.arrays.elements
    ensures t.Valid() && done <= |ops|
    ensures t.Model() == ApplyAll(ops[..done], old(t.Model()))
    ensures done < |ops| ==> !Permitted(t, ops[done])
  {
    hide Indexed, Sized, InitialMaxLoad;
    done := 0;
    ghost var m := t.Model();
    while done < |ops| && Permitted(t, ops[done])
      invariant done <= |ops| && t.Valid() && t.Model() == ApplyAll(ops[..done], m)
      invariant t.arrays == old(t.arrays) || (fresh(t.arrays) && fresh(t.arrays.groups) && fresh(t.arrays.elements))
    {
      assert ops[..done + 1][..done] == ops[..done];
      Step(t, ops[done]);
      done := done + 1;
    }
  }
}
