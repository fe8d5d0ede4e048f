/** Whole runs of Verstable operations against the abstract map. */
module VerstableRuns {
  import opened Entries
  import opened Triangular
  import opened VerstableChains
  import opened VerstableGrowth
  import opened VerstablePlain
  import opened VerstableMap

  datatype Op =
    | InsertOp(key: Key, val: Value, replace: bool)
    | EraseOp(key: Key)
    | ClearOp
    | ReserveOp(n: nat)
    | ShrinkOp

  /** What an operation means for the abstract map. */
  function Apply(op: Op, m: map<Key, Value>): map<Key, Value>
  {
    match op
    case InsertOp(k, v, replace) => if k in m && !replace then m else m[k := v]
    case EraseOp(k) => m - {k}
    case ClearOp => map[]
    case ReserveOp(_) => m
    case ShrinkOp => m
  }

  /** What the operations mean, seen by lookups: an insertion keeps a stored value unless it
      is told to replace it, an erasure removes the key alone. */
  lemma OperationsMean(m: map<Key, Value>, k: Key, v: Value, replace: bool, other: Key)
    requires other != k
    ensures k in Apply(InsertOp(k, v, replace), m)
    ensures Apply(InsertOp(k, v, replace), m)[k] == if replace || k !in m then v else m[k]
    ensures k !in Apply(EraseOp(k), m)
    ensures other in Apply(InsertOp(k, v, replace), m) <==> other in m
    ensures other in m ==> Apply(InsertOp(k, v, replace), m)[other] == m[other]
    ensures other in Apply(EraseOp(k), m) <==> other in m
    ensures other in m ==> Apply(EraseOp(k), m)[other] == m[other]
    ensures Apply(ClearOp, m) == map[] && Apply(ShrinkOp, m) == m && forall n: nat :: Apply(ReserveOp(n), m) == m
  {
  }

  function ApplyAll(ops: seq<Op>, m: map<Key, Value>): map<Key, Value>
  {
    if ops == [] then m else Apply(ops[|ops| - 1], ApplyAll(ops[..|ops| - 1], m))
  }

  /** What an operation means for the plain table, bucket by bucket. */
  ghost function StepPlain(s: Slots, op: Op, env: Env): (r: Outcome)
    requires EnvOk(env) && |s| > 0
    ensures |r.slots| > 0
    ensures r.Refused? ==> op.InsertOp? && !env.grants(r.asked)
  {
    match op
    case InsertOp(k, v, replace) => Inserted(s, k, v, replace, env)
    case EraseOp(k) => Done(Erased(s, env.hash, k))
    case ClearOp => Done(Blank(|s|))
    case ReserveOp(n) => Done(Reserved(s, n, env))
    case ShrinkOp => Done(Shrunk(s, env))
  }

  /** How many operations have been carried out, and with which outcome. */
  datatype Ending = Ending(done: nat, outcome: Outcome)

  /** A run of the plain table from operation `i` on, up to the first refusal. */
  ghost function RunPlain(s: Slots, ops: seq<Op>, i: nat, env: Env): Ending
    requires EnvOk(env) && |s| > 0 && i <= |ops|
    decreases |ops| - i
  {
    if i == |ops| then Ending(i, Done(s))
    else
      var r := StepPlain(s, ops[i], env);
      if r.Refused? then Ending(i, r) else RunPlain(r.slots, ops, i + 1, env)
  }

  /** One operation does to the table what it does to the plain one. `ok` is false only for
      the insertion of a new key for which the capacity `asked` was denied; the table is then
      just weakly valid. */
  method Step(start: Map, op: Op, grants: nat -> bool, ghost limit: nat) returns (cntr: Map, ok: bool, ghost asked: nat)
    requires start.Valid() && start.WithinLoad() && forall c :: c > limit ==> !grants(c)
    modifies start, start.metadata, start.buckets
    ensures cntr == start || (fresh(cntr) && fresh(cntr.metadata) && fresh(cntr.buckets))
    ensures cntr.Weak() && cntr.WithinLoad() && cntr.hash == start.hash && cntr.maxLoad == start.maxLoad
    ensures ok ==> cntr.Valid() && cntr.Model() == Apply(op, old(start.Model()))
    ensures !ok ==> cntr.Model() == old(start.Model())
    ensures StepPlain(old(start.Plain()), op, start.EnvOf(grants, limit)) ==
            if ok then Done(cntr.Plain()) else Refused(cntr.Plain(), asked)
    ensures !ok ==> op.InsertOp? && op.key !in old(start.Model()) && !grants(asked)
  {
    hide LeastCap, Fits, SlotsOf, Inserted, Erased, Reserved, Shrunk;
    cntr, ok, asked := start, true, 0;
    match op {
      case InsertOp(k, v, replace) =>
        var itr;
        cntr, itr, asked := start.Insert(k, v, replace, grants, limit);
        ok := itr.Some?;
      case EraseOp(k) =>
        var erased := start.Erase(k);
        start.StaysWithinLoad(old(start.size));
      case ClearOp =>
        start.ClearAll();
        start.StaysWithinLoad(old(start.size));
      case ReserveOp(n) =>
        var reserved;
        cntr, reserved, asked := start.Reserve(n, grants, limit);
      case ShrinkOp =>
        var shrunk;
        cntr, shrunk, asked := start.Shrink(grants, limit);
    }
  }

  /** The plain table before an operation that is refused. */
  ghost predicate RefusedFrom(before: Slots, op: Op, m: map<Key, Value>, env: Env, after: Slots, asked: nat)
  {
    && EnvOk(env) && AtRest(before, env) && WellPlaced(before, env.hash) && KeysOf(before) == m.Keys
    && StepPlain(before, op, env) == Refused(after, asked)
    && op.InsertOp? && op.key !in m && !env.grants(asked)
  }

  /** Every run ends as the run of the plain table does: after as many operations, with the
      same entries in the same buckets, and if it stops early, at an insertion of a new key
      for which the same capacity was denied. It keeps the strong invariant and the
      load-factor constraint, and acts on the abstract map operation by operation. */
  method Run(start: Map, ops: seq<Op>, grants: nat -> bool, ghost limit: nat)
    returns (cntr: Map, done: nat, ghost asked: nat, ghost before: Slots)
    requires start.Valid() && start.WithinLoad() && forall c :: c > limit ==> !grants(c)
    modifies start, start.metadata, start.buckets
    ensures done <= |ops| && cntr.Weak() && cntr.WithinLoad()
    ensures RunPlain(old(start.Plain()), ops, 0, start.EnvOf(grants, limit)) ==
            Ending(done, if done == |ops| then Done(cntr.Plain()) else Refused(cntr.Plain(), asked))
    ensures cntr.Model() == ApplyAll(ops[..done], old(start.Model()))
    ensures done == |ops| ==> cntr.Valid()
    ensures done < |ops| ==>
              RefusedFrom(before, ops[done], ApplyAll(ops[..done], old(start.Model())), start.EnvOf(grants, limit), cntr.Plain(), asked)
  {
    hide Fits, IsPow2, SlotsOf, StepPlain;
    cntr, done, asked, before := start, 0, 0, start.Plain();
    ghost var m, s, env := start.Model(), start.Plain(), start.EnvOf(grants, limit);
    while done < |ops|
      invariant done <= |ops| && cntr.Valid() && cntr.WithinLoad()
      invariant cntr.Model() == ApplyAll(ops[..done], m)
      invariant RunPlain(s, ops, 0, env) == RunPlain(cntr.Plain(), ops, done, env)
      invariant cntr.hash == start.hash && cntr.maxLoad == start.maxLoad
      invariant cntr == start || (fresh(cntr) && fresh(cntr.metadata) && fresh(cntr.buckets))
    {
      assert ops[..done + 1][..done] == ops[..done];
      before := cntr.Plain();
      cntr.PlainAtRest(grants, limit);
      var ok;
      cntr, ok, asked := Step(cntr, ops[done], grants, limit);
      if !ok {
        return;
      }
      done := done + 1;
    }
    assert ops[..done] == ops;
  }

  /** A run that never holds more entries than the displacement limit completes if the
      allocator grants the powers of two up to one that fits the entries. */
  method RunWithFewEntries(start: Map, ops: seq<Op>, grants: nat -> bool, ghost limit: nat, ghost need: nat)
    returns (cntr: Map)
    requires start.Valid() && start.WithinLoad() && start.maxLoad <= 1.0 && forall c :: c > limit ==> !grants(c)
    requires IsPow2(need) && need >= MIN_NONZERO_BUCKET_COUNT
    requires forall c: nat :: IsPow2(c) && MIN_NONZERO_BUCKET_COUNT <= c <= need ==> grants(c)
    requires forall i | 0 <= i <= |ops| :: FewEntries(ApplyAll(ops[..i], start.Model()), start.maxLoad, need)
    modifies start, start.metadata, start.buckets
    ensures cntr.Valid() && cntr.WithinLoad() && cntr.Model() == ApplyAll(ops, old(start.Model()))
  {
    hide RefusedFrom, Fits, IsPow2, SlotsOf, RunPlain, FewEntries;
    ghost var m := start.Model();
    var done;
    ghost var asked, before;
    cntr, done, asked, before := Run(start, ops, grants, limit);
    if done < |ops| {
      assert ops[..done + 1][..done] == ops[..done];
      assert FewEntries(ApplyAll(ops[..done + 1], m), start.maxLoad, need);
      FewEntriesFit(before, ops[done], ApplyAll(ops[..done], m), start.EnvOf(grants, limit), cntr.Plain(), asked, need);
      assert false;
    }
    assert ops[..done] == ops;
  }

  ghost predicate FewEntries(m: map<Key, Value>, maxLoad: real, need: nat)
  {
    |m| <= LIMIT && Fits(|m|, maxLoad, need)
  }

  /** While few entries are stored, what is denied is a capacity no larger than what fits
      them together with the new key. */
  lemma FewEntriesFit(before: Slots, op: Op, m: map<Key, Value>, env: Env, after: Slots, asked: nat, need: nat)
    requires RefusedFrom(before, op, m, env, after, asked) && env.maxLoad <= 1.0
    requires FewEntries(Apply(op, m), env.maxLoad, need) && IsPow2(need) && need >= MIN_NONZERO_BUCKET_COUNT
    ensures MIN_NONZERO_BUCKET_COUNT <= asked <= need && IsPow2(asked) && !env.grants(asked)
  {
    hide IsPow2, Fits, Inserted, AtRest, WellPlaced, KeysOf;
    assert |Apply(op, m)| == |m| + 1;
    assert |m.Keys| == |m|;
    RefusalMeans(before, op.key, op.val, op.replace, env, need);
  }
}
