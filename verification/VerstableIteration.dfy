/** Iterating over a Verstable table while erasing some of the entries met. */
module VerstableIteration {
  import opened Entries
  import opened VerstableChains
  import opened VerstableContents

  /** The entries of `m` that `choose` spares. */
  ghost function Spared(m: map<Key, Value>, choose: Entry -> bool, seen: set<Key>): map<Key, Value>
  {
    map k | k in m && !(k in seen && choose(Entry(k, m[k]))) :: m[k]
  }

  /** An iteration over the map `m` has seen the keys in `seen` and stands before bucket
      `i`: the chosen entries among those seen are gone, the buckets before `i` hold the
      others, and the buckets from `i` on hold exactly the entries not yet seen. */
  ghost predicate Progress(t: Table, where: map<Key, nat>, m: map<Key, Value>, choose: Entry -> bool,
                           seen: set<Key>, i: nat)
  {
    && Indexed(t, where) && seen <= m.Keys
    && Contents(t, where) == Spared(m, choose, seen)
    && forall c :: Occ(t, c) ==> (c < i <==> t.kv[c].key in seen)
  }

  lemma StartsWithNothingSeen(t: Table, where: map<Key, nat>, choose: Entry -> bool)
    requires Indexed(t, where)
    ensures Progress(t, where, Contents(t, where), choose, {}, 0)
  {
  }

  lemma SkipsEmptyBuckets(t: Table, where: map<Key, nat>, m: map<Key, Value>, choose: Entry -> bool,
                          seen: set<Key>, i: nat, j: nat)
    requires Progress(t, where, m, choose, seen, i) && i <= j
    requires forall c | i <= c < j :: !Occ(t, c)
    ensures Progress(t, where, m, choose, seen, j)
  {
  }

  /** The entry met next has not been seen and is an entry of `m`. */
  lemma MeetsNewEntry(t: Table, where: map<Key, nat>, m: map<Key, Value>, choose: Entry -> bool,
                      seen: set<Key>, i: nat)
    requires Progress(t, where, m, choose, seen, i) && Occ(t, i)
    ensures t.kv[i].key !in seen && t.kv[i].key in m && m[t.kv[i].key] == t.kv[i].val
  {
    assert t.kv[i].key in Contents(t, where);
  }

  lemma VisitAndKeep(t: Table, where: map<Key, nat>, m: map<Key, Value>, choose: Entry -> bool,
                     seen: set<Key>, i: nat)
    requires Progress(t, where, m, choose, seen, i) && Occ(t, i) && !choose(t.kv[i])
    ensures Progress(t, where, m, choose, seen + {t.kv[i].key}, i + 1)
  {
    MeetsNewEntry(t, where, m, choose, seen, i);
    var k := t.kv[i].key;
    assert Spared(m, choose, seen + {k}) == Spared(m, choose, seen);
    forall c | Occ(t, c) ensures c < i + 1 <==> t.kv[c].key in seen + {k} {
      assert t.kv[c].key == k ==> c == i;
    }
  }

  /** After an erasure the iteration advances exactly if the bucket that became empty does
      not lie ahead; otherwise the erased entry's bucket now holds one not yet seen. */
  lemma VisitAndErase(t: Table, where: map<Key, nat>, t': Table, where': map<Key, nat>,
                      hash: Key -> Hash64, dist: seq<nat>, m: map<Key, Value>, choose: Entry -> bool,
                      seen: set<Key>, i: nat, moved: nat)
    requires Progress(t, where, m, choose, seen, i) && Occ(t, i) && choose(t.kv[i])
    requires Erasure(t, where, t', where', hash, dist, i, moved)
    ensures Progress(t', where', m, choose, seen + {t.kv[i].key}, if moved <= i then i + 1 else i)
    ensures moved > i ==> Occ(t', i)
  {
    MeetsNewEntry(t, where, m, choose, seen, i);
    var k := t.kv[i].key;
    assert Spared(m, choose, seen + {k}) == Spared(m, choose, seen) - {k};
    var next := if moved <= i then i + 1 else i;
    forall c | Occ(t', c) ensures c < next <==> t'.kv[c].key in seen + {k} {
      if c == i {
        assert t'.kv[c] == t.kv[moved] && t.kv[moved].key != k;
      } else {
        assert t.kv[c].key != k;
      }
    }
  }

  /** At the end everything has been seen and the chosen entries are gone. */
  lemma EndsWithAllSeen(t: Table, where: map<Key, nat>, m: map<Key, Value>, choose: Entry -> bool, seen: set<Key>)
    requires Progress(t, where, m, choose, seen, |t.md|)
    ensures seen == m.Keys
    ensures Contents(t, where) == map k | k in m && !choose(Entry(k, m[k])) :: m[k]
  {
    forall k | k in m ensures k in seen {
      assert k in seen || k in Spared(m, choose, seen);
      assert k in Contents(t, where) ==> Occ(t, where[k]);
    }
  }
}
