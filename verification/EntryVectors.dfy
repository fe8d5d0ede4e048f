/** Vectors of entries without holes, as two of the tables keep them, and the abstract map
    that such a vector stands for. */
module EntryVectors {
  import opened Entries

  ghost predicate DistinctKeys(vs: seq<Entry>)
  {
    forall u, v | 0 <= u < v < |vs| :: vs[u].key != vs[v].key
  }

  ghost predicate Absent(vs: seq<Entry>, k: Key)
  {
    forall v | 0 <= v < |vs| :: vs[v].key != k
  }

  /** The vector after the last value has moved into the place of value `i`. */
  function RemoveAt(vs: seq<Entry>, i: nat): (r: seq<Entry>)
    requires i < |vs|
    ensures |r| == |vs| - 1
  {
    var last := |vs| - 1;
    if i == last then vs[..last] else vs[i := vs[last]][..last]
  }

  ghost function Contents(vs: seq<Entry>): map<Key, Value>
    requires DistinctKeys(vs)
  {
    map v | 0 <= v < |vs| :: vs[v].key := vs[v].val
  }

  /** The last value takes the place of the one removed; all others stay where they are. */
  lemma RemovedPlaces(vs: seq<Entry>, i: nat)
    requires i < |vs|
    ensures |RemoveAt(vs, i)| == |vs| - 1
    ensures forall j | 0 <= j < |vs| - 1 :: RemoveAt(vs, i)[j] == if j == i then vs[|vs| - 1] else vs[j]
  {
  }

  lemma ContentsMeans(vs: seq<Entry>, k: Key)
    requires DistinctKeys(vs)
    ensures k in Contents(vs) <==> exists v :: 0 <= v < |vs| && vs[v].key == k
    ensures forall v | 0 <= v < |vs| && vs[v].key == k :: Contents(vs)[k] == vs[v].val
  {
  }

  lemma Appended(vs: seq<Entry>, entry: Entry)
    requires DistinctKeys(vs) && Absent(vs, entry.key)
    ensures DistinctKeys(vs + [entry]) && Contents(vs + [entry]) == Contents(vs)[entry.key := entry.val]
  {
    var vs' := vs + [entry];
    assert forall v | 0 <= v < |vs| :: vs'[v] == vs[v];
    assert vs'[|vs|] == entry;
    assert DistinctKeys(vs');
    assert forall k :: k in Contents(vs') <==> k in Contents(vs) || k == entry.key;
  }

  lemma RemovedKeepsDistinct(vs: seq<Entry>, i: nat)
    requires DistinctKeys(vs) && i < |vs|
    ensures DistinctKeys(RemoveAt(vs, i))
  {
    var last := |vs| - 1;
    assert forall v | 0 <= v < last :: RemoveAt(vs, i)[v] == if v == i then vs[last] else vs[v];
  }

  lemma Removed(vs: seq<Entry>, i: nat)
    requires DistinctKeys(vs) && i < |vs|
    ensures DistinctKeys(RemoveAt(vs, i)) && Contents(RemoveAt(vs, i)) == Contents(vs) - {vs[i].key}
  {
    RemovedKeepsDistinct(vs, i);
    var vs' := RemoveAt(vs, i);
    var last := |vs| - 1;
    assert forall v | 0 <= v < last :: vs'[v] == if v == i then vs[last] else vs[v];
    forall k | k in Contents(vs) && k != vs[i].key ensures k in Contents(vs') {
      var v :| 0 <= v < |vs| && vs[v].key == k;
      assert vs'[if v == last then i else v].key == k;
    }
  }

  lemma Lookup(vs: seq<Entry>, i: nat)
    requires DistinctKeys(vs) && i < |vs|
    ensures vs[i].key in Contents(vs) && Contents(vs)[vs[i].key] == vs[i].val
  {
  }

  lemma IndexOf(vs: seq<Entry>, k: Key) returns (v: nat)
    requires DistinctKeys(vs) && k in Contents(vs)
    ensures v < |vs| && vs[v] == Entry(k, Contents(vs)[k])
    ensures forall u | 0 <= u < |vs| && vs[u].key == k :: u == v
  {
    v :| 0 <= v < |vs| && vs[v].key == k;
  }

  lemma ContentsSize(vs: seq<Entry>)
    requires DistinctKeys(vs)
    ensures |Contents(vs)| == |vs|
  {
    if vs == [] {
      assert Contents(vs) == map[];
    } else {
      var last := |vs| - 1;
      assert vs == vs[..last] + [vs[last]];
      ContentsSize(vs[..last]);
      Appended(vs[..last], vs[last]);
    }
  }

  /** A new value for a stored key. */
  lemma WithValue(vs: seq<Entry>, i: nat, val: Value)
    requires DistinctKeys(vs) && i < |vs|
    ensures var vs' := vs[i := Entry(vs[i].key, val)];
            DistinctKeys(vs') && Contents(vs') == Contents(vs)[vs[i].key := val]
  {
    var vs' := vs[i := Entry(vs[i].key, val)];
    assert forall v | 0 <= v < |vs| :: vs'[v].key == vs[v].key;
    assert DistinctKeys(vs');
    assert vs'[i].key in Contents(vs');
  }

  /** The entries of `m` that do not satisfy `pred`. */
  ghost function Unmatched(m: map<Key, Value>, pred: Entry -> bool): map<Key, Value>
  {
    map k | k in m && !pred(Entry(k, m[k])) :: m[k]
  }

  lemma UnmatchedMeans(m: map<Key, Value>, pred: Entry -> bool)
    ensures Unmatched(m, pred) == map k | k in m && !pred(Entry(k, m[k])) :: m[k]
  {
  }

  /** What going through a vector from position `i` on, erasing what satisfies `pred`, makes of
      it: after an erasure the same place is looked at again. */
  ghost function Sieved(vs: seq<Entry>, pred: Entry -> bool, i: nat): seq<Entry>
    decreases |vs| - i
  {
    if i >= |vs| then vs
    else if pred(vs[i]) then Sieved(RemoveAt(vs, i), pred, i)
    else Sieved(vs, pred, i + 1)
  }

  lemma SieveStep(vs: seq<Entry>, pred: Entry -> bool, i: nat)
    ensures Sieved(vs, pred, i) ==
            if i >= |vs| then vs else if pred(vs[i]) then Sieved(RemoveAt(vs, i), pred, i) else Sieved(vs, pred, i + 1)
  {
  }

  /** Some entries of `m`, all of which satisfy `pred`, are missing from `m'`. */
  ghost predicate Thinned(m: map<Key, Value>, m': map<Key, Value>, pred: Entry -> bool)
  {
    && (forall k :: k in m' ==> k in m && m[k] == m'[k])
    && (forall k :: k in m && k !in m' ==> pred(Entry(k, m[k])))
  }

  lemma ThinStep(m: map<Key, Value>, vs: seq<Entry>, pred: Entry -> bool, i: nat)
    requires DistinctKeys(vs) && i < |vs| && pred(vs[i]) && Thinned(m, Contents(vs), pred)
    ensures DistinctKeys(RemoveAt(vs, i)) && Thinned(m, Contents(RemoveAt(vs, i)), pred)
  {
    Removed(vs, i);
    Lookup(vs, i);
    hide Contents, RemoveAt, DistinctKeys;
    assert vs[i] == Entry(vs[i].key, m[vs[i].key]);
  }

  lemma ThinDone(m: map<Key, Value>, vs: seq<Entry>, pred: Entry -> bool)
    requires DistinctKeys(vs) && Thinned(m, Contents(vs), pred)
    requires forall v | 0 <= v < |vs| :: !pred(vs[v])
    ensures Contents(vs) == Unmatched(m, pred)
  {
    hide DistinctKeys;
    forall k | k in Contents(vs) ensures !pred(Entry(k, m[k])) {
      var v := IndexOf(vs, k);
    }
  }
}
