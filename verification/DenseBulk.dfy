/** Erasing many values from a vector whose holes are filled from the back. */
module DenseBulk {
  import opened Entries
  import opened EntryVectors

  /** The keys of the values at the positions from `lo` to before `hi`. */
  ghost function KeysIn(vs: seq<Entry>, lo: nat, hi: nat): set<Key>
    requires hi <= |vs|
  {
    set v | lo <= v < hi :: vs[v].key
  }

  lemma KeysJoin(vs: seq<Entry>, lo: nat, mid: nat, hi: nat)
    requires lo <= mid <= hi <= |vs|
    ensures KeysIn(vs, lo, hi) == KeysIn(vs, lo, mid) + KeysIn(vs, mid, hi)
    ensures mid < |vs| ==> KeysIn(vs, mid, mid + 1) == {vs[mid].key}
    ensures KeysIn(vs, mid, mid) == {}
  {
  }

  /** Taking one more position from the back. */
  lemma KeysBackward(vs: seq<Entry>, gone: set<Key>, idx: nat, hi: nat)
    requires idx < hi <= |vs|
    ensures gone + KeysIn(vs, idx + 1, hi) + {vs[idx].key} == gone + KeysIn(vs, idx, hi)
  {
    KeysJoin(vs, idx, idx + 1, hi);
    KeysJoin(vs, idx, idx, hi);
  }

  /** After some erasures from `vs`, whose result is `cur`: the keys in `gone` have
      disappeared, everything before `lo` is in place, and so is everything from `mid` on. */
  ghost predicate Erasing(vs: seq<Entry>, cur: seq<Entry>, gone: set<Key>, lo: nat, mid: nat)
  {
    && DistinctKeys(vs) && DistinctKeys(cur)
    && Contents(cur) == Contents(vs) - gone
    && lo <= mid <= |cur| <= |vs|
    && (forall p | 0 <= p < lo || mid <= p < |cur| :: cur[p] == vs[p])
  }

  /** Erasing the first value of the part in place fills the hole from the back. */
  lemma EraseFront(vs: seq<Entry>, cur: seq<Entry>, gone: set<Key>, lo: nat, mid: nat)
    requires Erasing(vs, cur, gone, lo, mid) && mid + 1 < |cur|
    ensures Erasing(vs, RemoveAt(cur, mid), gone + {vs[mid].key}, lo, mid + 1)
  {
    hide Contents, DistinctKeys;
    Removed(cur, mid);
  }

  /** The `n` places from `lo` on have been filled with the last values of `vs`, the very last
      one first. */
  ghost predicate FilledFromBack(vs: seq<Entry>, cur: seq<Entry>, lo: nat, n: nat)
  {
    && lo + n <= |cur| <= |vs|
    && forall p | lo <= p < lo + n :: cur[p] == vs[|vs| - 1 - (p - lo)]
  }

  lemma NothingFilled(vs: seq<Entry>, lo: nat)
    requires lo <= |vs|
    ensures FilledFromBack(vs, vs, lo, 0)
  {
  }

  lemma FilledMeans(vs: seq<Entry>, cur: seq<Entry>, lo: nat, n: nat)
    requires FilledFromBack(vs, cur, lo, n)
    ensures lo + n <= |cur| <= |vs| && forall p | lo <= p < lo + n :: cur[p] == vs[|vs| - 1 - (p - lo)]
  {
  }

  lemma FillFront(vs: seq<Entry>, cur: seq<Entry>, gone: set<Key>, lo: nat, n: nat)
    requires Erasing(vs, cur, gone, lo, lo + n) && |cur| == |vs| - n && lo + n + 1 < |cur|
    requires FilledFromBack(vs, cur, lo, n)
    ensures FilledFromBack(vs, RemoveAt(cur, lo + n), lo, n + 1)
  {
  }

  lemma FillStays(vs: seq<Entry>, cur: seq<Entry>, lo: nat, n: nat)
    requires FilledFromBack(vs, cur, lo, n) && lo + n < |cur|
    ensures FilledFromBack(vs, RemoveAt(cur, |cur| - 1), lo, n)
  {
  }

  /** Erasing the last value moves nothing. */
  lemma EraseBack(vs: seq<Entry>, cur: seq<Entry>, gone: set<Key>, lo: nat, mid: nat)
    requires Erasing(vs, cur, gone, lo, mid) && mid < |cur|
    ensures Erasing(vs, RemoveAt(cur, |cur| - 1), gone + {vs[|cur| - 1].key}, lo, mid)
  {
    hide Contents, DistinctKeys;
    Removed(cur, |cur| - 1);
  }

  /** The same, when a range from `lo` on has been erased down to `idx` from the back. */
  lemma EraseBackward(vs: seq<Entry>, cur: seq<Entry>, gone: set<Key>, lo: nat, mid: nat, idx: nat, hi: nat)
    requires mid <= idx < hi <= |vs| && |cur| == idx + 1
    requires Erasing(vs, cur, gone + KeysIn(vs, idx + 1, hi), lo, mid)
    ensures Erasing(vs, RemoveAt(cur, idx), gone + KeysIn(vs, idx, hi), lo, mid)
  {
    hide Contents, DistinctKeys, KeysIn;
    EraseBack(vs, cur, gone + KeysIn(vs, idx + 1, hi), lo, mid);
    KeysBackward(vs, gone, idx, hi);
  }

  /** Going from back to front through `vs` down to `idx` and erasing what satisfies `pred`. */
  ghost predicate Sweeping(vs: seq<Entry>, cur: seq<Entry>, pred: Entry -> bool, idx: nat)
  {
    && DistinctKeys(vs) && DistinctKeys(cur)
    && idx <= |cur| <= |vs| && (forall p | 0 <= p < idx :: cur[p] == vs[p])
    && Contents(cur) == Contents(vs) - (set v | idx <= v < |vs| && pred(vs[v]) :: vs[v].key)
  }

  /** What going from back to front, erasing what satisfies `pred`, makes of a vector. */
  ghost function Swept(vs: seq<Entry>, pred: Entry -> bool, idx: nat): seq<Entry>
    requires idx <= |vs|
    decreases idx
  {
    if idx == 0 then vs
    else Swept(if pred(vs[idx - 1]) then RemoveAt(vs, idx - 1) else vs, pred, idx - 1)
  }

  lemma SweptStep(vs: seq<Entry>, pred: Entry -> bool, idx: nat)
    requires 0 < idx <= |vs|
    ensures Swept(vs, pred, idx) == Swept(if pred(vs[idx - 1]) then RemoveAt(vs, idx - 1) else vs, pred, idx - 1)
  {
  }

  lemma SweptDone(vs: seq<Entry>, pred: Entry -> bool)
    ensures Swept(vs, pred, 0) == vs
  {
  }

  lemma SweepStart(vs: seq<Entry>, pred: Entry -> bool)
    requires DistinctKeys(vs)
    ensures Sweeping(vs, vs, pred, |vs|)
  {
  }

  lemma SweepStep(vs: seq<Entry>, cur: seq<Entry>, pred: Entry -> bool, idx: nat)
    requires Sweeping(vs, cur, pred, idx) && idx > 0
    ensures idx <= |cur|
    ensures Sweeping(vs, if pred(cur[idx - 1]) then RemoveAt(cur, idx - 1) else cur, pred, idx - 1)
  {
    hide Contents, DistinctKeys;
    var gone := set v | idx <= v < |vs| && pred(vs[v]) :: vs[v].key;
    var gone' := set v | idx - 1 <= v < |vs| && pred(vs[v]) :: vs[v].key;
    assert gone' == if pred(vs[idx - 1]) then gone + {vs[idx - 1].key} else gone;
    Removed(cur, idx - 1);
  }

  lemma SweepDone(vs: seq<Entry>, cur: seq<Entry>, pred: Entry -> bool)
    requires Sweeping(vs, cur, pred, 0)
    ensures Contents(cur) == Unmatched(Contents(vs), pred)
  {
    hide Contents, DistinctKeys;
    forall k | k in Contents(vs)
      ensures k in Contents(cur) <==> !pred(Entry(k, Contents(vs)[k]))
    {
      var v := IndexOf(vs, k);
    }
  }

  /** Building an index from a container that may hold a key several times: the first `i`
      values of `cur` have distinct keys, every value comes from the container, and every
      key of the container is still there. */
  ghost predicate Replacing(container: seq<Entry>, cur: seq<Entry>, i: nat)
  {
    && i <= |cur| <= |container|
    && DistinctKeys(cur[..i])
    && (forall e :: e in cur ==> e in container)
    && (forall e :: e in container ==> HasKey(cur, e.key))
  }

  ghost predicate HasKey(vs: seq<Entry>, k: Key)
  {
    exists v :: 0 <= v < |vs| && vs[v].key == k
  }

  /** The values of a container, from position `i` on, without those whose key stands before
      them: each gives way to the last value, which is then looked at in its place. */
  ghost function Dedup(vs: seq<Entry>, i: nat): seq<Entry>
    requires i <= |vs|
    decreases |vs| - i
  {
    if i == |vs| then vs
    else if HasKey(vs[..i], vs[i].key) then Dedup(RemoveAt(vs, i), i)
    else Dedup(vs, i + 1)
  }

  lemma DedupKeeps(vs: seq<Entry>, i: nat)
    requires i < |vs| && Absent(vs[..i], vs[i].key)
    ensures Dedup(vs, i) == Dedup(vs, i + 1)
  {
  }

  lemma DedupDrops(vs: seq<Entry>, i: nat, at: nat)
    requires at < i < |vs| && vs[at].key == vs[i].key
    ensures Dedup(vs, i) == Dedup(RemoveAt(vs, i), i)
  {
    assert vs[..i][at].key == vs[i].key;
  }

  lemma AllPassed(vs: seq<Entry>)
    ensures Dedup(vs, |vs|) == vs
  {
  }

  /** Values once passed are never touched. */
  lemma {:induction false} DedupPrefix(vs: seq<Entry>, i: nat)
    requires i <= |vs|
    ensures i <= |Dedup(vs, i)| <= |vs| && Dedup(vs, i)[..i] == vs[..i]
    decreases |vs| - i
  {
    if i < |vs| {
      if HasKey(vs[..i], vs[i].key) {
        DedupPrefix(RemoveAt(vs, i), i);
        assert RemoveAt(vs, i)[..i] == vs[..i];
      } else {
        DedupPrefix(vs, i + 1);
        assert Dedup(vs, i)[..i] == Dedup(vs, i + 1)[..i + 1][..i] == vs[..i];
      }
    }
  }

  lemma {:induction false} DistinctPassed(vs: seq<Entry>, i: nat, n: nat)
    requires i <= n <= |vs| && DistinctKeys(vs[..n])
    ensures Dedup(vs, i) == Dedup(vs, n)
    decreases n - i
  {
    if i < n {
      assert forall v | 0 <= v < i :: vs[..n][v].key != vs[..n][i].key;
      DistinctPassed(vs, i + 1, n);
    }
  }

  /** The first values of a container stay where they are, as many as have different keys: of
      values with the same key, the first one wins against any among them. */
  lemma FirstWins(container: seq<Entry>, n: nat)
    requires n <= |container| && DistinctKeys(container[..n])
    ensures n <= |Dedup(container, 0)| && Dedup(container, 0)[..n] == container[..n]
  {
    DistinctPassed(container, 0, n);
    DedupPrefix(container, n);
  }

  lemma ReplaceStart(container: seq<Entry>)
    ensures Replacing(container, container, 0)
  {
    forall e | e in container ensures HasKey(container, e.key) {
      var v :| 0 <= v < |container| && container[v] == e;
    }
  }

  lemma ReplacingSizes(container: seq<Entry>, cur: seq<Entry>, i: nat)
    requires Replacing(container, cur, i)
    ensures i <= |cur| <= |container|
  {
  }

  /** A value with a new key stays. */
  lemma ReplaceKeep(container: seq<Entry>, cur: seq<Entry>, i: nat)
    requires Replacing(container, cur, i) && i < |cur| && Absent(cur[..i], cur[i].key)
    ensures Replacing(container, cur, i + 1)
  {
    assert forall u | 0 <= u < i :: cur[..i][u] == cur[..i + 1][u];
  }

  /** A value whose key is already indexed gives way to the last one. */
  lemma ReplaceDrop(container: seq<Entry>, cur: seq<Entry>, i: nat, at: nat)
    requires Replacing(container, cur, i) && at < i < |cur| && cur[at].key == cur[i].key
    ensures Replacing(container, RemoveAt(cur, i), i)
  {
    var cur' := RemoveAt(cur, i);
    var last := |cur| - 1;
    assert forall v | 0 <= v < last :: cur'[v] == if v == i then cur[last] else cur[v];
    assert cur'[..i] == cur[..i];
    forall e | e in container ensures HasKey(cur', e.key) {
      var v :| 0 <= v < |cur| && cur[v].key == e.key;
      assert cur'[if v == i then at else if v == last then i else v].key == e.key;
    }
  }

  /** At the end every key of the container is stored exactly once, with one of the values
      the container had for it. */
  lemma ReplaceDone(container: seq<Entry>, cur: seq<Entry>)
    requires Replacing(container, cur, |cur|)
    ensures DistinctKeys(cur)
    ensures forall k :: k in Contents(cur) <==> HasKey(container, k)
    ensures forall k :: k in Contents(cur) ==> Entry(k, Contents(cur)[k]) in container
  {
    assert cur[..|cur|] == cur;
    forall k | HasKey(container, k) ensures k in Contents(cur) {
      var v :| 0 <= v < |container| && container[v].key == k;
      assert container[v] in container && HasKey(cur, k);
    }
    forall k | k in Contents(cur)
      ensures HasKey(container, k) && Entry(k, Contents(cur)[k]) in container
    {
      var v := IndexOf(cur, k);
      assert cur[v] in cur;
    }
  }
}
