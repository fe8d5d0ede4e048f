/** Boost's open-addressing table as a value: groups of fifteen slots, found by triangular
    probing, whose overflow bits tell a search when to stop. Slot `s` is slot `s % N` of
    group `s / N`; the last slot of the last group is the sentinel and has no element. */
module FoaIndex {
  import opened Entries
  import opened FoaBytes
  import opened FoaGroup
  import opened FiniteSets
  import opened Modular
  import opened Triangular

  datatype Tab = Tab(gs: seq<Group>, es: seq<Entry>)

  /** In which group probing for a key starts, and the hash code its slot is marked with. */
  datatype Hasher = Hasher(start: Key -> nat, code: Key -> bv64)

  ghost predicate HasherOk(hs: Hasher, n: nat)
  {
    forall k {:trigger hs.start(k)} :: hs.start(k) < n
  }

  ghost predicate Occ(t: Tab, s: int)
  {
    0 <= s < |t.es| && s / N < |t.gs| && At(t.gs[s / N], s % N) != AVAILABLE
  }

  /** The first `d` groups on a probe path are marked as overflowed for the hash code. */
  ghost predicate OverflowedBefore(gs: seq<Group>, start: nat, code: bv64, d: nat)
    requires |gs| > 0
  {
    forall r | 0 <= r < d :: Overflowed(gs[Slot(|gs|, start, r)], code)
  }

  /** Group `g` lies on the probe path behind overflowed groups only. */
  ghost predicate Reachable(gs: seq<Group>, start: nat, code: bv64, g: nat)
    requires |gs| > 0
  {
    exists d :: 0 <= d < |gs| && g == Slot(|gs|, start, d) && OverflowedBefore(gs, start, code, d)
  }

  /** The element in slot `s` is marked with its reduced hash, and every group earlier on
      its probe path has the overflow bit of its hash set. */
  ghost predicate SlotOk(t: Tab, hs: Hasher, s: nat)
    requires s < |t.es| && s / N < |t.gs|
  {
    var k := t.es[s].key;
    && At(t.gs[s / N], s % N) == ReducedHash(hs.code(k))
    && Reachable(t.gs, hs.start(k), hs.code(k), s / N)
  }

  /** Every slot marked with a reduced hash has an element. */
  ghost predicate Bounded(t: Tab)
  {
    && |t.es| <= N * |t.gs|
    && forall g, n {:trigger At(t.gs[g], n)} | 0 <= g < |t.gs| && 0 <= n < N ::
         At(t.gs[g], n) != AVAILABLE && At(t.gs[g], n) != SENTINEL ==> N * g + n < |t.es|
  }

  /** The central invariant: the occupied slots hold exactly the keys of `where`. */
  ghost predicate Indexed(t: Tab, hs: Hasher, where: map<Key, nat>)
  {
    && IsPow2(|t.gs|) && HasherOk(hs, |t.gs|) && Bounded(t)
    && (forall k :: k in where ==> Occ(t, where[k]) && t.es[where[k]].key == k)
    && (forall s {:trigger Occ(t, s)} :: Occ(t, s) ==> t.es[s].key in where && where[t.es[s].key] == s)
    && (forall s {:trigger SlotOk(t, hs, s)} :: Occ(t, s) ==> SlotOk(t, hs, s))
  }

  /** Allocated arrays: all slots but the sentinel have an element. */
  ghost predicate Sized(t: Tab)
  {
    |t.gs| > 0 && |t.es| == N * |t.gs| - 1 && At(t.gs[|t.gs| - 1], N - 1) == SENTINEL
  }

  ghost function Contents(t: Tab, hs: Hasher, where: map<Key, nat>): map<Key, Value>
    requires Indexed(t, hs, where)
  {
    map k | k in where :: t.es[where[k]].val
  }

  // ----- probing -----

  /** The prober's step. */
  lemma ProbeNext(n: nat, start: nat, d: nat)
    requires n > 0
    ensures (Slot(n, start, d) + (d + 1)) % n == Slot(n, start, d + 1)
  {
    TriStep(d);
    ModOfSum(n, start + Tri(d), d + 1);
  }

  /** The first `d` groups of the probe path do not hold key `k`. */
  ghost predicate Missed(t: Tab, hs: Hasher, k: Key, d: nat)
    requires |t.gs| > 0
  {
    forall s, r | Occ(t, s) && t.es[s].key == k && 0 <= r < d :: s / N != Slot(|t.gs|, hs.start(k), r)
  }

  ghost predicate NotInGroup(t: Tab, k: Key, g: nat)
  {
    forall s | Occ(t, s) && s / N == g :: t.es[s].key != k
  }

  /** Stopping is sound: once a group that has not overflowed for the hash, or the last
      group, has been searched in vain, the key is absent. */
  lemma SearchStep(t: Tab, hs: Hasher, where: map<Key, nat>, k: Key, d: nat)
    requires Indexed(t, hs, where) && d < |t.gs| && Missed(t, hs, k, d)
    requires NotInGroup(t, k, Slot(|t.gs|, hs.start(k), d))
    ensures Missed(t, hs, k, d + 1)
    ensures d + 1 == |t.gs| ==> k !in where
    ensures !Overflowed(t.gs[Slot(|t.gs|, hs.start(k), d)], hs.code(k)) ==> k !in where
  {
    if k in where {
      var s := where[k];
      assert SlotOk(t, hs, s);
      var d' :| 0 <= d' < |t.gs| && s / N == Slot(|t.gs|, hs.start(k), d')
                && OverflowedBefore(t.gs, hs.start(k), hs.code(k), d');
      assert d' >= d && d' != d;
      assert Overflowed(t.gs[Slot(|t.gs|, hs.start(k), d)], hs.code(k));
    }
  }

  // ----- changing one group -----

  /** Overflow bits only ever get set. */
  ghost predicate OverflowGrows(gs: seq<Group>, gs': seq<Group>)
  {
    |gs| == |gs'| && forall g, code {:trigger Overflowed(gs'[g], code)} :: 0 <= g < |gs| && Overflowed(gs[g], code) ==> Overflowed(gs'[g], code)
  }

  lemma StaysReachable(gs: seq<Group>, gs': seq<Group>, start: nat, code: bv64, g: nat)
    requires |gs| > 0 && OverflowGrows(gs, gs') && Reachable(gs, start, code, g)
    ensures Reachable(gs', start, code, g)
  {
    var d :| 0 <= d < |gs| && g == Slot(|gs|, start, d) && OverflowedBefore(gs, start, code, d);
    assert OverflowedBefore(gs', start, code, d);
  }

  /** Marking a full group keeps the index. */
  lemma MarkKeeps(t: Tab, hs: Hasher, where: map<Key, nat>, g: nat, code: bv64)
    requires Indexed(t, hs, where) && g < |t.gs|
    ensures var t' := t.(gs := t.gs[g := MarkOverflow(t.gs[g], code)]);
            && Indexed(t', hs, where) && Contents(t', hs, where) == Contents(t, hs, where)
            && (Sized(t) ==> Sized(t'))
            && OverflowGrows(t.gs, t'.gs) && Overflowed(t'.gs[g], code)
  {
    hide At, Overflowed, MarkOverflow, ReducedHash, Reachable;
    var t' := t.(gs := t.gs[g := MarkOverflow(t.gs[g], code)]);
    MarkMarks(t.gs[g], code, code);
    forall h, other | 0 <= h < |t.gs| && Overflowed(t.gs[h], other) ensures Overflowed(t'.gs[h], other) {
      MarkMarks(t.gs[g], code, other);
    }
    forall h, n | 0 <= h < |t.gs| && 0 <= n < N ensures At(t'.gs[h], n) == At(t.gs[h], n) {
      MarkReads(t.gs[g], code, n);
    }
    assert forall s :: Occ(t', s) <==> Occ(t, s);
    forall s | Occ(t', s) ensures SlotOk(t', hs, s) {
      assert SlotOk(t, hs, s);
      StaysReachable(t.gs, t'.gs, hs.start(t.es[s].key), hs.code(t.es[s].key), s / N);
    }
  }

  /** When a group's slots change, its overflow byte stays. */
  lemma SlotChangeKeepsOverflow(gs: seq<Group>, g: nat, new_: Group)
    requires g < |gs| && At(new_, 15) == At(gs[g], 15)
    ensures OverflowGrows(gs, gs[g := new_])
  {
    hide At, Overflowed;
    forall h, code | 0 <= h < |gs| && Overflowed(gs[h], code) ensures Overflowed(gs[g := new_][h], code) {
      SameOverflow(gs[g], new_, code);
    }
  }

  /** The table after an entry went into slot `n` of group `g`. */
  function Put(t: Tab, hs: Hasher, g: nat, n: nat, entry: Entry): Tab
    requires g < |t.gs| && n < N && N * g + n < |t.es|
  {
    Tab(t.gs[g := SetSlot(t.gs[g], n, hs.code(entry.key))], t.es[N * g + n := entry])
  }

  function Freed(t: Tab, g: nat, n: nat): Tab
    requires g < |t.gs| && n < N
  {
    t.(gs := t.gs[g := Reset(t.gs[g], n)])
  }

  /** When an entry may go into slot `n` of group `g`. */
  ghost predicate CanPut(t: Tab, hs: Hasher, where: map<Key, nat>, g: nat, n: nat, entry: Entry)
  {
    && Indexed(t, hs, where) && Sized(t) && entry.key !in where && g < |t.gs| && n < N
    && Reachable(t.gs, hs.start(entry.key), hs.code(entry.key), g)
    && At(t.gs[g], n) == AVAILABLE
  }

  /** The slot has an element: it is not the sentinel's. */
  lemma PutInBounds(t: Tab, g: nat, n: nat)
    requires Sized(t) && g < |t.gs| && n < N && At(t.gs[g], n) == AVAILABLE
    ensures N * g + n < |t.es|
  {
  }

  lemma PutSlots(t: Tab, hs: Hasher, g: nat, n: nat, entry: Entry)
    requires g < |t.gs| && n < N && N * g + n < |t.es|
    ensures var t' := Put(t, hs, g, n, entry);
            && OverflowGrows(t.gs, t'.gs)
            && (forall h, m | 0 <= h < |t.gs| && 0 <= m < N ::
                  At(t'.gs[h], m) == if h == g && m == n then ReducedHash(hs.code(entry.key)) else At(t.gs[h], m))
  {
    hide At, Overflowed, SetSlot, ReducedHash;
    var code := hs.code(entry.key);
    SetSlotReads(t.gs[g], n, code, 15);
    SlotChangeKeepsOverflow(t.gs, g, SetSlot(t.gs[g], n, code));
    forall m | 0 <= m < N ensures At(SetSlot(t.gs[g], n, code), m) == if m == n then ReducedHash(code) else At(t.gs[g], m) {
      SetSlotReads(t.gs[g], n, code, m);
    }
  }

  lemma PutOcc(t: Tab, hs: Hasher, g: nat, n: nat, entry: Entry)
    requires g < |t.gs| && n < N && N * g + n < |t.es| && At(t.gs[g], n) == AVAILABLE
    ensures !Occ(t, N * g + n)
    ensures forall s :: Occ(Put(t, hs, g, n, entry), s) <==> s == N * g + n || Occ(t, s)
  {
    hide At, SetSlot, ReducedHash;
    PutSlots(t, hs, g, n, entry);
    ReducedHashProperties(hs.code(entry.key));
  }

  lemma PutKeepsSlots(t: Tab, hs: Hasher, where: map<Key, nat>, g: nat, n: nat, entry: Entry, s: nat)
    requires CanPut(t, hs, where, g, n, entry)
    requires N * g + n < |t.es| && (s == N * g + n || Occ(t, s))
    ensures SlotOk(Put(t, hs, g, n, entry), hs, s)
  {
    hide At, SetSlot, ReducedHash, Reachable;
    var t' := Put(t, hs, g, n, entry);
    PutSlots(t, hs, g, n, entry);
    if s == N * g + n {
      StaysReachable(t.gs, t'.gs, hs.start(entry.key), hs.code(entry.key), g);
    } else {
      assert SlotOk(t, hs, s);
      assert s / N != g || s % N != n;
      StaysReachable(t.gs, t'.gs, hs.start(t.es[s].key), hs.code(t.es[s].key), s / N);
    }
  }

  lemma ReachedAt(gs: seq<Group>, start: nat, code: bv64, d: nat)
    requires d < |gs| && OverflowedBefore(gs, start, code, d)
    ensures Reachable(gs, start, code, Slot(|gs|, start, d))
  {
  }

  /** A new entry in an available slot behind overflowed groups. */
  lemma PutKeeps(t: Tab, hs: Hasher, where: map<Key, nat>, g: nat, n: nat, entry: Entry)
    requires CanPut(t, hs, where, g, n, entry) && N * g + n < |t.es|
    ensures var t', where' := Put(t, hs, g, n, entry), where[entry.key := N * g + n];
            && Indexed(t', hs, where') && Sized(t')
            && Contents(t', hs, where') == Contents(t, hs, where)[entry.key := entry.val]
  {
    hide At, SetSlot, ReducedHash, SlotOk, Reachable, IsPow2;
    var t' := Put(t, hs, g, n, entry);
    PutSlots(t, hs, g, n, entry);
    PutOcc(t, hs, g, n, entry);
    ReducedHashProperties(hs.code(entry.key));
    forall s' | Occ(t', s') ensures SlotOk(t', hs, s') {
      PutKeepsSlots(t, hs, where, g, n, entry, s');
    }
  }

  /** Freeing a slot: the group's overflow byte is left alone, so no other search stops
      early. */
  lemma FreeKeeps(t: Tab, hs: Hasher, where: map<Key, nat>, s: nat)
    requires Indexed(t, hs, where) && Occ(t, s)
    ensures var t' := Freed(t, s / N, s % N);
            var k := t.es[s].key;
            && Indexed(t', hs, where - {k}) && (Sized(t) ==> Sized(t'))
            && Contents(t', hs, where - {k}) == Contents(t, hs, where) - {k}
  {
    hide At, ReducedHash, Reachable, Reset, IsPow2;
    var g, n := s / N, s % N;
    var t' := Freed(t, g, n);
    ResetReads(t.gs[g], n, 15);
    SlotChangeKeepsOverflow(t.gs, g, Reset(t.gs[g], n));
    forall m | 0 <= m < N ensures At(Reset(t.gs[g], n), m) == if m == n then AVAILABLE else At(t.gs[g], m) {
      ResetReads(t.gs[g], n, m);
    }
    assert forall s' :: Occ(t', s') <==> s' != s && Occ(t, s');
    forall s' | Occ(t', s') ensures SlotOk(t', hs, s') {
      assert SlotOk(t, hs, s');
      StaysReachable(t.gs, t'.gs, hs.start(t.es[s'].key), hs.code(t.es[s'].key), s' / N);
    }
  }

  // ----- counting -----

  /** The keys held by the first `i` slots, all occupied, are `i` distinct keys. */
  lemma {:induction false} KeysOfFullPrefix(t: Tab, hs: Hasher, where: map<Key, nat>, i: nat) returns (keys: set<Key>)
    requires Indexed(t, hs, where) && i <= |t.es|
    requires forall s | 0 <= s < i :: Occ(t, s)
    ensures |keys| == i && keys <= where.Keys
    ensures forall k :: k in keys ==> where[k] < i
  {
    keys := {};
    if i > 0 {
      keys := KeysOfFullPrefix(t, hs, where, i - 1);
      assert Occ(t, i - 1);
      keys := keys + {t.es[i - 1].key};
    }
  }

  /** Fewer entries than the capacity leaves an available slot, which probing reaches. */
  lemma RoomLeft(t: Tab, hs: Hasher, where: map<Key, nat>, start: nat) returns (d: nat, n: nat)
    requires Indexed(t, hs, where) && Sized(t) && |where| < |t.es| && start < |t.gs|
    ensures d < |t.gs| && n < N && At(t.gs[Slot(|t.gs|, start, d)], n) == AVAILABLE
  {
    hide At, Slot, IsPow2;
    if forall s | 0 <= s < |t.es| :: Occ(t, s) {
      var keys := KeysOfFullPrefix(t, hs, where, |t.es|);
      assert |where.Keys| == |where|;
      SubsetSize(keys, where.Keys);
      assert false;
    }
    var s :| 0 <= s < |t.es| && !Occ(t, s);
    d := ProbingReaches(|t.gs|, start, s / N);
    n := s % N;
  }

  lemma ContentsSize(t: Tab, hs: Hasher, where: map<Key, nat>)
    requires Indexed(t, hs, where)
    ensures Contents(t, hs, where).Keys == where.Keys && |Contents(t, hs, where)| == |where|
  {
    var m := Contents(t, hs, where);
    assert m.Keys == where.Keys;
    assert |m| == |m.Keys| && |where| == |where.Keys|;
  }

  lemma Lookup(t: Tab, hs: Hasher, where: map<Key, nat>, k: Key)
    requires Indexed(t, hs, where)
    ensures k in where <==> k in Contents(t, hs, where)
    ensures k in where ==> Occ(t, where[k]) && t.es[where[k]] == Entry(k, Contents(t, hs, where)[k])
  {
  }

  /** Empty groups. */
  lemma NothingIndexed(t: Tab, hs: Hasher)
    requires IsPow2(|t.gs|) && HasherOk(hs, |t.gs|) && |t.es| <= N * |t.gs|
    requires forall g, n | 0 <= g < |t.gs| && 0 <= n < N ::
               At(t.gs[g], n) == AVAILABLE || (At(t.gs[g], n) == SENTINEL && N * g + n >= |t.es|)
    ensures Indexed(t, hs, map[]) && Contents(t, hs, map[]) == map[]
  {
    hide At;
    assert forall s :: !Occ(t, s);
  }

  // ----- copying to other arrays -----

  /** The part of the contents held by the first `i` slots. */
  ghost function Prefix(t: Tab, hs: Hasher, where: map<Key, nat>, i: nat): map<Key, Value>
    requires Indexed(t, hs, where)
  {
    map k | k in where && where[k] < i :: t.es[where[k]].val
  }

  lemma PrefixStep(t: Tab, hs: Hasher, where: map<Key, nat>, i: nat)
    requires Indexed(t, hs, where)
    ensures !Occ(t, i) ==> Prefix(t, hs, where, i + 1) == Prefix(t, hs, where, i)
    ensures Occ(t, i) ==> t.es[i].key in where && t.es[i].key !in Prefix(t, hs, where, i)
    ensures Occ(t, i) ==> Prefix(t, hs, where, i + 1) == Prefix(t, hs, where, i)[t.es[i].key := t.es[i].val]
  {
    hide At, SlotOk, IsPow2, Bounded;
  }

  /** Slots without an element add nothing. */
  lemma PrefixSkip(t: Tab, hs: Hasher, where: map<Key, nat>, i: nat, j: nat)
    requires Indexed(t, hs, where) && i <= j && forall s | i <= s < j :: !Occ(t, s)
    ensures Prefix(t, hs, where, j) == Prefix(t, hs, where, i)
  {
    hide At, SlotOk, IsPow2, Bounded;
  }

  lemma PrefixSize(t: Tab, hs: Hasher, where: map<Key, nat>, i: nat)
    requires Indexed(t, hs, where)
    ensures |Prefix(t, hs, where, i)| <= |where|
    ensures Occ(t, i) ==> |Prefix(t, hs, where, i)| < |where|
  {
    hide At, SlotOk, IsPow2, Bounded;
    var keys := Prefix(t, hs, where, i).Keys;
    assert |where.Keys| == |where| && |keys| == |Prefix(t, hs, where, i)|;
    SubsetSize(keys, if Occ(t, i) then where.Keys - {t.es[i].key} else where.Keys);
  }

  lemma PrefixWhole(t: Tab, hs: Hasher, where: map<Key, nat>, i: nat)
    requires Indexed(t, hs, where) && i >= |t.es|
    ensures Prefix(t, hs, where, 0) == map[] && Prefix(t, hs, where, i) == Contents(t, hs, where)
  {
    hide At, SlotOk, IsPow2, Bounded;
  }
}
