/** Where Boost's table puts an element, and which groups it marks on the way: functions of
    the arrays alone, which insertion, rehashing and erasure follow slot by slot. */
module FoaPlacement {
  import opened Entries
  import opened FoaBytes
  import opened FoaGroup
  import opened FoaIndex
  import opened Triangular

  /** The first available slot of a group from slot `n` on, or `N`. */
  ghost function FirstFree(g: Group, n: nat): (r: nat)
    requires n <= N
    ensures n <= r <= N
    decreases N - n
  {
    if n == N || At(g, n) == AVAILABLE then n else FirstFree(g, n + 1)
  }

  /** The arrays after the entry has gone to the first available slot of the first group with
      one, from the `d`-th on its probe path; the groups passed are marked as overflowed for
      its hash code. */
  ghost function PlacedFrom(t: Tab, hs: Hasher, entry: Entry, d: nat): (r: Tab)
    ensures |r.gs| == |t.gs| && |r.es| == |t.es|
    decreases |t.gs| - d
  {
    if d >= |t.gs| then t
    else
      var g := Slot(|t.gs|, hs.start(entry.key), d);
      var n := FirstFree(t.gs[g], 0);
      if n < N then
        if N * g + n < |t.es| then Put(t, hs, g, n, entry) else t
      else PlacedFrom(t.(gs := t.gs[g := MarkOverflow(t.gs[g], hs.code(entry.key))]), hs, entry, d + 1)
  }

  /** The arrays `to` after the elements of `t` from slot `i` on have been placed there, in the
      order of their slots. */
  ghost function CopiedFrom(t: Tab, i: nat, hs: Hasher, to: Tab): (r: Tab)
    ensures |r.gs| == |to.gs| && |r.es| == |to.es|
    decreases |t.es| - i
  {
    if i >= |t.es| then to
    else CopiedFrom(t, i + 1, hs, if Occ(t, i) then PlacedFrom(to, hs, t.es[i], 0) else to)
  }

  lemma {:induction false} FirstFreeMeans(g: Group, n: nat)
    requires n <= N
    ensures FirstFree(g, n) < N ==> At(g, FirstFree(g, n)) == AVAILABLE
    ensures forall m | n <= m < FirstFree(g, n) :: At(g, m) != AVAILABLE
    decreases N - n
  {
    hide At;
    if n < N && At(g, n) != AVAILABLE {
      FirstFreeMeans(g, n + 1);
    }
  }

  lemma FirstFreeIs(g: Group, n: nat)
    requires n < N && At(g, n) == AVAILABLE && forall m | 0 <= m < n :: At(g, m) != AVAILABLE
    ensures FirstFree(g, 0) == n
  {
    hide At, FirstFree;
    FirstFreeMeans(g, 0);
  }

  lemma NoneFree(g: Group)
    requires forall m | 0 <= m < N :: At(g, m) != AVAILABLE
    ensures FirstFree(g, 0) == N
  {
    hide At, FirstFree;
    FirstFreeMeans(g, 0);
  }

  /** A group with an available slot takes the entry. */
  lemma PlacedHere(t: Tab, hs: Hasher, entry: Entry, d: nat, g: nat, n: nat)
    requires d < |t.gs| && g == Slot(|t.gs|, hs.start(entry.key), d) && n < N && N * g + n < |t.es|
    requires At(t.gs[g], n) == AVAILABLE && forall m | 0 <= m < n :: At(t.gs[g], m) != AVAILABLE
    ensures PlacedFrom(t, hs, entry, d) == Put(t, hs, g, n, entry)
  {
    hide At, FirstFree, Put, Slot, MarkOverflow;
    FirstFreeIs(t.gs[g], n);
  }

  /** A full group is marked and passed. */
  lemma PlacedFurther(t: Tab, hs: Hasher, entry: Entry, d: nat, g: nat)
    requires d < |t.gs| && g == Slot(|t.gs|, hs.start(entry.key), d) && forall m | 0 <= m < N :: At(t.gs[g], m) != AVAILABLE
    ensures PlacedFrom(t, hs, entry, d) == PlacedFrom(t.(gs := t.gs[g := MarkOverflow(t.gs[g], hs.code(entry.key))]), hs, entry, d + 1)
  {
    hide At, FirstFree, Put, Slot, MarkOverflow;
    NoneFree(t.gs[g]);
  }

  lemma CopiedStep(t: Tab, i: nat, hs: Hasher, to: Tab)
    requires Occ(t, i)
    ensures CopiedFrom(t, i, hs, to) == CopiedFrom(t, i + 1, hs, PlacedFrom(to, hs, t.es[i], 0))
  {
    hide At, PlacedFrom;
  }

  lemma {:induction false} CopiedSkip(t: Tab, i: nat, j: nat, hs: Hasher, to: Tab)
    requires i <= j && forall s | i <= s < j :: !Occ(t, s)
    ensures CopiedFrom(t, i, hs, to) == CopiedFrom(t, j, hs, to)
    decreases j - i
  {
    hide At, PlacedFrom;
    if i < j {
      CopiedSkip(t, i + 1, j, hs, to);
    }
  }

  lemma CopiedAll(t: Tab, i: nat, hs: Hasher, to: Tab)
    requires i >= |t.es|
    ensures CopiedFrom(t, i, hs, to) == to
  {
  }
}
