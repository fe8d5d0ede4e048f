/** What a Verstable table does, told without chains: a table is a row of buckets that hold
    an entry or nothing. Where an entry goes depends only on which buckets are free on one
    probe path; what a rehash does, only on the order of the old buckets. The linked table
    refines this one operation by operation, to the very bucket. */
module VerstablePlain {
  import opened Entries
  import opened FiniteSets
  import opened Triangular
  import opened VerstableChains
  import opened VerstableContents
  import opened VerstableGrowth

  type Slots = seq<Option<Entry>>

  function Blank(n: nat): Slots
  {
    seq(n, _ => None)
  }

  /** What the buckets of a linked table hold. */
  ghost function SlotsOf(t: Table): (s: Slots)
    requires Shape(t)
    ensures |s| == |t.md|
  {
    seq(|t.md|, b requires 0 <= b < |t.md| => if Occ(t, b) then Some(t.kv[b]) else None)
  }

  ghost function KeysOf(s: Slots): set<Key>
  {
    set b | 0 <= b < |s| && s[b].Some? :: s[b].value.key
  }

  /** The bucket that holds `key`, looking from bucket `b` on. */
  function Find(s: Slots, key: Key, b: nat): (r: Option<nat>)
    ensures r.Some? ==> b <= r.value < |s| && s[r.value].Some? && s[r.value].value.key == key
    ensures r.None? ==> forall c | b <= c < |s| && s[c].Some? :: s[c].value.key != key
    decreases |s| - b
  {
    if b >= |s| then None
    else if s[b].Some? && s[b].value.key == key then Some(b)
    else Find(s, key, b + 1)
  }

  // ----- one insertion -----

  /** The first displacement from `d` on at which the probe path from `h` meets an empty
      bucket, or the limit. */
  function FirstEmpty(s: Slots, h: nat, d: nat): (e: nat)
    requires |s| > 0 && d <= LIMIT
    ensures d <= e <= LIMIT
    decreases LIMIT - d
  {
    if d == LIMIT || s[Slot(|s|, h, d)].None? then d else FirstEmpty(s, h, d + 1)
  }

  /** The home of `key` is taken, and the entry that would have to go elsewhere, the one found
      there or the new one, meets no empty bucket within the displacement limit. */
  predicate NoPlace(s: Slots, hash: Key -> Hash64, key: Key)
    requires |s| > 0
  {
    var h := HomeOf(hash, |s|, key);
    s[h].Some? && FirstEmpty(s, HomeOf(hash, |s|, s[h].value.key), 1) == LIMIT
  }

  /** The entry of bucket `b` has moved on. */
  function Vacated(s: Slots, hash: Key -> Hash64, b: nat): (r: Slots)
    requires b < |s| && s[b].Some?
    ensures |r| == |s|
  {
    var from := HomeOf(hash, |s|, s[b].value.key);
    s[Slot(|s|, from, FirstEmpty(s, from, 1)) := s[b]][b := None]
  }

  /** A new entry goes to its home bucket. An entry found there moves on if it belongs
      elsewhere; if it belongs there, the new one does. Either goes to the first empty bucket
      on the probe path from its own home. */
  function Placed(s: Slots, hash: Key -> Hash64, entry: Entry): (r: Option<Slots>)
    requires |s| > 0
    ensures r.Some? ==> |r.value| == |s|
    ensures r.None? <==> NoPlace(s, hash, entry.key)
  {
    var h := HomeOf(hash, |s|, entry.key);
    if s[h].None? then Some(s[h := Some(entry)])
    else
      var from := HomeOf(hash, |s|, s[h].value.key);
      var d := FirstEmpty(s, from, 1);
      if d == LIMIT then None
      else if from == h then Some(s[Slot(|s|, from, d) := Some(entry)])
      else Some(Vacated(s, hash, h)[h := Some(entry)])
  }

  lemma PlacingMeans(s: Slots, hash: Key -> Hash64, entry: Entry)
    requires |s| > 0
    ensures var h := HomeOf(hash, |s|, entry.key);
            && (s[h].None? ==> Placed(s, hash, entry) == Some(s[h := Some(entry)]))
            && (s[h].Some? && HomeOf(hash, |s|, s[h].value.key) != h && !NoPlace(s, hash, entry.key) ==>
                  Placed(s, hash, entry) == Some(Vacated(s, hash, h)[h := Some(entry)]))
  {
  }

  // ----- erasure -----

  /** The entry of home `h` that lies furthest along its probe path, up to displacement `d`. */
  function Furthest(s: Slots, hash: Key -> Hash64, h: nat, d: nat): (b: nat)
    requires |s| > 0
    ensures b < |s|
  {
    var b := Slot(|s|, h, d);
    if d == 0 || (s[b].Some? && HomeOf(hash, |s|, s[b].value.key) == h) then b
    else Furthest(s, hash, h, d - 1)
  }

  /** The furthest entry of the same home moves into the place of the erased one. */
  function Erased(s: Slots, hash: Key -> Hash64, key: Key): (r: Slots)
    requires |s| > 0
    ensures |r| == |s|
  {
    match Find(s, key, 0)
    case None => s
    case Some(b) =>
      var last := Furthest(s, hash, HomeOf(hash, |s|, key), |s| - 1);
      s[b := s[last]][last := None]
  }

  // ----- rehashing and growth -----

  /** The entries of `s` from bucket `i` on, placed in `to` in the order of their buckets, or
      `None` when one of them does not find a place. */
  function Scanned(s: Slots, i: nat, hash: Key -> Hash64, to: Slots): (r: Option<Slots>)
    requires |to| > 0
    ensures r.Some? ==> |r.value| == |to|
    decreases |s| - i
  {
    if i >= |s| then Some(to)
    else if s[i].None? then Scanned(s, i + 1, hash, to)
    else
      match Placed(to, hash, s[i].value)
      case None => None
      case Some(to') => Scanned(s, i + 1, hash, to')
  }

  lemma ScannedAll(s: Slots, i: nat, hash: Key -> Hash64, to: Slots)
    requires |to| > 0 && i <= |s| && forall b | i <= b < |s| :: s[b].None?
    ensures Scanned(s, i, hash, to) == Some(to)
    decreases |s| - i
  {
  }

  /** Hash function, load factor, and the capacities that the allocator grants, none of which
      exceeds `limit`. */
  datatype Env = Env(hash: Key -> Hash64, maxLoad: real, grants: nat -> bool, limit: nat)

  ghost predicate EnvOk(env: Env)
  {
    env.maxLoad > 0.0 && forall c :: c > env.limit ==> !env.grants(c)
  }

  datatype Rehashing = Rebuilt(slots: Slots) | Denied(asked: nat)

  /** Doubles from capacity `c` until the entries find their places or a capacity is denied. */
  ghost function Rehashed(s: Slots, c: nat, env: Env): (r: Rehashing)
    requires EnvOk(env) && c > 0
    ensures r.Rebuilt? ==> env.limit >= |r.slots| >= c && env.grants(|r.slots|)
    ensures r.Denied? ==> r.asked >= c && !env.grants(r.asked)
    decreases env.limit - c
  {
    if !env.grants(c) then Denied(c)
    else
      match Scanned(s, 0, env.hash, Blank(c))
      case Some(s') => Rebuilt(s')
      case None => Rehashed(s, 2 * c, env)
  }

  lemma RehashedStep(s: Slots, c: nat, env: Env)
    requires EnvOk(env) && c > 0
    ensures !env.grants(c) ==> Rehashed(s, c, env) == Denied(c)
    ensures env.grants(c) ==>
              match Scanned(s, 0, env.hash, Blank(c))
              case Some(s') => Rehashed(s, c, env) == Rebuilt(s')
              case None => Rehashed(s, c, env) == Rehashed(s, 2 * c, env)
  {
  }

  /** A single bucket is that of the placeholder, which has no capacity. */
  function CapOf(s: Slots): nat
  {
    if |s| == 1 then 0 else |s|
  }

  ghost predicate Overfull(s: Slots, maxLoad: real)
  {
    !Fits(|KeysOf(s)| + 1, maxLoad, CapOf(s))
  }

  /** Inserts into the buckets there are: a stored key stays in its bucket, a new one is
      refused when it would exceed the load factor or finds no place. */
  ghost function Tried(s: Slots, key: Key, val: Value, replace: bool, hash: Key -> Hash64, maxLoad: real): (r: Option<Slots>)
    requires |s| > 0
    ensures r.Some? ==> |r.value| == |s|
    ensures r.None? <==> Find(s, key, 0).None? && (Overfull(s, maxLoad) || NoPlace(s, hash, key))
  {
    match Find(s, key, 0)
    case Some(b) => Some(if replace then s[b := Some(Entry(key, val))] else s)
    case None => if Overfull(s, maxLoad) then None else Placed(s, hash, Entry(key, val))
  }

  datatype Outcome = Done(slots: Slots) | Refused(slots: Slots, asked: nat)

  /** Inserts, growing as long as the buckets refuse the key. */
  ghost function Inserted(s: Slots, key: Key, val: Value, replace: bool, env: Env): (r: Outcome)
    requires EnvOk(env) && |s| > 0
    ensures |r.slots| > 0
    ensures r.Refused? ==> r.asked >= NextCap(CapOf(r.slots)) && !env.grants(r.asked)
    decreases env.limit - |s|
  {
    match Tried(s, key, val, replace, env.hash, env.maxLoad)
    case Some(s') => Done(s')
    case None =>
      match Rehashed(s, NextCap(CapOf(s)), env)
      case Denied(asked) => Refused(s, asked)
      case Rebuilt(s') => Inserted(s', key, val, replace, env)
  }

  /** Rebuilt with at least `c` buckets, or left alone if a capacity is denied. */
  ghost function Resized(s: Slots, c: nat, env: Env): (r: Slots)
    requires EnvOk(env) && c > 0 && |s| > 0
    ensures |r| > 0
  {
    match Rehashed(s, c, env)
    case Denied(_) => s
    case Rebuilt(s') => s'
  }

  ghost function Reserved(s: Slots, n: nat, env: Env): (r: Slots)
    requires EnvOk(env) && |s| > 0
    ensures |r| > 0
  {
    var least := LeastCap(n, env.maxLoad);
    if CapOf(s) >= least then s else Resized(s, least, env)
  }

  ghost function Shrunk(s: Slots, env: Env): (r: Slots)
    requires EnvOk(env) && |s| > 0
    ensures |r| > 0
  {
    var least := LeastCap(|KeysOf(s)|, env.maxLoad);
    if CapOf(s) == least then s
    else if least == 0 then Blank(1)
    else Resized(s, least, env)
  }

  // ----- where the entries are -----

  /** No key is stored twice. */
  ghost predicate Distinct(s: Slots)
  {
    forall b, c | 0 <= b < c < |s| && s[b].Some? && s[c].Some? :: s[b].value.key != s[c].value.key
  }

  /** The keys found on the first `d` positions of a probe path, all occupied. */
  lemma {:induction false} KeysOnPath(s: Slots, h: nat, d: nat) returns (keys: set<Key>)
    requires Distinct(s) && |s| > 0 && IsPow2(|s|) && d <= |s|
    requires forall i | 0 <= i < d :: s[Slot(|s|, h, i)].Some?
    ensures |keys| == d && keys <= KeysOf(s)
    ensures forall k :: k in keys ==> exists i :: 0 <= i < d && s[Slot(|s|, h, i)].value.key == k
  {
    hide IsPow2, Slot;
    keys := {};
    if d > 0 {
      var before := KeysOnPath(s, h, d - 1);
      var k := s[Slot(|s|, h, d - 1)].value.key;
      if k in before {
        var i :| 0 <= i < d - 1 && s[Slot(|s|, h, i)].value.key == k;
        DistinctSlots(|s|, h, i, d - 1);
        assert false;
      }
      keys := before + {k};
    }
  }

  lemma {:induction false} FirstEmptyPasses(s: Slots, h: nat, d: nat)
    requires |s| > 0 && d <= LIMIT
    ensures forall i | d <= i < FirstEmpty(s, h, d) :: s[Slot(|s|, h, i)].Some?
    ensures FirstEmpty(s, h, d) < LIMIT ==> s[Slot(|s|, h, FirstEmpty(s, h, d))].None?
    decreases LIMIT - d
  {
    hide Slot;
    if d < LIMIT && s[Slot(|s|, h, d)].Some? {
      FirstEmptyPasses(s, h, d + 1);
    }
  }

  lemma {:induction false} FirstEmptyIs(s: Slots, h: nat, d: nat, e: nat)
    requires |s| > 0 && d <= e <= LIMIT
    requires forall i | d <= i < e :: s[Slot(|s|, h, i)].Some?
    requires e < LIMIT ==> s[Slot(|s|, h, e)].None?
    ensures FirstEmpty(s, h, d) == e
    decreases e - d
  {
    hide Slot;
    if d < e {
      FirstEmptyIs(s, h, d + 1, e);
    }
  }

  /** A search that finds no empty bucket has passed as many entries as there are buckets
      within the displacement limit. */
  lemma NoneEmptyNeedsMany(s: Slots, h: nat)
    requires Distinct(s) && h < |s| && IsPow2(|s|) && s[h].Some? && FirstEmpty(s, h, 1) == LIMIT
    ensures |KeysOf(s)| >= |s| || |KeysOf(s)| >= LIMIT
  {
    hide IsPow2;
    var d := if |s| < LIMIT then |s| else LIMIT;
    FirstEmptyPasses(s, h, 1);
    SlotZero(|s|, h);
    var keys := KeysOnPath(s, h, d);
    SubsetSize(keys, KeysOf(s));
  }

  ghost function HomeAt(s: Slots, hash: Key -> Hash64, b: nat): (h: nat)
    requires b < |s| && s[b].Some?
    ensures h < |s|
  {
    HomeOf(hash, |s|, s[b].value.key)
  }

  /** The home of an entry is occupied by an entry that belongs there. */
  ghost predicate RootedAt(s: Slots, hash: Key -> Hash64, b: nat)
    requires b < |s| && s[b].Some?
  {
    var h := HomeAt(s, hash, b);
    s[h].Some? && HomeAt(s, hash, h) == h
  }

  ghost predicate WellPlaced(s: Slots, hash: Key -> Hash64)
  {
    && |s| > 0 && IsPow2(|s|) && Distinct(s)
    && forall b | 0 <= b < |s| && s[b].Some? :: RootedAt(s, hash, b)
  }

  /** Few entries leave a place for one more, whatever the hash function. */
  lemma FewHavePlace(s: Slots, hash: Key -> Hash64, key: Key)
    requires WellPlaced(s, hash) && |KeysOf(s)| < |s| && |KeysOf(s)| < LIMIT
    ensures !NoPlace(s, hash, key)
  {
    hide IsPow2;
    if NoPlace(s, hash, key) {
      var h := HomeOf(hash, |s|, key);
      assert RootedAt(s, hash, h);
      NoneEmptyNeedsMany(s, HomeAt(s, hash, h));
    }
  }

  /** The entries of a longer row. */
  lemma MovedKeys(s: Slots, hash: Key -> Hash64, h: nat, e: nat, entry: Entry)
    requires WellPlaced(s, hash) && h < |s| && s[h].Some? && e < |s| && s[e].None? && entry.key !in KeysOf(s)
    ensures Distinct(s[e := s[h]][h := Some(entry)]) && KeysOf(s[e := s[h]][h := Some(entry)]) == KeysOf(s) + {entry.key}
  {
    var r := s[e := s[h]][h := Some(entry)];
    forall k | k in KeysOf(s) ensures k in KeysOf(r) {
      var b :| 0 <= b < |s| && s[b].Some? && s[b].value.key == k;
      assert r[if b == h then e else b].value.key == k;
    }
    assert r[h].value.key == entry.key;
  }

  lemma AddedKeys(s: Slots, e: nat, entry: Entry)
    requires Distinct(s) && e < |s| && s[e].None? && entry.key !in KeysOf(s)
    ensures Distinct(s[e := Some(entry)]) && KeysOf(s[e := Some(entry)]) == KeysOf(s) + {entry.key}
  {
    var r := s[e := Some(entry)];
    forall k | k in KeysOf(s) ensures k in KeysOf(r) {
      var b :| 0 <= b < |s| && s[b].Some? && s[b].value.key == k;
      assert r[b].value.key == k;
    }
    assert r[e].value.key == entry.key;
  }

  /** Placing adds exactly the new key and keeps every entry's home occupied. */
  lemma PlacedKeeps(s: Slots, hash: Key -> Hash64, entry: Entry)
    requires WellPlaced(s, hash) && entry.key !in KeysOf(s) && !NoPlace(s, hash, entry.key)
    ensures var r := Placed(s, hash, entry).value;
            WellPlaced(r, hash) && KeysOf(r) == KeysOf(s) + {entry.key}
  {
    hide Slot, IsPow2;
    var r := Placed(s, hash, entry).value;
    var h := HomeOf(hash, |s|, entry.key);
    if s[h].None? {
      AddedKeys(s, h, entry);
    } else {
      var from := HomeAt(s, hash, h);
      assert RootedAt(s, hash, h);
      FirstEmptyPasses(s, from, 1);
      var e := Slot(|s|, from, FirstEmpty(s, from, 1));
      if from == h {
        AddedKeys(s, e, entry);
      } else {
        MovedKeys(s, hash, h, e, entry);
        assert r == s[e := s[h]][h := Some(entry)];
      }
    }
    forall b | 0 <= b < |r| && r[b].Some? ensures RootedAt(r, hash, b) {
      assert b < |s| && s[b].Some? ==> RootedAt(s, hash, b);
    }
  }

  lemma BlankIsWellPlaced(n: nat, hash: Key -> Hash64)
    requires n > 0 && IsPow2(n)
    ensures WellPlaced(Blank(n), hash) && KeysOf(Blank(n)) == {}
  {
  }

  lemma SuffixKeys(s: Slots, i: nat)
    requires i < |s|
    ensures KeysOf(s[i..]) == if s[i].Some? then {s[i].value.key} + KeysOf(s[i + 1..]) else KeysOf(s[i + 1..])
    ensures KeysOf(s[i..]) <= KeysOf(s)
    ensures Distinct(s) && s[i].Some? ==> s[i].value.key !in KeysOf(s[i + 1..])
  {
    var t := s[i..];
    assert t[1..] == s[i + 1..];
    forall k | k in KeysOf(t[1..]) ensures k in KeysOf(t) {
      var b :| 0 <= b < |t[1..]| && t[1..][b].Some? && t[1..][b].value.key == k;
      assert t[b + 1].value.key == k;
    }
    forall k | k in KeysOf(t) && !(s[i].Some? && k == s[i].value.key) ensures k in KeysOf(t[1..]) {
      var b :| 0 <= b < |t| && t[b].Some? && t[b].value.key == k;
      assert t[1..][b - 1].value.key == k;
    }
    if s[i].Some? {
      assert t[0].value.key == s[i].value.key;
    }
    forall k | k in KeysOf(t) ensures k in KeysOf(s) {
      var b :| 0 <= b < |t| && t[b].Some? && t[b].value.key == k;
      assert s[i + b].value.key == k;
    }
  }

  /** Few enough to find a place each in `n` buckets. */
  predicate Few(keys: set<Key>, n: nat)
  {
    |keys| <= n && |keys| <= LIMIT
  }

  /** One step of a bucket scan: `keys` are those placed already and those to come. */
  lemma ScanStep(s: Slots, i: nat, hash: Key -> Hash64, to: Slots, keys: set<Key>)
    requires Distinct(s) && i < |s| && s[i].Some? && WellPlaced(to, hash)
    requires |to| > 0 && KeysOf(to) !! KeysOf(s[i..]) && KeysOf(to) + KeysOf(s[i..]) == keys
    ensures NoPlace(to, hash, s[i].value.key) ==> !Few(keys, |to|)
    ensures !NoPlace(to, hash, s[i].value.key) ==>
              var to' := Placed(to, hash, s[i].value).value;
              && WellPlaced(to', hash) && KeysOf(to') !! KeysOf(s[i + 1..])
              && KeysOf(to') + KeysOf(s[i + 1..]) == keys
  {
    hide IsPow2, WellPlaced, Distinct, Placed, NoPlace, KeysOf;
    SuffixKeys(s, i);
    PositiveSize(to, hash);
    var key := s[i].value.key;
    if NoPlace(to, hash, key) {
      SubsetSize(KeysOf(to) + {key}, keys);
      if Few(keys, |to|) {
        FewHavePlace(to, hash, key);
      }
    } else {
      PlacedKeeps(to, hash, s[i].value);
    }
  }

  lemma PositiveSize(s: Slots, hash: Key -> Hash64)
    requires WellPlaced(s, hash)
    ensures |s| > 0 && IsPow2(|s|) && Distinct(s)
  {
  }

  /** A bucket scan that ends has moved every entry; one of few entries does end. */
  lemma {:induction false} ScannedKeeps(s: Slots, i: nat, hash: Key -> Hash64, to: Slots, keys: set<Key>)
    requires Distinct(s) && i <= |s| && |to| > 0 && WellPlaced(to, hash)
    requires KeysOf(to) !! KeysOf(s[i..]) && KeysOf(to) + KeysOf(s[i..]) == keys
    ensures Scanned(s, i, hash, to).Some? ==>
              WellPlaced(Scanned(s, i, hash, to).value, hash) && KeysOf(Scanned(s, i, hash, to).value) == keys
    ensures Few(keys, |to|) ==> Scanned(s, i, hash, to).Some?
    decreases |s| - i
  {
    hide IsPow2, WellPlaced, Distinct, Placed, NoPlace, KeysOf, Few;
    if i == |s| {
      NoKeys(s[i..]);
    } else {
      SuffixKeys(s, i);
      if s[i].None? {
        ScannedKeeps(s, i + 1, hash, to, keys);
      } else {
        ScanStep(s, i, hash, to, keys);
        if !NoPlace(to, hash, s[i].value.key) {
          ScannedKeeps(s, i + 1, hash, Placed(to, hash, s[i].value).value, keys);
        }
      }
    }
  }

  lemma NoKeys(s: Slots)
    requires s == []
    ensures KeysOf(s) == {}
  {
  }

  /** A rehash keeps the keys; one of few entries asks for the given capacity only. */
  lemma {:induction false} RehashedKeeps(s: Slots, c: nat, env: Env)
    requires EnvOk(env) && Distinct(s) && c > 0 && IsPow2(c)
    ensures var r := Rehashed(s, c, env);
            && (r.Rebuilt? ==> WellPlaced(r.slots, env.hash) && KeysOf(r.slots) == KeysOf(s))
            && (r.Denied? ==> IsPow2(r.asked))
            && (Few(KeysOf(s), c) ==> if r.Denied? then r.asked == c else |r.slots| == c)
    decreases env.limit - c
  {
    hide IsPow2, WellPlaced, Distinct, KeysOf, Scanned, Few;
    if env.grants(c) {
      BlankIsWellPlaced(c, env.hash);
      assert s[0..] == s;
      ScannedKeeps(s, 0, env.hash, Blank(c), KeysOf(s));
      if Scanned(s, 0, env.hash, Blank(c)).None? {
        DoublePow2(c);
        RehashedKeeps(s, 2 * c, env);
      }
    }
  }

  /** Every capacity asked for before the one denied was granted, and the bucket scan into it
      came to an entry without a place. */
  lemma {:induction false} DeniedMeans(s: Slots, c: nat, env: Env)
    requires EnvOk(env) && c > 0 && IsPow2(c) && Rehashed(s, c, env).Denied?
    ensures var asked := Rehashed(s, c, env).asked;
            forall b: nat {:trigger env.grants(b)} :: IsPow2(b) && c <= b < asked ==>
              env.grants(b) && Scanned(s, 0, env.hash, Blank(b)).None?
    decreases env.limit - c
  {
    hide IsPow2, Scanned;
    if env.grants(c) {
      DoublePow2(c);
      DeniedMeans(s, 2 * c, env);
      forall b: nat | IsPow2(b) && c < b ensures 2 * c <= b {
        PowerGap(c, b);
      }
    }
  }

  /** A table that an insertion may meet. */
  ghost predicate AtRest(s: Slots, env: Env)
  {
    && Distinct(s) && IsPow2(|s|) && (|s| == 1 || |s| >= MIN_NONZERO_BUCKET_COUNT)
    && Fits(|KeysOf(s)|, env.maxLoad, CapOf(s))
  }

  /** The numbers of entries and buckets when one more key does not fit. */
  lemma GrowthMeans(s: Slots, key: Key, env: Env, need: nat)
    requires EnvOk(env) && env.maxLoad <= 1.0 && AtRest(s, env) && WellPlaced(s, env.hash)
    requires Overfull(s, env.maxLoad) || NoPlace(s, env.hash, key)
    requires IsPow2(need) && need >= MIN_NONZERO_BUCKET_COUNT && Fits(|KeysOf(s)| + 1, env.maxLoad, need)
    requires |KeysOf(s)| < LIMIT
    ensures MIN_NONZERO_BUCKET_COUNT <= NextCap(CapOf(s)) <= need && IsPow2(NextCap(CapOf(s)))
    ensures CapOf(s) < NextCap(CapOf(s)) && Few(KeysOf(s), NextCap(CapOf(s)))
  {
    hide Distinct, WellPlaced, KeysOf, Fits, IsPow2, NoPlace;
    var cap, n := CapOf(s), |KeysOf(s)|;
    FitsInBuckets(n, env.maxLoad, cap);
    if Fits(n + 1, env.maxLoad, cap) {
      FitsSomewhere(n + 1, env.maxLoad, cap);
      FitsInBuckets(n + 1, env.maxLoad, cap);
      FewHavePlace(s, env.hash, key);
      assert false;
    }
    BelowNeed(n + 1, env.maxLoad, cap, need);
  }

  /** An insertion is refused only for a new key and a capacity that was denied; as long as
      few entries are stored, one no larger than what fits them. */
  lemma {:induction false} RefusalMeans(s: Slots, key: Key, val: Value, replace: bool, env: Env, need: nat)
    requires EnvOk(env) && env.maxLoad <= 1.0 && AtRest(s, env) && WellPlaced(s, env.hash)
    requires Inserted(s, key, val, replace, env).Refused?
    requires IsPow2(need) && need >= MIN_NONZERO_BUCKET_COUNT && Fits(|KeysOf(s)| + 1, env.maxLoad, need)
    requires |KeysOf(s)| < LIMIT
    ensures var asked := Inserted(s, key, val, replace, env).asked;
            key !in KeysOf(s) && IsPow2(asked) && MIN_NONZERO_BUCKET_COUNT <= asked <= need && !env.grants(asked)
    decreases env.limit - |s|
  {
    hide WellPlaced, KeysOf, Fits, IsPow2, NoPlace, Rehashed, Few, Overfull, Distinct, Tried;
    FindMeans(s, key);
    var next := NextCap(CapOf(s));
    GrowthMeans(s, key, env, need);
    RehashedKeeps(s, next, env);
    var r := Rehashed(s, next, env);
    if r.Rebuilt? {
      PositiveSize(r.slots, env.hash);
      FitsMonotone(|KeysOf(s)|, env.maxLoad, CapOf(s), next);
      RefusalMeans(r.slots, key, val, replace, env, need);
    }
  }

  lemma FindMeans(s: Slots, key: Key)
    ensures Find(s, key, 0).Some? <==> key in KeysOf(s)
  {
  }

  /** A capacity that `n` entries do not fit is below one that they fit, and so is its double
      at most. */
  lemma BelowNeed(n: nat, maxLoad: real, cap: nat, need: nat)
    requires maxLoad > 0.0 && n > 0 && !Fits(n, maxLoad, cap) && Fits(n, maxLoad, need)
    requires (cap == 0 || (IsPow2(cap) && cap >= MIN_NONZERO_BUCKET_COUNT)) && IsPow2(need) && need >= MIN_NONZERO_BUCKET_COUNT
    ensures MIN_NONZERO_BUCKET_COUNT <= NextCap(cap) <= need && IsPow2(NextCap(cap)) && cap < NextCap(cap)
  {
    hide Fits, IsPow2;
    EightIsPow2();
    if need <= cap {
      FitsMonotone(n, maxLoad, need, cap);
    }
    if cap > 0 {
      DoublePow2(cap);
      PowerGap(cap, need);
    }
  }

  // ----- which entries are stored -----

  lemma Swapped(s: Slots, h: nat, e: nat, entry: Entry)
    requires h < |s| && e < |s| && h != e && s[e].None?
    ensures forall x: Entry :: Some(x) in s[e := s[h]][h := Some(entry)] <==> Some(x) in s || x == entry
  {
    var r := s[e := s[h]][h := Some(entry)];
    assert r[h] == Some(entry) && r[e] == s[h];
    forall x: Entry | Some(x) in s ensures Some(x) in r {
      var b :| 0 <= b < |s| && s[b] == Some(x);
      assert r[if b == h then e else b] == Some(x);
    }
  }

  lemma Filled(s: Slots, e: nat, entry: Entry)
    requires e < |s| && s[e].None?
    ensures forall x: Entry :: Some(x) in s[e := Some(entry)] <==> Some(x) in s || x == entry
  {
    var r := s[e := Some(entry)];
    assert r[e] == Some(entry);
    forall x: Entry | Some(x) in s ensures Some(x) in r {
      var b :| 0 <= b < |s| && s[b] == Some(x);
      assert r[b] == Some(x);
    }
  }

  /** Placing adds the new entry and loses none. */
  lemma PlacedMeans(s: Slots, hash: Key -> Hash64, entry: Entry)
    requires WellPlaced(s, hash) && !NoPlace(s, hash, entry.key)
    ensures forall x: Entry :: Some(x) in Placed(s, hash, entry).value <==> Some(x) in s || x == entry
  {
    hide Slot, IsPow2;
    var r := Placed(s, hash, entry).value;
    var h := HomeOf(hash, |s|, entry.key);
    if s[h].None? {
      Filled(s, h, entry);
    } else {
      var from := HomeAt(s, hash, h);
      FirstEmptyPasses(s, from, 1);
      var e := Slot(|s|, from, FirstEmpty(s, from, 1));
      if from == h {
        Filled(s, e, entry);
      } else {
        Swapped(s, h, e, entry);
        assert r == s[e := s[h]][h := Some(entry)];
      }
    }
  }

  /** What an insertion does to the entries: the key gets the new value if it is new or its
      value is to be replaced, and keeps its old one otherwise. */
  lemma TriedMeans(s: Slots, key: Key, val: Value, replace: bool, hash: Key -> Hash64, maxLoad: real)
    requires WellPlaced(s, hash) && Tried(s, key, val, replace, hash, maxLoad).Some?
    ensures var r := Tried(s, key, val, replace, hash, maxLoad).value;
            && (forall x: Entry | x.key != key :: Some(x) in r <==> Some(x) in s)
            && (replace || key !in KeysOf(s) ==> Some(Entry(key, val)) in r && forall x: Entry | Some(x) in r && x.key == key :: x.val == val)
            && (!replace && key in KeysOf(s) ==> r == s)
  {
    hide IsPow2, Placed, NoPlace, FirstEmpty, Slot;
    FindMeans(s, key);
    match Find(s, key, 0)
    case None =>
      PlacedMeans(s, hash, Entry(key, val));
    case Some(b) =>
      if replace {
        var r := s[b := Some(Entry(key, val))];
        assert r[b] == Some(Entry(key, val));
        forall x: Entry | x.key != key && Some(x) in s ensures Some(x) in r {
          var c :| 0 <= c < |s| && s[c] == Some(x);
          assert r[c] == Some(x);
        }
      }
  }

  /** Some entry of home `h` lies on its probe path, so the furthest place is one. */
  lemma {:induction false} FurthestIsOccupied(s: Slots, hash: Key -> Hash64, h: nat, d: nat, d0: nat)
    requires |s| > 0 && d0 <= d
    requires s[Slot(|s|, h, d0)].Some? && HomeAt(s, hash, Slot(|s|, h, d0)) == h
    ensures var b := Furthest(s, hash, h, d); s[b].Some? && HomeAt(s, hash, b) == h
    decreases d
  {
    hide Slot;
    var b := Slot(|s|, h, d);
    if d > 0 && !(s[b].Some? && HomeOf(hash, |s|, s[b].value.key) == h) {
      FurthestIsOccupied(s, hash, h, d - 1, d0);
    }
  }

  /** What an erasure does to the entries: exactly the one with the key goes. */
  lemma ErasedMeans(s: Slots, hash: Key -> Hash64, key: Key)
    requires WellPlaced(s, hash)
    ensures forall x: Entry :: Some(x) in Erased(s, hash, key) <==> Some(x) in s && x.key != key
  {
    hide Slot, Furthest, IsPow2;
    FindMeans(s, key);
    if Find(s, key, 0).Some? {
      var b := Find(s, key, 0).value;
      var h := HomeOf(hash, |s|, key);
      var d0 := ProbingReaches(|s|, h, b);
      FurthestIsOccupied(s, hash, h, |s| - 1, d0);
      var last := Furthest(s, hash, h, |s| - 1);
      var r := s[b := s[last]][last := None];
      forall x: Entry | Some(x) in s && x.key != key ensures Some(x) in r {
        var c :| 0 <= c < |s| && s[c] == Some(x);
        assert r[if c == last then b else c] == Some(x);
      }
    }
  }

  /** What a bucket scan does to the entries: all of them arrive. */
  lemma {:induction false} ScannedMeans(s: Slots, i: nat, hash: Key -> Hash64, to: Slots)
    requires Distinct(s) && i <= |s| && WellPlaced(to, hash) && KeysOf(to) !! KeysOf(s[i..]) && Scanned(s, i, hash, to).Some?
    ensures forall x: Entry :: Some(x) in Scanned(s, i, hash, to).value <==> Some(x) in to || Some(x) in s[i..]
    decreases |s| - i
  {
    hide IsPow2, WellPlaced, Distinct, Placed, NoPlace, KeysOf;
    if i < |s| {
      SuffixKeys(s, i);
      assert s[i..] == [s[i]] + s[i + 1..];
      if s[i].None? {
        ScannedMeans(s, i + 1, hash, to);
      } else {
        PlacedMeans(to, hash, s[i].value);
        ScanStep(s, i, hash, to, KeysOf(to) + KeysOf(s[i..]));
        ScannedMeans(s, i + 1, hash, Placed(to, hash, s[i].value).value);
      }
    }
  }

  // ----- which entry of a home comes first -----

  /** The entry in its own home bucket `h` comes from bucket `b`, the first of that home. */
  ghost predicate HeadedBy(s: Slots, hash: Key -> Hash64, to: Slots, h: nat, b: nat)
    requires h < |to|
  {
    && b < |s| && s[b].Some? && s[b] == to[h]
    && forall c | 0 <= c < b && s[c].Some? :: HomeOf(hash, |to|, s[c].value.key) != h
  }

  /** An entry of home `h` sits in bucket `h`. */
  ghost predicate Headed(hash: Key -> Hash64, to: Slots, h: nat)
    requires h < |to|
  {
    to[h].Some? && HomeAt(to, hash, h) == h
  }

  /** Of the entries of a home among the first `i` buckets, the first one sits at home. */
  ghost predicate FirstAtHome(s: Slots, i: nat, hash: Key -> Hash64, to: Slots)
  {
    && |to| > 0 && i <= |s|
    && (forall h | 0 <= h < |to| && Headed(hash, to, h) :: exists b: nat :: b < i && HeadedBy(s, hash, to, h, b))
    && forall c | 0 <= c < i && s[c].Some? :: Headed(hash, to, HomeOf(hash, |to|, s[c].value.key))
  }

  lemma FirstAtHomeStep(s: Slots, i: nat, hash: Key -> Hash64, to: Slots)
    requires FirstAtHome(s, i, hash, to) && i < |s| && s[i].Some? && WellPlaced(to, hash) && !NoPlace(to, hash, s[i].value.key)
    ensures FirstAtHome(s, i + 1, hash, Placed(to, hash, s[i].value).value)
  {
    hide Slot, IsPow2, Distinct;
    var r := Placed(to, hash, s[i].value).value;
    var home := HomeOf(hash, |to|, s[i].value.key);
    if to[home].Some? {
      var from := HomeAt(to, hash, home);
      assert RootedAt(to, hash, home);
      FirstEmptyPasses(to, from, 1);
    }
    forall h | 0 <= h < |r| && Headed(hash, r, h) ensures exists b: nat :: b < i + 1 && HeadedBy(s, hash, r, h, b) {
      if h == home && !Headed(hash, to, home) {
        assert HeadedBy(s, hash, r, h, i);
      } else {
        assert Headed(hash, to, h) && r[h] == to[h];
        var b: nat :| b < i && HeadedBy(s, hash, to, h, b);
        assert HeadedBy(s, hash, r, h, b);
      }
    }
    forall c | 0 <= c < i + 1 && s[c].Some? ensures Headed(hash, r, HomeOf(hash, |r|, s[c].value.key)) {
      if c < i {
        assert Headed(hash, to, HomeOf(hash, |to|, s[c].value.key));
      }
    }
  }

  lemma FirstAtHomeSkip(s: Slots, i: nat, hash: Key -> Hash64, to: Slots)
    requires FirstAtHome(s, i, hash, to) && i < |s| && s[i].None?
    ensures FirstAtHome(s, i + 1, hash, to)
  {
    forall h | 0 <= h < |to| && Headed(hash, to, h) ensures exists b: nat :: b < i + 1 && HeadedBy(s, hash, to, h, b) {
      var b: nat :| b < i && HeadedBy(s, hash, to, h, b);
    }
  }

  /** A bucket scan goes through the old buckets in order: of the entries that share a new
      home, the one from the first old bucket ends up in the home bucket. */
  lemma {:induction false} ScannedInOrder(s: Slots, i: nat, hash: Key -> Hash64, to: Slots)
    requires Distinct(s) && WellPlaced(to, hash) && i <= |s| && KeysOf(to) !! KeysOf(s[i..])
    requires FirstAtHome(s, i, hash, to) && Scanned(s, i, hash, to).Some?
    ensures FirstAtHome(s, |s|, hash, Scanned(s, i, hash, to).value)
    decreases |s| - i
  {
    hide IsPow2, WellPlaced, Distinct, Placed, NoPlace, KeysOf, FirstAtHome;
    PositiveSize(to, hash);
    if i < |s| {
      SuffixKeys(s, i);
      if s[i].None? {
        FirstAtHomeSkip(s, i, hash, to);
        ScannedInOrder(s, i + 1, hash, to);
      } else {
        ScanStep(s, i, hash, to, KeysOf(to) + KeysOf(s[i..]));
        FirstAtHomeStep(s, i, hash, to);
        ScannedInOrder(s, i + 1, hash, Placed(to, hash, s[i].value).value);
      }
    }
  }

  lemma RehashedInOrder(s: Slots, n: nat, hash: Key -> Hash64)
    requires Distinct(s) && n > 0 && IsPow2(n) && Scanned(s, 0, hash, Blank(n)).Some?
    ensures FirstAtHome(s, |s|, hash, Scanned(s, 0, hash, Blank(n)).value)
  {
    hide IsPow2, WellPlaced, Distinct, KeysOf, Scanned;
    BlankIsWellPlaced(n, hash);
    assert s[0..] == s;
    ScannedInOrder(s, 0, hash, Blank(n));
  }
}
