/** Boost's `foa::table_core`: the arrays of a table together with its load bound, which an
    erasure lowers when it may leave overflow behind, and the growth that resets it. */
module FoaCore {
  import opened Entries
  import opened FoaBytes
  import opened FoaIndex
  import opened FoaPlacement
  import opened FoaSizes
  import opened FoaTable
  import opened Powers

  /** What arrays holding `extra` hold once `m` has been copied there too. */
  ghost function Joined(extra: map<Key, Value>, m: map<Key, Value>): map<Key, Value>
  {
    extra + m
  }

  class TableCore {
    const hash: Key -> Hash64
    var arrays: Arrays
    /** The size at which the table grows. */
    var ml: nat
    var size: nat

    /** The load bound never exceeds the capacity, nor seven eighths of the capacity of a table
        that is not small; the size never exceeds the load bound. */
    ghost predicate Valid()
      reads this, arrays, arrays.groups, arrays.elements
    {
      && arrays.Valid() && arrays.hash == hash
      && size == |arrays.where| <= ml <= arrays.elements.Length
      && (arrays.elements.Length > 29 ==> 8 * ml <= 7 * arrays.elements.Length)
    }

    /** The load bound is what it is for a fresh table: the whole capacity of a small one, and
        else the largest number that is at most seven eighths of the capacity. */
    ghost predicate FreshBound()
      reads this, arrays
    {
      var capacity := arrays.elements.Length;
      if capacity <= 29 then ml == capacity else 8 * ml <= 7 * capacity < 8 * (ml + 1)
    }

    ghost function Model(): map<Key, Value>
      requires Valid()
      reads this, arrays, arrays.groups, arrays.elements
    {
      arrays.Model()
    }

    constructor (hash: Key -> Hash64, n: nat)
      requires n <= MAX_REQUEST
      ensures Valid() && Model() == map[] && this.hash == hash && fresh(arrays) && fresh(arrays.groups) && fresh(arrays.elements)
      ensures arrays.elements.Length == if n == 0 then 0 else CapacityFor(n)
      ensures ml == InitialMaxLoad(arrays.elements.Length) && FreshBound()
    {
      RequestFits(n);
      this.hash := hash;
      var a := new Arrays(hash, n);
      InitialMaxLoadBounds(a.elements.Length);
      InitialMaxLoadMeans(a.elements.Length);
      arrays := a;
      ml := InitialMaxLoad(a.elements.Length);
      size := 0;
    }

    method Find(key: Key) returns (loc: Option<nat>)
      requires Valid()
      ensures loc.Some? <==> key in Model()
      ensures loc.Some? ==> Occ(arrays.Tab(), loc.value) && arrays.elements[loc.value] == Entry(key, Model()[key])
    {
      hide Indexed, At, Contents;
      Lookup(arrays.Tab(), arrays.Hs(), arrays.where, key);
      loc := arrays.Find(key);
    }

    /** Inserts unless the key is present, growing first at the load bound. */
    method Emplace(key: Key, val: Value) returns (loc: nat, inserted: bool)
      requires Valid() && (key in Model() || size < ml || GrowthRequest(size) <= MAX_REQUEST)
      modifies this, arrays, arrays.groups, arrays.elements
      ensures Valid() && inserted == (key !in old(Model()))
      ensures Model() == if inserted then old(Model())[key := val] else old(Model())
      ensures key in arrays.where && loc == arrays.where[key]
      ensures size == old(size) + if inserted then 1 else 0
      ensures !inserted || old(size < ml) ==> arrays == old(arrays) && ml == old(ml)
      ensures inserted && old(size == ml) ==> Regrown(old(size)) && FreshBound()
      ensures inserted && old(size < ml) ==> arrays.Tab() == PlacedFrom(old(arrays.Tab()), arrays.Hs(), Entry(key, val), 0)
      ensures inserted && old(size == ml) ==> RebuiltWith(old(arrays.Tab()), Entry(key, val))
      ensures !inserted ==> arrays.Tab() == old(arrays.Tab())
      ensures arrays != old(arrays) ==> fresh(arrays) && fresh(arrays.groups) && fresh(arrays.elements)
    {
      hide Indexed, At, Contents, CapacityFor, GrowthRequest, InitialMaxLoad;
      Lookup(arrays.Tab(), arrays.Hs(), arrays.where, key);
      var found := arrays.Find(key);
      if found.Some? {
        return found.value, false;
      }
      inserted := true;
      if size < ml {
        loc := arrays.EmplaceAt(key, val);
        size := size + 1;
      } else {
        loc := EmplaceWithRehash(key, val);
      }
    }

    /** The table has just grown from `before` elements. */
    ghost predicate Regrown(before: nat)
      reads this, arrays
    {
      && arrays.elements.Length == CapacityFor(GrowthRequest(before))
      && ml == InitialMaxLoad(arrays.elements.Length)
    }

    /** The new entry was placed first in wiped arrays, and then all those of `t` in order. */
    ghost predicate RebuiltWith(t: FoaIndex.Tab, entry: Entry)
      reads this, arrays, arrays.groups, arrays.elements
    {
      arrays.exponent <= 64 &&
      exists blank :: Wiped(blank) && arrays.Tab() == CopiedFrom(t, 0, arrays.Hs(), PlacedFrom(blank, arrays.Hs(), entry, 0))
    }

    /** All entries of `t` were placed in wiped arrays in order. */
    ghost predicate RebuiltFrom(t: FoaIndex.Tab)
      reads this, arrays, arrays.groups, arrays.elements
    {
      arrays.exponent <= 64 && exists blank :: Wiped(blank) && arrays.Tab() == CopiedFrom(t, 0, arrays.Hs(), blank)
    }

    /** New arrays for growth, with the new entry in them already. */
    method GrownWith(key: Key, val: Value) returns (a: Arrays, loc: nat, ghost blank: FoaIndex.Tab)
      requires GrowthRequest(size) <= MAX_REQUEST
      ensures fresh(a) && fresh(a.groups) && fresh(a.elements) && a.hash == hash && a.Valid()
      ensures a.Model() == map[][key := val] && key in a.where && loc == a.where[key]
      ensures size + 1 <= InitialMaxLoad(a.elements.Length) <= a.elements.Length == CapacityFor(GrowthRequest(size))
      ensures Wiped(blank) && a.Tab() == PlacedFrom(blank, a.Hs(), Entry(key, val), 0)
    {
      hide Wiped, PlacedFrom;
      hide Indexed, At, Contents, Sized, ExponentFor, CapacityFor, GrowthRequest, InitialMaxLoad;
      RequestFits(GrowthRequest(size));
      GrowthSuffices(size);
      a := new Arrays(hash, GrowthRequest(size));
      InitialMaxLoadBounds(a.elements.Length);
      InitialMaxLoadMeans(a.elements.Length);
      blank := a.Tab();
      loc := a.EmplaceAt(key, val);
    }

    /** Inserts into larger arrays first and then moves everything else there. */
    method EmplaceWithRehash(key: Key, val: Value) returns (loc: nat)
      requires Valid() && GrowthRequest(size) <= MAX_REQUEST && key !in arrays.where
      modifies this
      ensures Valid() && Model() == old(Model())[key := val]
      ensures key in arrays.where && loc == arrays.where[key]
      ensures fresh(arrays) && fresh(arrays.groups) && fresh(arrays.elements) && size == old(size) + 1
      ensures Regrown(old(size)) && FreshBound() && RebuiltWith(old(arrays.Tab()), Entry(key, val))
    {
      hide Wiped, PlacedFrom, CopiedFrom;
      hide Indexed, At, Contents, Sized, Pow2, CapacityFor, GrowthRequest, InitialMaxLoad, Joined;
      var a;
      ghost var blank;
      a, loc, blank := GrownWith(key, val);
      ContentsSize(arrays.Tab(), arrays.Hs(), arrays.where);
      NewFirst(key, val, Model());
      Rebuild(a, a.Model());
      size := size + 1;
    }

    /** Moves all elements to the given arrays, which hold `extra` already. */
    method Rebuild(a: Arrays, ghost extra: map<Key, Value>)
      requires arrays.Valid() && a.Valid() && a != arrays && a.Model() == extra
      requires arrays.groups != a.groups && arrays.elements != a.elements
      requires extra.Keys !! arrays.where.Keys && |arrays.where| + |extra| <= a.elements.Length
      modifies this, a`where, a.groups, a.elements
      ensures arrays == a && a.Valid() && a.Model() == Joined(extra, old(arrays.Model())) && Extends(old(a.where), a.where)
      ensures ml == InitialMaxLoad(a.elements.Length) && size == old(size) && FreshBound()
      ensures |a.where| == |Joined(extra, old(arrays.Model()))|
      ensures a.Tab() == CopiedFrom(old(arrays.Tab()), 0, a.Hs(), old(a.Tab()))
    {
      hide CopiedFrom;
      hide Indexed, At, Contents;
      arrays.TransferTo(a, extra);
      ContentsSize(a.Tab(), a.Hs(), a.where);
      arrays := a;
      ml := InitialMaxLoad(a.elements.Length);
      InitialMaxLoadMeans(a.elements.Length);
    }

    /** Erases the element in slot `loc`; the load bound drops when it may have overflowed. */
    method EraseAt(loc: nat)
      requires Valid() && Occ(arrays.Tab(), loc)
      modifies this, arrays, arrays.groups
      ensures Valid() && Model() == old(Model()) - {old(arrays.elements[loc].key)}
      ensures arrays == old(arrays) && size == old(size) - 1
      ensures loc / N < arrays.groups.Length && arrays.Tab() == Freed(old(arrays.Tab()), loc / N, loc % N)
      ensures old(ml) - 1 <= ml <= old(ml)
      ensures ml < old(ml) <==> old(Overflowed(arrays.groups[loc / N], arrays.Hs().code(arrays.elements[loc].key)))
    {
      hide Indexed, At, Contents, Overflowed;
      OccupiedKey(arrays.Tab(), arrays.Hs(), arrays.where, loc);
      var caused := arrays.Free(loc);
      assert arrays.where.Keys == old(arrays.where.Keys) - {arrays.elements[loc].key};
      ml := ml - (if caused then 1 else 0);
      size := size - 1;
    }

    method Erase(key: Key) returns (n: nat)
      requires Valid()
      modifies this, arrays, arrays.groups
      ensures Valid() && Model() == old(Model()) - {key} && n == if key in old(Model()) then 1 else 0
      ensures arrays == old(arrays)
    {
      hide Indexed, At, Contents;
      var loc := Find(key);
      if loc.None? {
        return 0;
      }
      EraseAt(loc.value);
      return 1;
    }

    method ClearAll()
      requires Valid()
      modifies this, arrays, arrays.groups
      ensures Valid() && Model() == map[] && arrays == old(arrays)
      ensures arrays.elements.Length > 0 ==> ml == InitialMaxLoad(arrays.elements.Length) && FreshBound()
      ensures arrays.elements.Length > 0 ==> Wiped(arrays.Tab())
    {
      hide Indexed, At, InitialMaxLoad, Wiped;
      if arrays.elements.Length > 0 {
        arrays.Wipe();
        InitialMaxLoadBounds(arrays.elements.Length);
        InitialMaxLoadMeans(arrays.elements.Length);
        ml := InitialMaxLoad(arrays.elements.Length);
        size := 0;
      }
    }

    /** Changes the capacity to one for at least `n` elements and for the current load. */
    method Rehash(n: nat)
      requires Valid() && n <= MAX_REQUEST && CeilDivLoad(size) <= MAX_REQUEST
      modifies this
      ensures Valid() && Model() == old(Model()) && size == old(size)
      ensures arrays.elements.Length >= n
      ensures var m := if n < CeilDivLoad(size) then CeilDivLoad(size) else n;
              arrays.elements.Length == if m == 0 then 0 else CapacityFor(m)
      ensures ml == if arrays == old(arrays) then old(ml) else InitialMaxLoad(arrays.elements.Length)
      ensures arrays != old(arrays) ==> FreshBound()
      ensures arrays != old(arrays) && size > 0 ==> RebuiltFrom(old(arrays.Tab()))
      ensures arrays == old(arrays) ==> arrays.Tab() == old(arrays.Tab())
      ensures arrays != old(arrays) ==> fresh(arrays) && fresh(arrays.groups) && fresh(arrays.elements)
    {
      hide Indexed, At, Contents, Sized, ExponentFor, CapacityFor, InitialMaxLoad, Joined;
      var m := CeilDivLoad(size);
      var n' := if m > n then m else n;
      RequestFits(n');
      CapacitySuffices(n');
      CapacityIsStable(n');
      if n' > 0 {
        n' := CapacityFor(n');
      }
      if n' != arrays.elements.Length {
        LoadSuffices(size, n');
        var a := new Arrays(hash, n');
        InitialMaxLoadBounds(n');
        ContentsSize(arrays.Tab(), arrays.Hs(), arrays.where);
        NothingFirst(Model());
        Rebuild(a, map[]);
      }
    }

    /** Room for `n` elements in total. */
    method Reserve(n: nat)
      requires Valid() && CeilDivLoad(n) <= MAX_REQUEST && CeilDivLoad(size) <= MAX_REQUEST
      modifies this
      ensures Valid() && Model() == old(Model()) && size == old(size)
      ensures n <= InitialMaxLoad(arrays.elements.Length)
      ensures n <= arrays.elements.Length && (arrays.elements.Length > 29 ==> 8 * n <= 7 * arrays.elements.Length)
      ensures var x := if n < size then size else n;
              arrays.elements.Length == if x == 0 then 0 else CapacityFor(CeilDivLoad(x))
      ensures arrays != old(arrays) ==> fresh(arrays) && fresh(arrays.groups) && fresh(arrays.elements)
    {
      hide Indexed, At, Contents;
      CeilDivLoadOrder(n, size);
      CeilDivLoadOrder(size, n);
      Rehash(CeilDivLoad(n));
      LoadSuffices(n, arrays.elements.Length);
      InitialMaxLoadBounds(arrays.elements.Length);
      InitialMaxLoadMeans(arrays.elements.Length);
    }
  }

  lemma NewFirst(key: Key, val: Value, m: map<Key, Value>)
    requires key !in m
    ensures Joined(map[][key := val], m) == m[key := val] && |m[key := val]| == |m| + 1
    ensures map[][key := val].Keys == {key} && |map[][key := val]| == 1
  {
  }

  lemma NothingFirst(m: map<Key, Value>)
    ensures Joined(map[], m) == m
  {
  }

  lemma OccupiedKey(t: Tab, hs: Hasher, where: map<Key, nat>, s: nat)
    requires Indexed(t, hs, where) && Occ(t, s)
    ensures t.es[s].key in where && |where.Keys| == |where|
    ensures |where.Keys - {t.es[s].key}| == |where| - 1
  {
    hide At;
  }
}
