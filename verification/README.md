# Hash tables of the c_cpp_hash_tables_benchmark shims, modelled in Dafny

The benchmark ships four complete hash tables. Each is a fast index that has to agree with a
plain map, and each rests on an invariant that no single function shows. This project models
the four, with their arrays changed in place, and proves the invariants and the agreement.

- **Verstable** (`cc.h`): `VerstableChains`, `VerstableContents`, `VerstableWords`,
  `VerstableGrowth`, `VerstablePlain`, `VerstableRefinement`, `VerstableMap`,
  `VerstableIteration`, `VerstableRuns`. Open addressing whose 16-bit metadata
  thread a sorted chain through the buckets of every home. Two invariants: the strong one says
  that the chains partition the occupied buckets, the weak one that the occupied buckets hold
  exactly the map. A failed eviction leaves the weak one; a rehash restores the strong one.
  A plain table, told without chains, says where every entry goes and which capacities are
  asked for; the linked table refines it to the very bucket, over whole runs.
- **ankerl::unordered_dense**: `DenseIndex`, `DenseSpacing`, `DenseBulk`, `DenseTable`,
  `DenseRuns`. Robin Hood buckets with packed distance and fingerprint over a vector without
  holes. The central invariant: a bucket away from home is at most one step richer than its
  left neighbour, distances are true, and buckets and values are in bijection. Which keys keep
  the distances within their 24 bits is a condition on homes alone, proved exact.
- **emhash8**: `EmhashChains`, `EmhashIndex`, `EmhashSizes`, `EmhashMap`, `EmhashRuns`. A
  coalesced linked index over a dense pair array, with kick-out, a cached tail bucket and two
  guard entries. Ghost ranks make every chain acyclic.
- **Boost `foa::table_core`**: `FoaGroup`, `FoaBytes`, `FoaIndex`, `FoaPlacement`, `FoaSizes`,
  `FoaTable`, `FoaCore`, `FoaRuns`. Groups of fifteen slots, bit-interleaved in two words, whose overflow
  bits tell a search when to stop; a load bound that erasure may lower. Where elements go and
  which groups are marked is a function of the arrays, which the operations follow slot by slot.
- **Shared**: `Entries`, `EntryVectors` (dense vectors and the map they stand for),
  `Triangular` (quadratic probing modulo a power of two), `Words`, `WideMultiply` (the two
  128-bit multiplications), `Blueprints` (hash function and string keys of the benchmark), and
  the arithmetic of `Modular`, `Powers` and `FiniteSets`.

Every table has the same shape. A pure layer states the invariant on sequences and proves that
each kind of change keeps it. A class holds the arrays, a `Valid()` predicate and a `Model()`
map, and its methods follow the source's control flow. A `Runs` module composes the operations:
any sequence of them acts on the map as the same sequence of map updates.

Reading conventions. Keys compare by `==`; the hash function is an arbitrary function, so equal
keys have equal hash codes and nothing else is assumed of it. Pointers and iterators are bucket
or slot numbers. `x & mask` with a power of two minus one is written `x % n`. Load factors are
exact: reals for Verstable and dense, 7/8 for Boost, `2^27 / mlf` for emhash8. For Verstable the
allocator is a predicate on capacities that refuses everything above some limit. Loops that the
source leaves unbounded have a termination measure here.

`dafny verify dfyconfig.toml` checks the whole project.

## Model

| member | source | states |
|---|---|---|
| Triangular.ProbingVisitsOnce | shims/cc_lib_map/cc.h:1989-1995 | for every power of two `n` and start, the displacements below `n` reach every position, and no position twice |
| Triangular.InverseReaches | shims/boost_unordered_flat_map/boost_unordered.hpp:1982-2002 | an explicit inverse of triangular numbers modulo a power of two: every offset is reached |
| Triangular.InverseUnique | shims/boost_unordered_flat_map/boost_unordered.hpp:1982-2002 | the inverse recovers every displacement below the modulus, so the map is a bijection |
| VerstableChains.ChainsPartition | shims/cc_lib_map/cc.h:1926-1947 | under the strong invariant, the chain followed from an in-home bucket consists of exactly the entries that hash there, and every occupied bucket is on the chain of its own home |
| VerstableChains.ChainFromIncreases | shims/cc_lib_map/cc.h:2145-2166 | displacements strictly increase along every chain, so following the links meets no bucket twice |
| VerstableChains.HomeIsMasked | shims/cc_lib_map/cc.h:2257-2257 | the home bucket is the hash code masked by the bucket count less one |
| VerstableChains.FragIsTop | shims/cc_lib_map/cc.h:1982-1988 | the fragment is the number that the top four bits of the hash code form |
| VerstableChains.LinkKeepsStrong | shims/cc_lib_map/cc.h:2330-2338 | linking a new entry after the right predecessor keeps every clause of the strong invariant for all other entries |
| VerstableChains.UnlinkKeepsStrong | shims/cc_lib_map/cc.h:2774-2790 | taking an entry off its chain keeps the strong invariant for the rest |
| VerstableChains.SkipBreaksChain | shims/cc_lib_map/cc.h:2201-2208 | once an occupant has been skipped and not yet relinked, the strong invariant fails for every assignment of displacements: a failed eviction leaves only the weak one |
| VerstableContents.EvictionKeepsContents | shims/cc_lib_map/cc.h:2178-2227 | a completed eviction moves one entry and leaves the abstract map unchanged |
| VerstableContents.EvictionKeepsStrong | shims/cc_lib_map/cc.h:2178-2227 | a completed eviction empties the bucket and keeps the strong invariant |
| VerstableContents.SearchStep | shims/cc_lib_map/cc.h:2590-2608 | a chain search that passes a bucket moves to the next entry of the same chain; at the end mark the key is absent |
| VerstableContents.SearchHit | shims/cc_lib_map/cc.h:2595-2601 | fragment and key match at a bucket if and only if that is the bucket where the key is stored |
| VerstableContents.SwappingErases | shims/cc_lib_map/cc.h:2792-2822 | moving the last entry of the chain into the hole removes exactly the erased key and empties the last entry's bucket |
| VerstableContents.LimitIsHarmlessWhenSmall | shims/cc_lib_map/cc.h:2122-2143 | with at most 1024 buckets, a search that runs into the displacement limit has met only occupied buckets and there is no other bucket |
| VerstableRefinement.OutOfReachNeedsMany | shims/cc_lib_map/cc.h:2115-2143 | a search without an empty bucket in reach has passed as many entries as there are buckets or 2047 of them |
| VerstableMap.Map.constructor | shims/cc_lib_map/cc.h:2413-2442 | a fresh table of any power-of-two capacity from 8, or the placeholder, is valid and stands for the empty map |
| VerstableMap.Map.FindFirstEmpty | shims/cc_lib_map/cc.h:2115-2143 | the first empty bucket of the probe sequence with its displacement, or proof that the whole sequence up to the limit is occupied; from an occupied home it lies within one round |
| VerstableMap.Map.FindInsertLocationInChain | shims/cc_lib_map/cc.h:2149-2166 | the entry whose displacement is the largest below the given one, so that the chain stays sorted |
| VerstableMap.Map.Evict | shims/cc_lib_map/cc.h:2178-2227 | on success the bucket is free and table and map are as before; on failure all entries are still stored, the weak invariant holds, the strong one fails for every assignment of displacements, and no empty bucket is within the limit |
| VerstableMap.Map.InsertRaw | shims/cc_lib_map/cc.h:2241-2343 | a new key gets the value, a stored one keeps its value unless it is to be replaced, all else stays, in the very bucket the plain table names; the strong invariant is kept; an absent key is refused if and only if one entry more exceeds the load factor or the search from the home concerned runs into the displacement limit, with the contents untouched |
| VerstableMap.Map.LoadFactorMeans | shims/cc_lib_map/cc.h:2241-2310 | one entry more is refused exactly if the number of entries would exceed the load factor times the bucket count, which no table at rest does |
| VerstableMap.Map.Reinsert | shims/cc_lib_map/cc.h:2352-2400 | adds an absent key without a load check, keeping the strong invariant, in the very bucket the plain table names; refuses it if and only if the search runs into the displacement limit |
| VerstableMap.Map.TransferTo | shims/cc_lib_map/cc.h:2444-2458 | the bucket scan of a rehash, from a state that need only be weakly valid, fills an empty table to the same map; where every entry goes, and whether the scan ends early, is what the plain scan of the old buckets in order says |
| VerstableMap.Map.MakeRehash | shims/cc_lib_map/cc.h:2402-2469 | from a weakly valid table: the strong invariant and the same contents in exactly the buckets that the plain rehash fills, after exactly the capacities that it asks for, each granted and left because the scan met an entry without a place; null exactly when the last one was refused; up to 2047 entries that have a bucket each never ask for more than the requested capacity |
| VerstablePlain.PlacedKeeps | shims/cc_lib_map/cc.h:2241-2343 | placing a new key adds exactly that key and keeps every entry's home occupied by one that belongs there |
| VerstablePlain.NoneEmptyNeedsMany | shims/cc_lib_map/cc.h:2115-2143 | a search without an empty bucket in reach has passed as many entries as there are buckets or 2047 of them |
| VerstablePlain.ScannedKeeps | shims/cc_lib_map/cc.h:2444-2458 | a bucket scan that ends has moved every entry; one of at most 2047 entries with a bucket for each does end, whatever the hash function |
| VerstablePlain.RehashedKeeps | shims/cc_lib_map/cc.h:2437-2469 | a rehash keeps the keys; one of at most 2047 entries with a bucket for each asks for a single capacity |
| VerstablePlain.DeniedMeans | shims/cc_lib_map/cc.h:2437-2469 | when a rehash is refused a capacity, every smaller one down to the requested one was granted, and the bucket scan into it met an entry without a place |
| VerstablePlain.RefusalMeans | shims/cc_lib_map/cc.h:2512-2572 | while fewer than 2047 entries are stored, an insertion is refused only for a new key and only because a capacity no larger than one that fits them was denied |
| VerstablePlain.TriedMeans | shims/cc_lib_map/cc.h:2300-2310 | of the plain table's insertion: a new key or one to be replaced has the new value afterwards, any other entry and a value not to be replaced stay |
| VerstablePlain.ErasedMeans | shims/cc_lib_map/cc.h:2719-2823 | of the plain table's erasure: exactly the entry with the key is gone |
| VerstablePlain.ScannedMeans | shims/cc_lib_map/cc.h:2444-2458 | of the plain table's bucket scan: exactly the old entries arrive, with their values |
| VerstablePlain.RehashedInOrder | shims/cc_lib_map/cc.h:2444-2458 | of the entries that share a new home, the one from the first old bucket ends up in the home bucket |
| VerstableRefinement.StuckHasNoPlace | shims/cc_lib_map/cc.h:2241-2343 | the linked table runs into the displacement limit exactly when the plain one has no place |
| VerstableRefinement.FurthestEndsChain | shims/cc_lib_map/cc.h:2792-2808 | the end of a chain is the entry that lies furthest along the probe path of its home |
| VerstableRefinement.ErasureRefines | shims/cc_lib_map/cc.h:2719-2823 | an erasure through the chains empties the same bucket as one defined by probe paths alone |
| VerstableRefinement.StuckNeedsMany | shims/cc_lib_map/cc.h:2115-2143 | a table that runs into the displacement limit is full or holds at least 2047 entries |
| VerstableGrowth.ChainRoom | shims/cc_lib_map/cc.h:2149-2166 | at most 2047 stored keys share a home |
| VerstableMap.Map.Insert | shims/cc_lib_map/cc.h:2512-2572 | a new key gets the value, a stored one keeps its value unless it is to be replaced, all else stays; on failure nothing changes; table, buckets and the capacity refused are those of the plain insertion, which grows exactly as long as the buckets refuse the key; the table is replaced, or the insertion fails, if and only if the key is new and this table refuses it |
| VerstableMap.Map.Get | shims/cc_lib_map/cc.h:2574-2609 | lookup on the abstract map, in both directions |
| VerstableMap.Map.EraseRaw | shims/cc_lib_map/cc.h:2719-2823 | removes exactly one entry, keeps the strong invariant, empties the bucket that the plain table names, and returns true exactly if that bucket is not ahead of the erased one |
| VerstableMap.Map.Erase | shims/cc_lib_map/cc.h:2853-2890 | removal on the abstract map; the result tells whether the key was present |
| VerstableMap.Map.LeapForward | shims/cc_lib_map/cc.h:2626-2642 | reads four metadata at a time unconditionally, which stays in bounds thanks to the excess metadata, and returns the first occupied bucket at or after the start |
| VerstableMap.Map.LeapBackward | shims/cc_lib_map/cc.h:2644-2673 | four metadata at a time, the last occupied bucket before the iterator, or the reverse end |
| VerstableMap.Map.EraseItr | shims/cc_lib_map/cc.h:2825-2850 | erases and returns the same bucket if an unvisited entry moved there, and the next occupied bucket otherwise |
| VerstableMap.Map.EraseWhileIterating | shims/cc_lib_map/cc.h:2825-2850 | a loop from first to end that erases any chosen subset visits every original entry exactly once and leaves exactly the others |
| VerstableIteration.VisitAndErase | shims/cc_lib_map/cc.h:2792-2848 | progress of an iteration across an erasure: what `erase_raw` returns is right about which entries have been seen |
| VerstableMap.Map.ClearAll | shims/cc_lib_map/cc.h:2971-2996 | empties the map and restores the strong invariant even from a weakly valid table that has entries |
| VerstableMap.Map.MinCapForNEls | shims/cc_lib_map/cc.h:2079-2093 | the least capacity, a power of two from 8, that holds `n` entries within the load factor |
| VerstableGrowth.LeastCapIsLeast | shims/cc_lib_map/cc.h:2079-2093 | no smaller capacity that a table can have holds `n` entries within the load factor |
| VerstableMap.Map.Reserve | shims/cc_lib_map/cc.h:2478-2510 | the same table if it is large enough; otherwise room for `n` entries with unchanged contents, in the buckets that the plain rehash fills, or an unchanged table exactly because the capacity asked for last was refused |
| VerstableMap.Map.Shrink | shims/cc_lib_map/cc.h:2892-2936 | on success at least the least capacity that fits the entries, and exactly that one for up to 2047 entries at a load factor of at most 1; the placeholder for an empty map; unchanged contents; failure exactly because the capacity asked for last was refused |
| VerstableMap.Map.NeverCongestedWhenSmall | shims/cc_lib_map/cc.h:1978-1995 | with up to 1024 buckets, or fewer than 2047 entries, no insertion below the load factor is ever refused by the displacement limit |
| VerstableRuns.Run | shims/cc_lib_map/cc.h:2471-2996 | every run of insert, erase, clear, reserve and shrink ends as the run of the plain table: after as many operations, with the same entries in the same buckets, and if it stops early, at the insertion of a new key for which the same capacity was refused; it keeps the strong invariant and acts on the abstract map operation by operation |
| VerstableRuns.OperationsMean | shims/cc_lib_map/cc.h:2512-2936 | what each operation means for lookups of its key and of every other key |
| VerstableRuns.FewEntriesFit | shims/cc_lib_map/cc.h:2512-2572 | while at most 2047 entries are stored, what is refused is a power of two that is no larger than one that fits them together with the new key |
| VerstableRuns.RunWithFewEntries | shims/cc_lib_map/cc.h:2471-2996 | a run that never holds more than 2047 entries completes if the allocator grants the powers of two up to one that fits them |
| VerstableWords.UnpackInjective | shims/cc_lib_map/cc.h:1974-1980 | the 16-bit metadatum and its three fields determine each other |
| VerstableWords.TakeDisplacement | shims/cc_lib_map/cc.h:2201-2202 | the mask expression that relinks an entry changes its displacement only |
| VerstableWords.Relocated | shims/cc_lib_map/cc.h:2221-2222 | the mask expression for an entry stored outside its home keeps the fragment, clears the flag and takes over the link |
| VerstableWords.TakeFragment | shims/cc_lib_map/cc.h:2810-2811 | the mask expression for a moved entry changes its fragment only |
| VerstableWords.EndOfChain | shims/cc_lib_map/cc.h:2783-2783 | setting all displacement bits turns an entry into the end of its chain and keeps the rest |
| VerstableWords.EmptyIsZero | shims/cc_lib_map/cc.h:1975-1975 | only the zero word is an empty bucket |
| VerstableWords.Head | shims/cc_lib_map/cc.h:2278-2278 | the mask expression for the start of a chain yields fragment, flag and end mark |
| DenseIndex.RunBound | shims/ankerl_unordered_dense/unordered_dense.h:860-871 | no bucket between a key's home and its place is poorer than the probe; in particular none is empty |
| DenseIndex.ProbeStep | shims/ankerl_unordered_dense/unordered_dense.h:1066-1098 | early exit is sound: a probe that exceeds the bucket it meets has shown the key to be absent, and it happens within one round |
| DenseIndex.AfterTie | shims/ankerl_unordered_dense/unordered_dense.h:997-1006 | after a tie of distance and fingerprint the next bucket never exceeds the probe |
| DenseIndex.ShiftUpStep | shims/ankerl_unordered_dense/unordered_dense.h:873-880 | one exchange of an insertion keeps order, true distances and the bijection with the bucket in hand |
| DenseIndex.ShiftDownStep | shims/ankerl_unordered_dense/unordered_dense.h:963-970 | one step of the backward shift keeps order, true distances and the bijection apart from the hole |
| DenseIndex.ClearHole | shims/ankerl_unordered_dense/unordered_dense.h:963-970 | clearing the hole where the shift stops leaves a well-ordered index that lacks only the erased value |
| DenseIndex.ScanStep | shims/ankerl_unordered_dense/unordered_dense.h:979-986 | the unguarded scan for a value's bucket meets that bucket first and no empty bucket before it |
| DenseIndex.Repointed | shims/ankerl_unordered_dense/unordered_dense.h:972-989 | moving the last value into the hole and re-pointing its bucket restores the bijection |
| DenseIndex.RoomLeft | shims/ankerl_unordered_dense/unordered_dense.h:873-880 | fewer values than buckets leaves an empty bucket, so shifting up ends |
| DenseTable.DistanceFits | shims/ankerl_unordered_dense/unordered_dense.h:818-824 | with well-spaced keys a stored distance can be incremented without wrapping its 24 bits |
| DenseTable.StepFits | shims/ankerl_unordered_dense/unordered_dense.h:818-824 | a probe's distance wraps around if and only if the step leaves 24 bits |
| DenseTable.ProbeAdvance | shims/ankerl_unordered_dense/unordered_dense.h:860-871 | with well-spaced keys a probe that goes on does not wrap its distance |
| DenseTable.ProbeWraps | shims/ankerl_unordered_dense/unordered_dense.h:818-824 | when some distance exceeds 2^24 - 2, a probe for a key of the same home with no larger fingerprint is carried on step by step until its distance wraps |
| DenseSpacing.SpacedExactly | shims/ankerl_unordered_dense/unordered_dense.h:860-880 | in whatever order the values came, all stored distances are at most 2^24 - 2 if and only if every interval of `len` buckets is home to fewer than 2^24 - 2 + len keys |
| DenseSpacing.NearWhenSpaced | shims/ankerl_unordered_dense/unordered_dense.h:873-880 | the same bound while a bucket is in hand during an insertion |
| DenseSpacing.SharedHomeIsLimited | shims/ankerl_unordered_dense/unordered_dense.h:860-880 | keys that share a home are well spaced if and only if they are at most 2^24 - 2, which is therefore the exact limit for all hash functions together |
| DenseIndex.StoredDistance | shims/ankerl_unordered_dense/unordered_dense.h:860-880 | no stored distance exceeds the number of values |
| DenseIndex.SharedHome | shims/ankerl_unordered_dense/unordered_dense.h:860-880 | when all values share a home some stored distance reaches the number of values: from 2^24 values on, no 24-bit distance can be true for every hash function |
| DenseTable.Table.NextWhileLess | shims/ankerl_unordered_dense/unordered_dense.h:860-871 | stops within one round where the key belongs, having passed it nowhere |
| DenseTable.Table.PlaceAndShiftUp | shims/ankerl_unordered_dense/unordered_dense.h:873-880 | a bucket in hand becomes part of a complete index; the loop ends at an empty bucket |
| DenseTable.Table.ClearAndFillBucketsFromValues | shims/ankerl_unordered_dense/unordered_dense.h:938-948 | builds the full index of a value vector and does not touch the vector |
| DenseTable.Table.IncreaseSize | shims/ankerl_unordered_dense/unordered_dense.h:950-958 | 16 buckets at first and then twice as many as before, up to the maximum, the same values, and the largest capacity within the load factor; or, exactly if the index type allows no more, nothing |
| DenseTable.Table.DoFind | shims/ankerl_unordered_dense/unordered_dense.h:1060-1098 | agrees with linear search of the values, both when found and when absent |
| DenseTable.Table.DoTryEmplace | shims/ankerl_unordered_dense/unordered_dense.h:1036-1058 | appends exactly one new entry if the key is absent and changes no value if it is present; twice the buckets exactly if the table was full, and refusal exactly if it was full to the limit of its index type |
| DenseTable.Table.DoPlaceElement | shims/ankerl_unordered_dense/unordered_dense.h:1021-1034 | the entry of a new key is appended and its index completed, wherever the probe stopped |
| DenseTable.Table.DoInsertOrAssign | shims/ankerl_unordered_dense/unordered_dense.h:1012-1019 | update of the abstract map and of the vector: a new entry at the end, or the new value in place; refusal exactly if the table was full to the limit of its index type |
| DenseTable.Table.ShiftDown | shims/ankerl_unordered_dense/unordered_dense.h:960-970 | empties one bucket; order, distances and the bijection hold without the erased value; the shift ends even when every bucket is used |
| DenseTable.Table.MoveLastInto | shims/ankerl_unordered_dense/unordered_dense.h:972-989 | the last value fills the hole in the vector and the index follows |
| DenseTable.Table.DoErase | shims/ankerl_unordered_dense/unordered_dense.h:960-989 | removes exactly the value that the bucket refers to and keeps the central invariant |
| DenseTable.Table.FindBucket | shims/ankerl_unordered_dense/unordered_dense.h:991-1006 | the two-phase search of an erasure agrees with linear search |
| DenseTable.Table.DoEraseKey | shims/ankerl_unordered_dense/unordered_dense.h:991-1010 | removal on the abstract map with the right count |
| DenseTable.Table.EraseAt | shims/ankerl_unordered_dense/unordered_dense.h:1560-1573 | erases the value at a position; the last value takes its place |
| DenseTable.Table.EraseRange | shims/ankerl_unordered_dense/unordered_dense.h:1579-1601 | removes exactly the entries at the given positions and says where every other entry is: those before and behind the range stay, as many of its places as needed are filled with the last entries, the very last one first |
| DenseBulk.EraseBackward | shims/ankerl_unordered_dense/unordered_dense.h:1594-1599 | erasing from the back removes the positions of the range one by one |
| DenseTable.Table.EraseIf | shims/ankerl_unordered_dense/unordered_dense.h:1915-1931 | leaves exactly the entries that do not satisfy the predicate, in the order that going from back to front with swap-with-last erasure yields, and returns how many went |
| DenseBulk.SweepDone | shims/ankerl_unordered_dense/unordered_dense.h:1915-1931 | going back to front with swap-with-last erasure examines every original entry once |
| DenseTable.Table.Replace | shims/ankerl_unordered_dense/unordered_dense.h:1356-1407 | of any container keeps every key exactly once, in the order that dropping repeated keys in favour of the last value yields; as many first values as have different keys stay where they are; the loop terminates |
| DenseTable.Table.FillNext | shims/ankerl_unordered_dense/unordered_dense.h:1381-1396 | one step never touches the values indexed so far: the next value is kept, or the last one takes its place |
| DenseBulk.FirstWins | shims/ankerl_unordered_dense/unordered_dense.h:1381-1396 | the first values of a container, as many as have different keys, survive in place against all later ones |
| DenseBulk.ReplaceDrop | shims/ankerl_unordered_dense/unordered_dense.h:1381-1396 | dropping a value whose key is known loses no key of the container |
| DenseTable.ShiftsForSuffice | shims/ankerl_unordered_dense/unordered_dense.h:886-892 | the computed shift provides a bucket for each of the requested values |
| DenseTable.ShiftsForLimit | shims/ankerl_unordered_dense/unordered_dense.h:886-892 | any shift up to the computed one lets the requested number of values in before the table grows |
| DenseTable.GrowthDoubles | shims/ankerl_unordered_dense/unordered_dense.h:882-884 | one shift less yields more buckets and at most twice as many |
| DenseTable.GrowthExactly | shims/ankerl_unordered_dense/unordered_dense.h:882-884 | one shift less is twice as many buckets, up to the maximum; the first allocation has 16 |
| DenseTable.Table.CapacityMeans | shims/ankerl_unordered_dense/unordered_dense.h:923-930 | a table takes the largest number of values within the load factor before it grows, or the maximum |
| DenseTable.HomeIsTopBits | shims/ankerl_unordered_dense/unordered_dense.h:849-851 | a key's home is the number that the top bits of its hash code form |
| DenseTable.FingerprintIsLowByte | shims/ankerl_unordered_dense/unordered_dense.h:845-847 | the fingerprint is the lowest byte of the hash code |
| DenseTable.Table.Reserve | shims/ankerl_unordered_dense/unordered_dense.h:1764-1777 | the requested number of values, up to the maximum, can be stored without another growth; unchanged contents, never fewer buckets |
| DenseTable.Table.Rehash | shims/ankerl_unordered_dense/unordered_dense.h:1752-1762 | exactly the bucket count that the requested or the stored number of values needs, which then fit without growth; same contents |
| DenseRuns.Run | shims/ankerl_unordered_dense/unordered_dense.h:1306-1931 | every run of try_emplace, insert_or_assign, erase, erase_if and clear whose keys stay well spaced keeps the index invariant and acts on the abstract map operation by operation; it stops only at an insertion into a table that is full to the limit of its index type |
| DenseRuns.FewAreSpacedRun | shims/ankerl_unordered_dense/unordered_dense.h:818-824 | keys stay well spaced as long as no insertion makes them more than 2^24 - 2, whatever the hash function |
| DenseRuns.OperationsMean | shims/ankerl_unordered_dense/unordered_dense.h:1306-1931 | what each operation means for lookups of its key and of every other key |
| EntryVectors.Removed | shims/ankerl_unordered_dense/unordered_dense.h:960-989 | swap-with-last removal from a duplicate-free vector removes exactly one key from the map it stands for |
| EntryVectors.RemovedPlaces | shims/ankerl_unordered_dense/unordered_dense.h:960-989 | the last entry takes the place of the one removed, all others stay where they are |
| EntryVectors.ContentsSize | shims/ankerl_unordered_dense/unordered_dense.h:1288-1294 | a duplicate-free vector has as many entries as its abstract map |
| EmhashChains.MainChain | shims/emhash/hash_table8.hpp:1448-1453 | following the links from a main bucket meets exactly the entries that belong to it |
| EmhashChains.ChainFromExact | shims/emhash/hash_table8.hpp:1614-1626 | following the links from any bucket meets exactly the rest of its chain in rank order, so the chain is acyclic and ends in itself |
| EmhashChains.KickedKeeps | shims/emhash/hash_table8.hpp:1442-1461 | moving a foreign entry to an empty bucket and relinking keeps all chains |
| EmhashChains.LengthenedKeeps | shims/emhash/hash_table8.hpp:1468-1512 | an entry linked behind the end keeps all chains |
| EmhashChains.DroppedKeeps | shims/emhash/hash_table8.hpp:1270-1288 | an entry unlinked from behind another, or a successor pulled up, keeps all chains |
| EmhashIndex.PackReads | shims/emhash/hash_table8.hpp:53-58 | slot and hash bits packed into one word can both be read back |
| EmhashIndex.MainIsMasked | shims/emhash/hash_table8.hpp:1471-1474 | the main bucket is the hash code masked by the bucket count less one |
| EmhashIndex.FragTells | shims/emhash/hash_table8.hpp:53-54 | the comparison of high bits holds exactly if the two words agree above the slot's bits |
| EmhashIndex.KickKeeps | shims/emhash/hash_table8.hpp:1448-1461 | a kick-out keeps chains, fragments and the bijection between buckets and slots, and frees the main bucket |
| EmhashIndex.PullKeeps | shims/emhash/hash_table8.hpp:1270-1283 | erasing a main bucket copies the successor there; only the erased slot is left without a bucket |
| EmhashIndex.GapFilled | shims/emhash/hash_table8.hpp:1247-1253 | moving the last pair into the gap and re-pointing its bucket restores the bijection |
| EmhashIndex.PassedEnd | shims/emhash/hash_table8.hpp:1496-1512 | having passed every entry up to the end of its chain, a key is absent |
| EmhashIndex.NoChain | shims/emhash/hash_table8.hpp:1471-1491 | a key whose main bucket is empty or holds an entry of another chain is absent |
| EmhashIndex.RoomLeft | shims/emhash/hash_table8.hpp:1554-1612 | fewer pairs than buckets leaves an empty bucket |
| EmhashMap.HashMap.AdvanceFingers | shims/emhash/hash_table8.hpp:1590-1611 | the final loop finds an empty bucket within as many rounds as there are buckets, reading the index and its guards only |
| EmhashMap.HashMap.FindEmptyBucket | shims/emhash/hash_table8.hpp:1554-1612 | whenever an empty bucket exists, returns one below the bucket count: the first of the eight tried close behind, if any of those is empty |
| EmhashMap.HashMap.FindPrevBucket | shims/emhash/hash_table8.hpp:1628-1640 | the bucket that links to the given one; the walk terminates |
| EmhashMap.HashMap.FindLastBucket | shims/emhash/hash_table8.hpp:1614-1626 | the end of the chain |
| EmhashMap.HashMap.KickoutBucket | shims/emhash/hash_table8.hpp:1442-1461 | frees the main bucket and leaves a complete index |
| EmhashMap.HashMap.FindOrAllocate | shims/emhash/hash_table8.hpp:1463-1515 | the bucket of a stored key, or an empty bucket correctly reserved for an absent one |
| EmhashMap.HashMap.FindUniqueBucket | shims/emhash/hash_table8.hpp:1517-1536 | an empty bucket correctly reserved for a new key |
| EmhashMap.HashMap.New | shims/emhash/hash_table8.hpp:55-58 | a reserved bucket and the pair appended restore all invariants, with the tail cached |
| EmhashMap.HashMap.DoInsert | shims/emhash/hash_table8.hpp:674-711 | appends exactly one pair if the key is absent, changes no pair otherwise, and returns its slot |
| EmhashMap.HashMap.DoAssign | shims/emhash/hash_table8.hpp:714-729 | a new pair at the end, or the new value in place, and the slot of the updated pair |
| EmhashMap.HashMap.FindFilledBucket | shims/emhash/hash_table8.hpp:1307-1338 | the bucket of the key, or INACTIVE exactly if it is absent |
| EmhashMap.HashMap.FindFilledSlot | shims/emhash/hash_table8.hpp:1340-1373 | the slot with the key's pair, or the number of pairs exactly if it is absent |
| EmhashMap.HashMap.EraseBucket | shims/emhash/hash_table8.hpp:1270-1288 | takes one entry off its chain and names the bucket to clear; all other entries stay indexed |
| EmhashMap.HashMap.FindSlotBucket | shims/emhash/hash_table8.hpp:1290-1305 | finds the bucket that refers to a slot by walking its chain, even while a freed bucket is not yet cleared |
| EmhashMap.HashMap.LastBucket | shims/emhash/hash_table8.hpp:1242-1250 | the cached tail, when used, is the bucket of the last slot |
| EmhashMap.HashMap.EraseSlot | shims/emhash/hash_table8.hpp:1241-1268 | removes exactly one pair by swap-with-last and keeps chains and bijection |
| EmhashMap.HashMap.Erase | shims/emhash/hash_table8.hpp:873-885 | removal on the abstract map with the right count |
| EmhashMap.HashMap.EraseIf | shims/emhash/hash_table8.hpp:917-928 | leaves exactly the entries that do not satisfy the predicate, in the order that erasing from front to back with swap-with-last yields |
| EmhashMap.HashMap.ClearAll | shims/emhash/hash_table8.hpp:956-969 | the empty map with the same capacity |
| EmhashMap.HashMap.IndexAll | shims/emhash/hash_table8.hpp:1186-1192 | indexes all pairs of an array into empty buckets |
| EmhashMap.HashMap.Rehash | shims/emhash/hash_table8.hpp:1146-1193 | the least doubling of the start size that covers the request, the same pairs in the same order, a complete index; nothing for a request below the number of pairs |
| EmhashMap.HashMap.Reserve | shims/emhash/hash_table8.hpp:1039-1072 | grows if and only if the entries asked for, times the inverse load factor, reach the bucket count less one, and then to the least doubling of the start size beyond that line; afterwards bucket count and allocated pairs both exceed the number asked for; the pairs stay |
| EmhashSizes.CheckLeavesRoom | shims/emhash/hash_table8.hpp:1040-1072 | if the required buckets stay below the mask, there is an empty bucket and an unused pair |
| EmhashSizes.BucketsFit | shims/emhash/hash_table8.hpp:1146-1164 | doubling reaches a power of two that covers the request and whose bucket numbers stay below the sign bit |
| EmhashSizes.ReserveMeans | shims/emhash/hash_table8.hpp:1040-1072 | the line at which a table grows and the bucket count it grows to, without the division |
| EmhashSizes.RehashMeans | shims/emhash/hash_table8.hpp:1146-1164 | a rehash comes to the least doubling of 4, or of 65536 beyond that many pairs, that covers the request |
| EmhashSizes.PairCapacityMeans | shims/emhash/hash_table8.hpp:1124-1128 | the pairs allocated are the largest number within the load factor and four more |
| EmhashSizes.RehashSafeExactly | shims/emhash/hash_table8.hpp:1124-1164 | for all numbers of pairs, requests and load factors: the pairs fit the array that the rehash allocates, or it returns at once, if and only if the request is below the number of pairs, or all but four of them, times the inverse load factor, do not exceed the doubled bucket count |
| EmhashSizes.RehashCanFallShort | shims/emhash/hash_table8.hpp:1124-1128 | a rehash called directly can allocate fewer pairs than are stored: 64 entries, 64 buckets, load factor 0.8 |
| EmhashRuns.FallsShort | shims/emhash/hash_table8.hpp:1124-1164 | a stored state in which a direct rehash to 64 buckets is unsafe, built by inserting any 64 entries with distinct keys at a load factor of 0.8 |
| EmhashMap.HashMap.Insert | shims/emhash/hash_table8.hpp:731-735 | a pair appended exactly if the key is absent; no rehash as long as the stored pairs stay below the line, and the least doubling beyond it otherwise |
| EmhashMap.HashMap.InsertOrAssign | shims/emhash/hash_table8.hpp:825-826 | a pair appended or a value replaced in place; growth as for `Insert` |
| EmhashMap.HashMap.InsertUnique | shims/emhash/hash_table8.hpp:769-777 | a new key stored without a search; the cached tail is its bucket |
| EmhashRuns.Run | shims/emhash/hash_table8.hpp:674-1072 | every run of insert, assign, erase, erase_if, reserve, rehash and clear keeps chains, bijection and cached tail and acts on the abstract map operation by operation; it stops only at an operation that would have to outgrow the 31-bit bucket numbers or at an unsafe rehash |
| EmhashRuns.PermittedMeans | shims/emhash/hash_table8.hpp:1040-1072 | the limits of growth without the sizes computed |
| EmhashRuns.OperationsMean | shims/emhash/hash_table8.hpp:674-969 | what each operation means for lookups of its key and of every other key |
| FoaGroup.SetImplReads | shims/boost_unordered_flat_map/boost_unordered.hpp:1858-1889 | writing one byte of the interleaved words changes that byte only |
| FoaGroup.MatchBit | shims/boost_unordered_flat_map/boost_unordered.hpp:1780-1783 | `match` reports exactly the slots that hold the reduced hash |
| FoaGroup.MatchAvailableBit | shims/boost_unordered_flat_map/boost_unordered.hpp:1804-1810 | `match_available` reports exactly the available slots |
| FoaGroup.OccupiedBit | shims/boost_unordered_flat_map/boost_unordered.hpp:1812-1825 | `match_occupied` and `is_occupied` report exactly the slots that are not available |
| FoaGroup.SentinelByte | shims/boost_unordered_flat_map/boost_unordered.hpp:1757-1765 | `is_sentinel` holds exactly for the sentinel byte in the last slot |
| FoaGroup.ReducedHashProperties | shims/boost_unordered_flat_map/boost_unordered.hpp:1834-1856 | the reduced hash is a byte other than 0 and 1 with the same remainder modulo 8 |
| FoaGroup.ReducedHashMeans | shims/boost_unordered_flat_map/boost_unordered.hpp:1834-1856 | the reduced hash is the low byte, with 8 and 9 in place of 0 and 1 |
| FoaGroup.MarkOverflowMarks | shims/boost_unordered_flat_map/boost_unordered.hpp:1785-1793 | marking sets overflow for the hashes that agree modulo 8 and for no others |
| FoaGroup.MaybeCausedOverflowAgrees | shims/boost_unordered_flat_map/boost_unordered.hpp:1795-1802 | the judgement from the stored byte agrees with the one from the original hash |
| FoaGroup.CausedOverflowBit | shims/boost_unordered_flat_map/boost_unordered.hpp:1795-1802 | `maybe_caused_overflow` reads the overflow bit selected by the low three bits of the stored byte |
| FoaBytes.RunRefines | shims/boost_unordered_flat_map/boost_unordered.hpp:1733-1912 | any sequence of set, reset, mark_overflow and set_sentinel on the two words is the same sequence on sixteen plain bytes |
| FoaBytes.QueriesAgree | shims/boost_unordered_flat_map/boost_unordered.hpp:1757-1825 | all queries on the two words are queries on the plain bytes: those about slots read the byte of the slot, `is_not_overflowed` and `maybe_caused_overflow` one bit of the last byte |
| FoaBytes.CountrZero | shims/boost_unordered_flat_map/boost_unordered.hpp:2760-2766 | the position of the lowest set bit of a match result |
| FoaIndex.SearchStep | shims/boost_unordered_flat_map/boost_unordered.hpp:2748-2776 | stopping is sound: after a group that has not overflowed for the hash, or after the last group, the key is absent |
| FoaIndex.MarkKeeps | shims/boost_unordered_flat_map/boost_unordered.hpp:3353-3358 | marking a full group keeps every element behind overflowed groups only |
| FoaIndex.PutKeeps | shims/boost_unordered_flat_map/boost_unordered.hpp:3342-3357 | a new element behind overflowed groups keeps the invariant and updates the abstract map |
| FoaIndex.FreeKeeps | shims/boost_unordered_flat_map/boost_unordered.hpp:3236-3245 | freeing a slot leaves the overflow byte alone, so no other search stops early |
| FoaIndex.RoomLeft | shims/boost_unordered_flat_map/boost_unordered.hpp:3342-3360 | fewer elements than the capacity leaves an available slot on every probe path |
| FoaSizes.CapacitySuffices | shims/boost_unordered_flat_map/boost_unordered.hpp:1971-1975 | the size policy provides at least the requested capacity |
| FoaSizes.GrowthSuffices | shims/boost_unordered_flat_map/boost_unordered.hpp:3095-3109 | growth by the requested amount always makes room for one more element under the new load bound |
| FoaSizes.InitialMaxLoadMeans | shims/boost_unordered_flat_map/boost_unordered.hpp:2590-2602 | a fresh load bound is the whole capacity up to 29 and else the largest number that is at most seven eighths of the capacity |
| FoaSizes.GrowthRequestMeans | shims/boost_unordered_flat_map/boost_unordered.hpp:3095-3109 | growth asks for the least capacity of which the elements, a sixty-first of them and the new one are at most seven eighths |
| FoaSizes.CapacityIsLeast | shims/boost_unordered_flat_map/boost_unordered.hpp:1945-1975 | a capacity is fifteen times a power of two less one, and the least such that suffices |
| FoaSizes.KnownCapacities | shims/boost_unordered_flat_map/boost_unordered.hpp:2590-2602 | a table that only grows has capacities 29, 59, 119 and load bounds 29, 51, 104 |
| FoaSizes.CapacityIsStable | shims/boost_unordered_flat_map/boost_unordered.hpp:2845-2852 | a capacity computed for a request is reproduced when the arrays are allocated |
| FoaSizes.RequestFits | shims/boost_unordered_flat_map/boost_unordered.hpp:1971-1975 | the capacity for a request fits a 64-bit word if and only if the request is below 15 * 2^60 |
| FoaTable.Arrays.constructor | shims/boost_unordered_flat_map/boost_unordered.hpp:2187-2200 | fresh arrays, or the dummy groups for no elements, hold nothing |
| FoaTable.StartIsTopBits | shims/boost_unordered_flat_map/boost_unordered.hpp:1948-1961 | probing starts at the group whose number the top bits of the hash code form |
| FoaPlacement.PlacedHere | shims/boost_unordered_flat_map/boost_unordered.hpp:3341-3360 | a group with an available slot takes the new element in its first available slot |
| FoaPlacement.PlacedFurther | shims/boost_unordered_flat_map/boost_unordered.hpp:3341-3360 | a full group is marked as overflowed for the hash code, and no other is, before the next one is tried |
| FoaTable.Arrays.Find | shims/boost_unordered_flat_map/boost_unordered.hpp:2748-2776 | finds the slot of a stored key and nothing for an absent one; probing ends |
| FoaTable.Arrays.EmplaceAt | shims/boost_unordered_flat_map/boost_unordered.hpp:3341-3360 | the loop without an exit ends; groups and elements are exactly those of the placement by probe paths: the first available slot of the first group with one, the full groups passed marked, nothing else changed |
| FoaTable.Arrays.Free | shims/boost_unordered_flat_map/boost_unordered.hpp:3236-3245 | removes one element, changes nothing but its slot, and tells whether its overflow bit was set |
| FoaTable.Arrays.MatchReallyOccupied | shims/boost_unordered_flat_map/boost_unordered.hpp:2948-2952 | exactly the slots of a group that have an element, the sentinel excluded |
| FoaTable.Arrays.TransferTo | shims/boost_unordered_flat_map/boost_unordered.hpp:3263-3268 | visits every element once, group by group, and copies it to other arrays, which end up as placing the elements in the order of their slots makes them, without moving those already there |
| FoaCore.TableCore.Emplace | shims/boost_unordered_flat_map/boost_unordered.hpp:3964-3990 | inserts exactly if the key is absent and returns the slot; no growth below the load bound, and at it new arrays of the least capacity for the request, with the load bound of a fresh table; the arrays are exactly those of the placement by probe paths |
| FoaCore.TableCore.EmplaceWithRehash | shims/boost_unordered_flat_map/boost_unordered.hpp:2969-2994 | the element inserted before the rehash keeps its slot; everything else follows in the order of the old slots |
| FoaCore.TableCore.EraseAt | shims/boost_unordered_flat_map/boost_unordered.hpp:2721-2726 | removes one element and changes nothing but its slot; the load bound drops by one exactly if the element may have caused overflow, and never below the size |
| FoaCore.TableCore.Erase | shims/boost_unordered_flat_map/boost_unordered.hpp:3833-3847 | removal on the abstract map with the right count |
| FoaCore.TableCore.Find | shims/boost_unordered_flat_map/boost_unordered.hpp:2735-2740 | lookup on the abstract map, in both directions |
| FoaCore.TableCore.ClearAll | shims/boost_unordered_flat_map/boost_unordered.hpp:2807-2826 | the empty map, overflow reset and the sentinel restored |
| FoaCore.TableCore.Rehash | shims/boost_unordered_flat_map/boost_unordered.hpp:2845-2852 | exactly the capacity for the request or the current load, the same contents in the order of the old slots, and the load bound of a fresh table |
| FoaCore.TableCore.Reserve | shims/boost_unordered_flat_map/boost_unordered.hpp:2854-2857 | exactly the capacity for the requested number of elements, which fit under the load bound of seven eighths |
| FoaRuns.Run | shims/boost_unordered_flat_map/boost_unordered.hpp:2496-2860 | every run of emplace, erase, clear, rehash and reserve keeps the overflow invariant, size <= ml <= capacity and ml at most seven eighths of a capacity above 29, and acts on the abstract map operation by operation; it stops only at an operation that may ask for a capacity beyond 64 bits |
| FoaRuns.OperationsMean | shims/boost_unordered_flat_map/boost_unordered.hpp:2496-2860 | what each operation means for lookups of its key and of every other key |
| WideMultiply.Mum | shims/ankerl_unordered_dense/unordered_dense.h:174-191 | the low and the high word of the 128-bit product for all inputs; no carry is lost |
| WideMultiply.Mulx | shims/boost_unordered_flat_map/boost_unordered.hpp:801-827 | low and high word of the 128-bit product for all inputs; no intermediate sum wraps |
| WideMultiply.Mix | shims/ankerl_unordered_dense/unordered_dense.h:194-198 | each bit of the result tells whether the two words of the exact product differ in it |
| WideMultiply.Mulx64 | shims/boost_unordered_flat_map/boost_unordered.hpp:801-827 | each bit of the result tells whether the two words of the exact product differ in it |
| WideMultiply.MixersAgree | shims/boost_unordered_flat_map/boost_unordered.hpp:801-827 | `mix` and `mulx64` agree on all inputs, bit by bit with the exclusive or of the two words of the exact product |
| Words.XorCancels | blueprints/uint64_struct448_murmur/blueprint.h:17-26 | exclusive or with the same word twice changes nothing |
| Words.XorBits | blueprints/uint64_struct448_murmur/blueprint.h:17-26 | each bit of an exclusive or is the sum modulo 2 of the operands' bits |
| Words.BitsDetermine | blueprints/uint64_struct448_murmur/blueprint.h:17-26 | numbers with the same bits are equal, so the bits say all about an exclusive or |
| Words.MaskIsRemainder | shims/cc_lib_map/cc.h:2257-2257 | masking with a power of two less one, bit by bit, is taking the remainder |
| Words.MulCancels | blueprints/uint64_struct448_murmur/blueprint.h:17-26 | multiplying by a factor and by its inverse modulo 2^64 changes nothing |
| Blueprints.HashIsInvertible | blueprints/uint64_struct448_murmur/blueprint.h:16-26 | the 64-bit finalizer has a two-sided inverse |
| Blueprints.HashIsInjective | blueprints/uint64_struct448_murmur/blueprint.h:16-26 | distinct integer keys have distinct hash codes |
| Blueprints.KnownAnswer | blueprints/uint64_struct448_murmur/blueprint.h:16-26 | the finalizer maps 1 to 0xb456bcfc34c2cb2c |
| Blueprints.Advance | blueprints/cstring_uint64_fnv1a/blueprint.h:52-58 | the nested carry loop turns the numeral of `i` into that of `i + 1`, wrapping around at the last letter |
| Blueprints.FillUniqueKeys | blueprints/cstring_uint64_fnv1a/blueprint.h:36-60 | every key points to the 15-letter little-endian base-26 numeral of its index, zero-terminated |
| Blueprints.KeyLetters | blueprints/cstring_uint64_fnv1a/blueprint.h:36-60 | letter `k` of key `i` is 'a' plus digit `k` of `i` to the base 26, lowest digit first; the sixteenth character is zero |
| Blueprints.KeysDistinct | blueprints/cstring_uint64_fnv1a/blueprint.h:33-60 | the first `size` strings are distinct if and only if `size` is at most 26^15 |

## Left out

- VerstableMap.Map.Insert: after a failed eviction followed by a failed allocation only the weak invariant is claimed, because the old table is handed back with an unlinked entry; when more than 2047 keys share all their hash bits, no capacity suffices (`VerstableGrowth.ChainRoom`) and doubling goes on until the allocator refuses. That a larger capacity relieves the displacement limit for other sets of more than 2047 keys depends on the hash function and is not claimed.
- VerstableMap.Map.ClearAll: destructor calls are not modelled; keys and values are plain data in all four tables.
- DenseTable.Table.DoTryEmplace: requires that the keys with the new one stay well spaced in the table the insertion finds, so that no 24-bit distance wraps; `DenseSpacing.SpacedExactly` shows that this is exact for the distances stored, and `DenseTable.ProbeWraps` what happens beyond. What a table with wrapped distances does is not modelled.
- DenseTable.Table.Replace: requires the same of the container's keys; `Reserve` and `Rehash` require it of the stored keys in the new size when they re-index. A maximum load factor above 1 and the setter of `max_load_factor` are not modelled.
- FoaCore.TableCore.Emplace: when it has to grow, requires that the capacity it asks for fits a 64-bit word, which `FoaSizes.RequestFits` makes exact; exceptions thrown by allocation or construction are not modelled.
- FoaCore.TableCore.Rehash: requires the same of the capacity it asks for, and so does `Reserve`.
- EmhashMap.HashMap.Insert: when it has to grow, requires what the rehash asserts (shims/emhash/hash_table8.hpp:1151), namely fewer than 2^31 required buckets.
- EmhashMap.HashMap.Rehash: requires that the pairs fit the array allocated for the new bucket count, which insertions and `reserve` guarantee and a direct call does not: `EmhashRuns.FallsShort` builds a table and a request that violate it and `EmhashSizes.RehashSafeExactly` is the exact condition. What the source does with a request that violates it is not modelled.
- EmhashMap.HashMap.FindEmptyBucket: the chain length that callers pass is not modelled; the search ignores it unless `EMH_QUADRATIC` is defined.
- emhash8's `EMH_HIGH_LOAD`, `EMH_SORT` and `EMH_PACK_TAIL` variants, `shrink_to_fit`, `max_load_factor(float)`, copying, merging, iterator-range erasure and the one-argument `reserve`, whose index layout only `EMH_SORT` lookups read, are not modelled.
- Allocation, deallocation, exceptions, copy and move, swap, templates, prefetch and branch hints.
- `cc_map_init_clone` and `cc_map_cleanup`, the `cc.h` vectors and lists, and the macro interface.
- Rounding of floating-point load factors.
- Key equality other than `==`, and hash functions with state.
- `segmented_vector`, the standard-library adapters, and wyhash apart from its multiplication.
- The SSE2 and NEON groups of Boost, its node-based and concurrent containers, serialization and `erase_if`.
- FNV-1a and the 32-bit blueprint, whose hash function is the modelled one on a shorter key.
- The benchmark driver and the adapter of every shim; `emhash` versions 5 and 7.
- Performance, cache behaviour and hash quality.
