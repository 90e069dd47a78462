# BLI_ghash: a verified model of Blender's chained hash table

This project models `source/blender/blenlib/intern/BLI_ghash.c`, the generic
hash table of Blender's `blenlib`. One engine serves two shapes. `GHash` maps
keys to values. `GSet` keeps keys only, and its entries are allocated without
their value part.

A table is an array of bucket heads. Each bucket holds a singly linked chain
of entries, and each entry caches the full hash of its key. An entry lives in
bucket `hash % nbuckets`. The bucket count is always one of 27 primes
(`hashsizes`). The table grows past 3/4 load and may shrink below 3/16 load.
Shrinking happens only when the table's AllowShrink flag is set or an
operation forces it, and never below a floor (`size_min`) that reserving
raises.

## Model structure

- `Sizing` (`sizing.dfy`): the size-class table, the grow/shrink loops as
  functions (`GrowClass`, `ShrinkClass`, `TargetClass`) and the sizing
  lemmas.
- `Chains` (`chains.dfy`): the bucket array as a value, a sequence of chains
  with the head first, and the representation invariant `TableInv`. The
  invariant says that:
  - every entry sits in `hash % |t|` with its key's hash;
  - keys are unique;
  - the chains hold exactly the pairs of an abstract map;
  - the node count equals the map's size.

  The lemmas show how prepending, unlinking and overwriting one node keep the
  invariant. `Seen` is the set of keys a bucket-by-bucket sweep has passed.
- `GHashTable` (`ghash.dfy`): the class `GHash`, with the fields of the C
  struct:
  - bucket array `buckets: array<seq<Entry>>`;
  - `nbuckets`, `cursize`, `sizeMin`, `limitGrow`, `limitShrink`,
    `nentries` and `flags`;
  - a ghost `Contents: map<K, Option<V>>`, which every operation is specified
    against.

  Its methods are the internal and public point operations. The store
  through `e->next` and `buckets[i]` becomes an update of one chain of the
  array.
- `Algebra` (`algebra.dfy`): the meaning of the multi-operand operations on
  plain maps, as folds over the operands from left to right, with lemmas
  about their keys and values.
- `SymPass` (`sympass.dfy`): the two list-valued passes of the symmetric
  difference (`keys` / `rem_keys`) as folds, with their lemmas.
- `GHashOps` (`ops.dfy`): union (both priorities), intersection, difference
  and symmetric difference over a sequence of tables, which replaces the
  `va_list`.
- `GHashRelations` (`relations.dfy`): isdisjoint, isequal, issubset and
  issuperset.
- `GHashIterators` (`iterator.dfy`): the iterator as a class. It stands on
  a node or is done. Ghost state records the keys it has stepped past.
- `GSets` (`gset.dfy`): the GSet wrappers, each specified on the element set.
- `GHashUtil` (`hashutil.dfy`): the djb string hash, Thomas Wang's integer
  mix and the four-word hash, on `bv32`/`bv8` words, so wrap-around is
  modular as in C.
- `Wrappers` (`wrappers.dfy`): `Option`.

The hash callback is a fixed function `K -> u32` per table, and the comparison
callback is key equality. `None` stands for the NULL that lookup, popkey
and lookup_p return for a missing key, and for the absent value part of a set
entry. A NULL stored as a map value is an ordinary `V`.

## Where the code and its documentation differ

This model follows the code in each case below.

- `BLI_ghash_reserve` evaluates the sizing policy for the given count, not for
  the larger of that count and the current one (893-896). When the count
  already lies strictly inside the current window, `ghash_expand_buckets`
  returns before raising `size_min` (230-232), so the floor stays where it
  was. `GHashTable.GHash.Reserve` states exactly this.
- The shrink loop of `ghash_expand_buckets` tests the shrink threshold of the
  class the table had on entry (249, 259). A grow step does not update that
  threshold. `Sizing.StaleShrinkHarmless` proves that the policy is the same
  as with up-to-date thresholds.
- Clearing also resets the flags (303).
- `BLI_ghash_issubset(gh1, gh2)` tests keys(gh2) ⊆ keys(gh1) (1151-1177).
- The symmetric difference counts `gh1` as one of its operands: `keys` starts
  as a copy of it (728).
- The doc comments of the iterator accessors `getKey`, `getValue` and
  `getValue_p` (1386-1387, 1398-1399, 1410-1411) promise NULL when the
  iterator is done. The code dereferences `curEntry` without a test, so on a
  done iterator it reads through NULL. The accessors of
  `GHashIterators.GHashIterator` therefore require an iterator that is not
  done.
- Line 738 assigns (`entry_size = ghn->entry_size`) inside a debug assertion.
  It is modelled as having no effect.

## Model

| member | source | states |
|---|---|---|
| Sizing.TableAscending | source/blender/blenlib/intern/BLI_ghash.c:54-59 | the table has 27 classes and every count is positive. Counts increase, `3n` fits in an unsigned int, each shrink threshold is below its grow threshold, and a class's shrink threshold never exceeds the previous class's grow threshold |
| Sizing.ClassFacts | source/blender/blenlib/intern/BLI_ghash.c:54-79 | per class: a positive count, `nbuckets * 3` with no 32-bit overflow, and shrink threshold < grow threshold |
| Sizing.AdjacentFacts | source/blender/blenlib/intern/BLI_ghash.c:54-79 | neighbouring classes increase, and the shrink threshold of the next class is at most the grow threshold of this one |
| Sizing.SizesInjective | source/blender/blenlib/intern/BLI_ghash.c:54-59 | distinct classes have distinct bucket counts |
| Sizing.SizesIncreasing | source/blender/blenlib/intern/BLI_ghash.c:54-59 | bucket counts are strictly increasing in the class index |
| Sizing.GrowClass | source/blender/blenlib/intern/BLI_ghash.c:236-247 | the grow loop never leaves the table and never goes down |
| Sizing.ShrinkClass | source/blender/blenlib/intern/BLI_ghash.c:248-261 | the shrink loop stays between the floor and its start |
| Sizing.GrowClassResult | source/blender/blenlib/intern/BLI_ghash.c:236-247 | where the grow loop stops, the count is within the grow threshold unless the class is the last. If it moved, the count exceeded the threshold of the class before. It stays put exactly when the first test fails |
| Sizing.ShrinkClassResult | source/blender/blenlib/intern/BLI_ghash.c:248-261 | where the shrink loop stops, the count is at least the shrink threshold unless the floor is reached. If it moved, it was below the threshold of the class above. It stays put exactly when the first test fails |
| Sizing.ExpandConsistent | source/blender/blenlib/intern/BLI_ghash.c:225-279 | after one evaluation the class lies in [size_min, 27). The count is at most the grow threshold unless the class is the last, and, with shrinking enabled, at least the shrink threshold unless the class is the floor. Without shrinking the class never drops |
| Sizing.WindowIsStable | source/blender/blenlib/intern/BLI_ghash.c:230-261 | a count inside the closed window of the current class changes nothing (hysteresis) |
| Sizing.StaleShrinkHarmless | source/blender/blenlib/intern/BLI_ghash.c:246-259 | shrinking with the stale threshold of the starting class gives the same class as growing and then shrinking with current thresholds |
| Chains.EmptyInv | source/blender/blenlib/intern/BLI_ghash.c:173 | an all-empty bucket array is the empty start of a fill |
| Chains.InsertInv | source/blender/blenlib/intern/BLI_ghash.c:365-369 | prepending a node for an absent key in bucket `hash % n` represents the map with that key added |
| Chains.RemoveInv | source/blender/blenlib/intern/BLI_ghash.c:458-459 | unlinking any node removes exactly its key, and the size drops by one |
| Chains.ReplaceInv | source/blender/blenlib/intern/BLI_ghash.c:410-411 | overwriting a node in place with the same key and hash changes only that key's value |
| Chains.FindInv | source/blender/blenlib/intern/BLI_ghash.c:312-325 | a key is present exactly when its bucket has a node with its hash and key, and that node carries the key's value |
| Chains.NodeFacts | source/blender/blenlib/intern/BLI_ghash.c:365-368 | every node carries a key of the map, its value and its cached hash |
| Chains.SeenStep | source/blender/blenlib/intern/BLI_ghash.c:177-184 | a sweep meets each node's key for the first time when it reaches that node |
| Chains.SeenAll | source/blender/blenlib/intern/BLI_ghash.c:177-184 | a sweep past the last bucket has met every key |
| Chains.RehashStep | source/blender/blenlib/intern/BLI_ghash.c:179-184 | moving one old node into the new array adds exactly its key |
| Chains.RehashDone | source/blender/blenlib/intern/BLI_ghash.c:175-212 | once every old chain is moved, the new array represents the whole map |
| Chains.NodeCount | source/blender/blenlib/intern/BLI_ghash.c:369-371 | the number of chain nodes equals the number of keys |
| Algebra.UnionKeys | source/blender/blenlib/intern/BLI_ghash.c:533-587 | the union's keys are the keys of all operands |
| Algebra.UnionFirstWins | source/blender/blenlib/intern/BLI_ghash.c:561-574 | without `reverse`, gh1's values are never replaced, and a missing key takes its value from the leftmost operand holding it |
| Algebra.UnionLastWins | source/blender/blenlib/intern/BLI_ghash.c:575-580 | with `reverse`, a key takes its value from the rightmost operand holding it, or keeps gh1's value if no operand holds it |
| Algebra.FilterAllKeys | source/blender/blenlib/intern/BLI_ghash.c:593-703 | intersection keeps exactly gh1's keys held by every later table, difference those held by none; both keep gh1's values |
| Algebra.SymDiffKeys | source/blender/blenlib/intern/BLI_ghash.c:705-708 | a key is in the symmetric difference exactly when one and only one table, gh1 included, holds it |
| Algebra.TwiceOccurrences | source/blender/blenlib/intern/BLI_ghash.c:734 | the keys the first pass finds again are exactly those held by at least two tables |
| Algebra.SymDiffPasses | source/blender/blenlib/intern/BLI_ghash.c:771-844 | removing the keys found twice from gh1 and from `keys`, then adding what remains of `keys` to gh1, gives the symmetric difference |
| Algebra.SymDiffExample | source/blender/blenlib/intern/BLI_ghash.c:1281-1283 | {1, 2, 3} and {2, 3, 4} give {1, 4} |
| SymPass.TableSpec | source/blender/blenlib/intern/BLI_ghash.c:740-768 | one operand's first pass adds to `keys` the keys it lacks, with their values, and adds to `rem_keys` the keys it already had |
| SymPass.ChainSpec | source/blender/blenlib/intern/BLI_ghash.c:743-767 | the same, part way through one chain of the operand |
| SymPass.DropAllKeys | source/blender/blenlib/intern/BLI_ghash.c:772-817 | removing the listed keys one at a time, where a repeated key is already absent, removes the set of listed keys |
| SymPass.SymDiffDrop | source/blender/blenlib/intern/BLI_ghash.c:771-839 | with `rem_keys` listing the keys found twice, the second pass and the final merge compute the symmetric difference |
| SymPass.ThreeTablesListTwice | source/blender/blenlib/intern/BLI_ghash.c:746-756 | for the Findings input gh1 = gh2 = gh3 = {1}, key 1 is appended to `rem_keys` twice |
| SymPass.ListedTwiceBreaksAssertion | source/blender/blenlib/intern/BLI_ghash.c:780-794 | for the same input, the assertion that key 1 is still in `keys` fails at its second listing |
| GHashTable.RehashAll | source/blender/blenlib/intern/BLI_ghash.c:175-210 | the two loops move every old chain into the new array, which then represents the same map |
| GHashTable.RehashChain | source/blender/blenlib/intern/BLI_ghash.c:179-184 | the inner loop moves one whole old chain |
| GHashTable.RehashEntry | source/blender/blenlib/intern/BLI_ghash.c:180-183 | one node goes to the head of bucket `hash % nbuckets` |
| GHashTable.Rehashed | source/blender/blenlib/intern/BLI_ghash.c:156-216 | a fresh array of the new size holds every entry at `hash % nbuckets` and represents the same map. Nothing is lost or duplicated |
| GHashTable.ResizeTarget | source/blender/blenlib/intern/BLI_ghash.c:234-261 | the two while loops reach `TargetClass`, and `new_nbuckets == hashsizes[cursize]`. The count is within the grow threshold unless the class is the last, and within the shrink threshold when shrinking, unless the class is the floor |
| GHashTable.FindInChain | source/blender/blenlib/intern/BLI_ghash.c:317-324 | the first node with the hash and key, or none when no node has them |
| GHashTable.FindIn | source/blender/blenlib/intern/BLI_ghash.c:312-325 | found exactly when the key is present |
| GHashTable.Overwrite | source/blender/blenlib/intern/BLI_ghash.c:410-411 | writing a node in place sets that key's value and keeps the key set |
| GHashTable.UnlinkAt | source/blender/blenlib/intern/BLI_ghash.c:626-627 | unlinking through `e_prev` or the bucket head removes exactly that key and changes no other chain |
| GHashTable.FilterNode | source/blender/blenlib/intern/BLI_ghash.c:617-635 | one node is dropped or stepped past, and the deferred count follows the true size |
| GHashTable.FilterChain | source/blender/blenlib/intern/BLI_ghash.c:615-636 | one chain is filtered in place. The deferred count equals the node count after it, and later chains are untouched |
| GHashTable.FilterBuckets | source/blender/blenlib/intern/BLI_ghash.c:614-637 | the sweep keeps exactly the keys whose presence in the operand equals `keep`, and the deferred count equals the true node count |
| GHashTable.GHash.constructor | source/blender/blenlib/intern/BLI_ghash.c:337-352 | an empty table with no flags, sized for the reserve by the grow loop. A non-zero reserve becomes the floor |
| GHashTable.GHash.ResizeBuckets | source/blender/blenlib/intern/BLI_ghash.c:156-216 | the fresh array has `nbuckets` chains and represents the same contents. Every other field is unchanged |
| GHashTable.GHash.ExpandBuckets | source/blender/blenlib/intern/BLI_ghash.c:225-279 | the new class is `TargetClass` of the old state, and the floor is raised only when user-defined and outside the early return. Contents, count and flags are kept, and the array is kept when the class is |
| GHashTable.GHash.Install | source/blender/blenlib/intern/BLI_ghash.c:263-279 | records the class and floor, and rebuilds unless the bucket count is as before |
| GHashTable.GHash.Rebuild | source/blender/blenlib/intern/BLI_ghash.c:271-278 | thresholds of the new count, then a rehash into a fresh array |
| GHashTable.GHash.BucketsReset | source/blender/blenlib/intern/BLI_ghash.c:284-306 | the table is empty with no flags, in the class the grow loop picks for `n`. The floor is that class when `n != 0`, and 0 otherwise |
| GHashTable.GHash.LookupEntry | source/blender/blenlib/intern/BLI_ghash.c:330-335 | a node is returned exactly when the key is present. It lies in bucket `hash % nbuckets` and holds the key's value |
| GHashTable.GHash.HasKey | source/blender/blenlib/intern/BLI_ghash.c:1035-1038 | true exactly when the key is present |
| GHashTable.GHash.Lookup | source/blender/blenlib/intern/BLI_ghash.c:951-956 | the key's value, or NULL when the key is missing |
| GHashTable.GHash.LookupDefault | source/blender/blenlib/intern/BLI_ghash.c:961-966 | the key's value, or the default when the key is missing |
| GHashTable.GHash.LookupP | source/blender/blenlib/intern/BLI_ghash.c:978-983 | NULL exactly when the key is missing; otherwise the slot of the key's node |
| GHashTable.GHash.Size | source/blender/blenlib/intern/BLI_ghash.c:901-904 | the number of keys |
| GHashTable.GHash.Fill | source/blender/blenlib/intern/BLI_ghash.c:506-523 | the copy loops give the new table exactly the source mapping and count |
| GHashTable.GHash.Copy | source/blender/blenlib/intern/BLI_ghash.c:497-526 | a fresh table with the same callback, shape, mapping and count, and no flags, sized by the grow loop with floor 0 |
| GHashTable.GHash.Link | source/blender/blenlib/intern/BLI_ghash.c:365-371 | prepends the node to bucket `hash % nbuckets` and counts it |
| GHashTable.GHash.InsertEx | source/blender/blenlib/intern/BLI_ghash.c:358-390 | the absent key gains its value (or none, for a set), the count goes up by one, and the size class is `TargetClass` for the new count |
| GHashTable.GHash.Insert | source/blender/blenlib/intern/BLI_ghash.c:392-397 | the absent key is added with its value, and the count goes up by one. The size class becomes `TargetClass` for the new count, and the floor is kept |
| GHashTable.GHash.StoreAt | source/blender/blenlib/intern/BLI_ghash.c:410-411 | storing through a slot changes only that key's value |
| GHashTable.GHash.InsertSafe | source/blender/blenlib/intern/BLI_ghash.c:399-438 | three outcomes. An absent key is added (true, count + 1). A present key without override leaves the table unchanged (false). A present key with override takes the new value in place (false, count kept). An add moves the size class to `TargetClass` for the new count; the floor is always kept |
| GHashTable.GHash.Add | source/blender/blenlib/intern/BLI_ghash.c:925-928 | true exactly when the key was absent, which is when it is added. Flags are kept; when nothing is added, the contents, the buckets, the size class and the floor are kept too. After an add the size class is `TargetClass` for the new count, with the floor kept |
| GHashTable.GHash.Reinsert | source/blender/blenlib/intern/BLI_ghash.c:937-940 | the key maps to the new value afterwards, and the result is true exactly when it was absent. Flags are kept. After an add the size class is `TargetClass` for the new count; after an overwrite the buckets and sizing are kept; the floor is always kept |
| GHashTable.GHash.Unlink | source/blender/blenlib/intern/BLI_ghash.c:453-461 | the node at the slot is unlinked and uncounted, and nothing is resized |
| GHashTable.GHash.Discard | source/blender/blenlib/intern/BLI_ghash.c:776-815 | the key is absent afterwards, whether or not it was present, and nothing is resized |
| GHashTable.GHash.FilterStep | source/blender/blenlib/intern/BLI_ghash.c:607-642 | one operand of intersection or difference filters the contents, stores the deferred count and re-sizes with shrinking forced; the floor is kept |
| GHashTable.GHash.FilterSweep | source/blender/blenlib/intern/BLI_ghash.c:614-639 | the sweep filters the contents in place, and the stored count is the true size |
| GHashTable.GHash.RemoveEx | source/blender/blenlib/intern/BLI_ghash.c:443-469 | returns the node exactly when the key was present, with its hash, key and value. The key is then absent, the count drops by one, and the size class becomes `TargetClass` for the new count. A miss changes nothing, and the floor is always kept |
| GHashTable.GHash.Remove | source/blender/blenlib/intern/BLI_ghash.c:993-1005 | true exactly when the key was present. It is absent afterwards, every other key keeps its value, the count drops by one, and flags are kept. After a removal the size class is `TargetClass` for the new count: it never goes below the floor, and without `GHASH_FLAG_ALLOW_SHRINK` it never goes down |
| GHashTable.GHash.PopKey | source/blender/blenlib/intern/BLI_ghash.c:1016-1030 | the removed value, or NULL when the key was missing. The key is absent afterwards and flags are kept. The size class follows the same rule as for `Remove` |
| GHashTable.GHash.ClearEx | source/blender/blenlib/intern/BLI_ghash.c:1047-1055 | empty, with no flags, resized for the reserve, which becomes the floor when non-zero |
| GHashTable.GHash.Clear | source/blender/blenlib/intern/BLI_ghash.c:1060-1063 | empty, with no flags, in the smallest class with floor 0 |
| GHashTable.GHash.Reserve | source/blender/blenlib/intern/BLI_ghash.c:893-896 | re-sized for the given count. The floor becomes the new class unless the count was strictly inside the window, and contents are kept |
| GHashTable.GHash.FlagSet | source/blender/blenlib/intern/BLI_ghash.c:1086-1089 | the flags gain `flag`; contents, buckets, count, size class and floor are kept |
| GHashTable.GHash.FlagClear | source/blender/blenlib/intern/BLI_ghash.c:1094-1097 | the flags lose `flag`; contents, buckets, count, size class and floor are kept |
| GHashOps.Snapshots | source/blender/blenlib/intern/BLI_ghash.c:551-558 | the bucket arrays of the operands, each representing that operand's contents |
| GHashOps.MergeInto | source/blender/blenlib/intern/BLI_ghash.c:558-582 | one operand's sweep adds its missing keys, and with `reverse` overwrites the keys already present |
| GHashOps.MergeChain | source/blender/blenlib/intern/BLI_ghash.c:561-581 | the same for one chain of the operand |
| GHashOps.UnionInto | source/blender/blenlib/intern/BLI_ghash.c:551-583 | the contents become the left-to-right union with every operand |
| GHashOps.FilterInto | source/blender/blenlib/intern/BLI_ghash.c:607-700 | the contents become the left-to-right intersection or difference, and the floor is kept |
| GHashOps.SymNode | source/blender/blenlib/intern/BLI_ghash.c:744-766 | one node of the first pass goes to `rem_keys` if `keys` has its key, and into `keys` otherwise |
| GHashOps.SymChain | source/blender/blenlib/intern/BLI_ghash.c:743-767 | the first pass over one chain |
| GHashOps.SymOperand | source/blender/blenlib/intern/BLI_ghash.c:740-768 | `keys` gains the operand without overriding, and `rem_keys` gains the keys it already had |
| GHashOps.SymFirstPass | source/blender/blenlib/intern/BLI_ghash.c:734-769 | `keys` holds the union, and `rem_keys` lists exactly the keys held at least twice |
| GHashOps.DiscardAll | source/blender/blenlib/intern/BLI_ghash.c:772-817 | every listed key is removed, a repeat being absent already, and nothing is resized |
| GHashOps.SymKeys | source/blender/blenlib/intern/BLI_ghash.c:728-817 | `keys` is the union without the keys listed in `rem_keys`, and the list holds exactly the keys found twice |
| GHashOps.SymDiffInto | source/blender/blenlib/intern/BLI_ghash.c:728-844 | gh1 ends with the symmetric difference of its contents and the operands |
| GHashOps.CopyFirst | source/blender/blenlib/intern/BLI_ghash.c:543-546 | with `gh1` NULL, a fresh flagless copy of the first operand, holding its mapping, becomes the table to work on. The remaining operands are still valid, unaliased by it and unchanged |
| GHashOps.FilterInPlace | source/blender/blenlib/intern/BLI_ghash.c:607-700 | the operand loop of intersection or difference: `gh1`'s contents become the left-to-right filter by every operand, and its flags and floor are kept |
| GHashOps.UniteInPlace | source/blender/blenlib/intern/BLI_ghash.c:551-583 | the operand loop of union: `gh1`'s contents become the left-to-right union with every operand, and its flags are kept |
| GHashOps.SymDiffInPlace | source/blender/blenlib/intern/BLI_ghash.c:728-844 | the body of the symmetric difference: `gh1`'s contents become the symmetric difference with every operand |
| GHashOps.FilteredCopy | source/blender/blenlib/intern/BLI_ghash.c:593-645 | with `gh1` NULL: a fresh table holding the intersection or difference of all operands |
| GHashOps.UnitedCopy | source/blender/blenlib/intern/BLI_ghash.c:543-583 | with `gh1` NULL: a fresh table holding the union of all operands |
| GHashOps.SymDiffCopy | source/blender/blenlib/intern/BLI_ghash.c:722-844 | with `gh1` NULL: a fresh table holding the symmetric difference of all operands |
| GHashOps.Union | source/blender/blenlib/intern/BLI_ghash.c:533-587 | the result is the union of all inputs, left to right: values never replaced, or, with `reverse`, later ones win. The result is gh1 or a fresh table |
| GHashOps.Intersection | source/blender/blenlib/intern/BLI_ghash.c:593-645 | the result keeps the first input's entries whose keys every later input holds |
| GHashOps.Difference | source/blender/blenlib/intern/BLI_ghash.c:651-703 | the result keeps the first input's entries whose keys no later input holds |
| GHashOps.SymmetricDifference | source/blender/blenlib/intern/BLI_ghash.c:709-848 | the result is the symmetric difference of all inputs |
| GHashRelations.AllKeys | source/blender/blenlib/intern/BLI_ghash.c:1112-1121 | the early-exit sweep answers whether every key of one table is present in (or absent from) the other |
| GHashRelations.SubsetSize | source/blender/blenlib/intern/BLI_ghash.c:1161-1163 | a subset is no larger, so the count test rejects only non-subsets |
| GHashRelations.SubsetSameSize | source/blender/blenlib/intern/BLI_ghash.c:1133-1148 | a subset of equal size is the whole set |
| GHashRelations.IsDisjoint | source/blender/blenlib/intern/BLI_ghash.c:1102-1124 | true exactly when the key sets do not meet, whichever table is smaller |
| GHashRelations.IsEqual | source/blender/blenlib/intern/BLI_ghash.c:1129-1149 | true exactly when the key sets are equal |
| GHashRelations.IsSubset | source/blender/blenlib/intern/BLI_ghash.c:1151-1177 | true exactly when keys(gh2) ⊆ keys(gh1) |
| GHashRelations.IsSuperset | source/blender/blenlib/intern/BLI_ghash.c:1179-1188 | true exactly when keys(gh1) ⊆ keys(gh2), which is issubset with the arguments swapped |
| GHashIterators.Scan | source/blender/blenlib/intern/BLI_ghash.c:1337-1368 | the bucket loop finds the next non-empty bucket, or runs out having seen every key |
| GHashIterators.Start | source/blender/blenlib/intern/BLI_ghash.c:1337-1350 | the iterator starts with nothing visited, and is done at once exactly when the table is empty |
| GHashIterators.Advance | source/blender/blenlib/intern/BLI_ghash.c:1359-1367 | each step visits one key not visited before. It moves to the next node of the chain, or else to a later bucket's head, or else is done with the bucket index at `nbuckets` |
| GHashIterators.GHashIterator.constructor | source/blender/blenlib/intern/BLI_ghash.c:1322-1350 | a valid iterator with nothing visited, done exactly when the table is empty |
| GHashIterators.GHashIterator.Step | source/blender/blenlib/intern/BLI_ghash.c:1357-1368 | a step adds the current key, not visited before, to the visited keys, and an iterator that becomes done stands at bucket `nbuckets`. A done iterator stays where it is |
| GHashIterators.GHashIterator.Done | source/blender/blenlib/intern/BLI_ghash.c:1425-1428 | done exactly when the current node is NULL, which is exactly when every key has been visited |
| GHashIterators.GHashIterator.GetKey | source/blender/blenlib/intern/BLI_ghash.c:1389-1392 | the current key, a present key not yet visited |
| GHashIterators.GHashIterator.GetValue | source/blender/blenlib/intern/BLI_ghash.c:1401-1404 | the value the table maps the current key to |
| GHashIterators.GHashIterator.GetValueP | source/blender/blenlib/intern/BLI_ghash.c:1413-1416 | the slot of the current node, which holds the key's value |
| GHashIterators.Keys | source/blender/blenlib/intern/BLI_ghash.c:1314-1317 | iterating from init until done steps exactly BLI_ghash_size times and meets every key once |
| GSets.NewEx | source/blender/blenlib/intern/BLI_ghash.c:1652-1662 | an empty set sized for the reserve |
| GSets.New | source/blender/blenlib/intern/BLI_ghash.c:1664-1667 | an empty set in the smallest class |
| GSets.Copy | source/blender/blenlib/intern/BLI_ghash.c:1672-1675 | a fresh set with the same elements |
| GSets.Size | source/blender/blenlib/intern/BLI_ghash.c:1677-1680 | the number of elements |
| GSets.Insert | source/blender/blenlib/intern/BLI_ghash.c:1686-1691 | an absent element is added, and the size class becomes `TargetClass` for the new count with the floor kept |
| GSets.Add | source/blender/blenlib/intern/BLI_ghash.c:1699-1702 | true exactly when the element was absent. It is present afterwards, and an element already present changes nothing. After an add the size class is `TargetClass` for the new count, with the floor kept |
| GSets.Reinsert | source/blender/blenlib/intern/BLI_ghash.c:1710-1713 | true exactly when the element was absent. It is present afterwards. After an add the size class is `TargetClass` for the new count; otherwise the sizing is kept |
| GSets.Remove | source/blender/blenlib/intern/BLI_ghash.c:1715-1718 | true exactly when the element was present. It is absent afterwards and flags are kept. The size class follows the same rule as for `GHash.Remove` |
| GSets.HasKey | source/blender/blenlib/intern/BLI_ghash.c:1721-1724 | membership |
| GSets.ClearEx | source/blender/blenlib/intern/BLI_ghash.c:1726-1731 | no elements, no flags, sized for the reserve, with the reserve as the floor |
| GSets.Clear | source/blender/blenlib/intern/BLI_ghash.c:1733-1736 | no elements, no flags, smallest class |
| GSets.FlagSet | source/blender/blenlib/intern/BLI_ghash.c:1743-1746 | the flags gain `flag`; elements, count, size class and floor are kept |
| GSets.FlagClear | source/blender/blenlib/intern/BLI_ghash.c:1748-1751 | the flags lose `flag`; elements, count, size class and floor are kept |
| GSets.IsDisjoint | source/blender/blenlib/intern/BLI_ghash.c:1753-1756 | true exactly when no element is shared |
| GSets.IsEqual | source/blender/blenlib/intern/BLI_ghash.c:1758-1761 | true exactly when the elements are the same |
| GSets.IsSubset | source/blender/blenlib/intern/BLI_ghash.c:1763-1766 | true exactly when the elements of gs2 all belong to gs1 |
| GSets.IsSuperset | source/blender/blenlib/intern/BLI_ghash.c:1768-1771 | true exactly when the elements of gs1 all belong to gs2 |
| GSets.UnionElements | source/blender/blenlib/intern/BLI_ghash.c:1777-1787 | the union's elements are those held by some operand |
| GSets.IntersectionElements | source/blender/blenlib/intern/BLI_ghash.c:1793-1803 | the intersection's elements are those held by every operand |
| GSets.DifferenceElements | source/blender/blenlib/intern/BLI_ghash.c:1809-1819 | the difference's elements are those of the first operand held by no other |
| GSets.SymmetricDifferenceElements | source/blender/blenlib/intern/BLI_ghash.c:1826-1836 | the symmetric difference's elements are those held by exactly one operand |
| GSets.Union | source/blender/blenlib/intern/BLI_ghash.c:1777-1787 | the resulting set has exactly the elements of some input |
| GSets.Intersection | source/blender/blenlib/intern/BLI_ghash.c:1793-1803 | the resulting set has exactly the elements of every input |
| GSets.Difference | source/blender/blenlib/intern/BLI_ghash.c:1809-1819 | the resulting set has exactly the first input's elements that no later input has |
| GSets.SymmetricDifference | source/blender/blenlib/intern/BLI_ghash.c:1826-1836 | the resulting set has exactly the elements of one and only one input |
| GHashUtil.Widen | source/blender/blenlib/intern/BLI_ghash.c:1536 | a `char` byte read as signed and widened: bytes from 0x80 up become `byte - 256 + 2^32` |
| GHashUtil.HashedLength | source/blender/blenlib/intern/BLI_ghash.c:1530-1540 | the bytes strhash_n reads: none is NUL, there are at most `n` of them, and fewer only when a NUL follows |
| GHashUtil.HashedLengthUnique | source/blender/blenlib/intern/BLI_ghash.c:1530-1540 | those conditions determine the length uniquely |
| GHashUtil.DjbStepTimes33 | source/blender/blenlib/intern/BLI_ghash.c:1536 | the round `(h << 5) + h + c` is `h * 33 + c` modulo 2^32, as documented |
| GHashUtil.StrHashN | source/blender/blenlib/intern/BLI_ghash.c:1530-1540 | the loop computes the djb hash (seed 5381, `h * 33 + c` per byte) of the bytes up to the first NUL, at most `n` of them |
| GHashUtil.StrLen | source/blender/blenlib/intern/BLI_ghash.c:1541-1551 | the position of the first NUL |
| GHashUtil.StrHashP | source/blender/blenlib/intern/BLI_ghash.c:1541-1551 | the loop computes the djb hash of the bytes before the first NUL |
| GHashUtil.HashedLengthOfString | source/blender/blenlib/intern/BLI_ghash.c:1530-1551 | strhash_n hashes what strhash_p hashes whenever `n` reaches the NUL, and otherwise the first `n` bytes |
| GHashUtil.Mix1Invertible | source/blender/blenlib/intern/BLI_ghash.c:1485 | step `key += ~(key << 16)` has a left inverse, so it is injective |
| GHashUtil.Mix2Invertible | source/blender/blenlib/intern/BLI_ghash.c:1486 | step `key ^= key >> 5` has a left inverse |
| GHashUtil.Mix3Invertible | source/blender/blenlib/intern/BLI_ghash.c:1487 | step `key += key << 3` has a left inverse |
| GHashUtil.Mix4Invertible | source/blender/blenlib/intern/BLI_ghash.c:1488 | step `key ^= key >> 13` has a left inverse |
| GHashUtil.Mix6Invertible | source/blender/blenlib/intern/BLI_ghash.c:1490 | step `key ^= key >> 17` has a left inverse |
| GHashUtil.MixPrefixInjective | source/blender/blenlib/intern/BLI_ghash.c:1485-1488 | keys that agree after the first four steps are equal |
| GHashUtil.UintHashCollision | source/blender/blenlib/intern/BLI_ghash.c:1483-1493 | keys with equal uinthash already agree after step 5 |
| GHashUtil.UintHashV4Base37 | source/blender/blenlib/intern/BLI_ghash.c:1461-1472 | uinthash_v4 reads the four words as a base-37 number modulo 2^32 |

## Left out

- Memory management is not modelled:
  - `MEM_*`, `BLI_mempool` and allocation failure;
  - `BLI_ghash_free`, `BLI_gset_free` and `BLI_ghashIterator_free`;
  - the key and value free and copy callbacks, where free is a no-op and copy is the identity.

  Entries are values, so there is nothing to free.
- `GHASH_FLAG_ALLOW_DUPES` tables with duplicate keys. The engine always keeps keys unique. The debug assertions against duplicates (362, 381) and the set/map assertions (`IS_GHASH_ASSERT`) become preconditions: `Insert` requires an absent key. `GHash.Add`, `Reinsert`, `Lookup`, `LookupDefault`, `LookupP` and `PopKey` require a map-shaped table, as do the iterator's `GetValue` and `GetValueP`: the entries of a set have no value part to read.
- Counts are unbounded naturals. In the source `nentries` and the reserve counts are `unsigned int`, and `BLI_ghash_size` and `BLI_gset_size` cast the count to `int` (901-904, 1677-1680). A table of 2^31 or more entries, where that cast turns negative and the 32-bit counter would wrap, is not modelled.
- GHashTable.GHash.Lookup and GHashTable.GHash.PopKey return `Some(v)` for a present key and `None` for a missing one. C returns `e->val` or NULL (955, 1022-1029), so a key stored with a NULL value and a missing key give the same NULL there, which is why `lookup_p` exists (948). The model keeps the two apart; C's result is the model's with `Some(v)` read as `v` and `None` as NULL.
- GHashTable.GHash.LookupP, GHashTable.GHash.StoreAt and GHashIterators.GHashIterator.GetValueP: the value pointer is modelled as a slot, the position of the node in its chain. A slot is valid only until the table next changes, since a prepend, an unlink or a rehash moves positions. The C pointer addresses the pool entry itself. It stays valid across inserts, removals of other keys and resizes, until its own key is removed or the table is cleared.
- The compiled-out bit-mask bucket branches (`#else` of `GHASH_USE_MODULO_BUCKETS`).
- `BLI_ghash_calc_quality` and `BLI_gset_calc_quality`, which return doubles, and `BLI_ghash_buckets_size`, a diagnostic.
- The murmur variants, which call an external hash.
- Pointer hashing and comparison (`ptrhash`, `inthash_p`, `pairhash`, the `*_new` constructors built on them), which depend on pointer identity.
- The comparison callbacks. Key comparison is Dafny equality.
- GHashTable.GHash.Copy: chain order is not stated. The copy (and every rebuild) reverses chains (515-516), but the model specifies only the contents, which is all the source promises.
- GHashOps.Union: like every multi-operand entry point, it requires gh1 to share no memory with the operands. This excludes calls such as `union(gh, gh)`. Operands are also read through snapshots of their bucket arrays.
- GHashOps.SymKeys: `rem_keys` is modelled as a list of keys, not as a second hash table. The second pass removes the listed keys from `keys` and then from gh1, which the source does in one loop. Both tables are distinct, so the result is the same.
- GHashIterators.GHashIterator.constructor: the initial `UINT_MAX` bucket (1341), which wraps to 0 on the first increment, is modelled as bucket -1.
- GHashUtil.UintHashCollision: injectivity of the whole of uinthash is not proved. Step 5 (`key += ~(key << 9)`) is invertible, but its inverse is out of the solver's reach here. The model proves steps 1-4 and 6 invertible and stops there.

## Findings

| source | as written | input that shows it | evidently intended | confidence | as-written member | corrected member |
|---|---|---|---|---|---|---|
| source/blender/blenlib/intern/BLI_ghash.c:794 | the second pass of the symmetric difference asserts that every key listed in `rem_keys` is still in `keys`. The first pass appends a key to `rem_keys` each time it meets the key again (746-756), so a key held by three tables is listed twice, and the second removal finds nothing | gh1 = {1}, then gh2 = {1} and gh3 = {1} | removal that tolerates an already-removed key, which is what release builds do (the loop just finds nothing) | high; not executed | SymPass.ListedTwiceBreaksAssertion | GHashOps.DiscardAll |
