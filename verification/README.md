# Verified models of PostgreSQL contrib modules

This project models the hard parts of five PostgreSQL contrib modules and proves what they promise.

* **amcheck, B-tree part** (`Nbtree*.dfy`): the readonly check of a B-tree index with its parent
  checks. What acceptance says about leaf order and about the bounds of ancestors, and when; no page
  is verified twice and the walk over each level ends, whatever the links say.
* **amcheck, heap part** (`Heap*.dfy`): the three passes over a heap page (line pointers, update
  chains, roots), the chunks of toasted values, and the widening of 32-bit transaction ids.
* **bloom** (`Bloom*.dfy`): the generator and the signatures, the page with its compaction in place,
  and inserters, vacuums, cleanups and scans that work at the same time, as a state machine.
* **btree_gist** (`ByteOrder.dfy`, `VarKey.dfy`, `VarTree.dfy`, `VarSplit.dfy`, `NumSplit.dfy`): byte
  string keys whose bounds are cut to prefixes, search over them, and page splits.
* **hstore** (`Hstore*.dfy`): the packed layout in bytes, subscript fetch and assignment, the
  conversion of old values in place, and the signature index.
* **cube** (`Cube*.dfy`): boxes of mixed dimension, search with inner keys, lower bounds for ordering
  by distance, page splits, and the comparison. `SplitVector.dfy` has what the splits share.

Code that updates things in place is modelled by classes, arrays and loops that are proved against
functions and predicates; code that computes is modelled by functions. The concurrent part of bloom
is a step system: a step is what a process does while it holds one page lock, the metapage lock of
an inserter spans steps, and a run is any list of steps that are possible when their turn comes.

Inputs that come from outside are parameters: the hash functions, the order that a sort leaves, the
answers of the free space map, the state of transactions, what memory past the end of a value holds,
and what the checks inside a heap tuple find.

Results that contradict an expectation are kept, each with an input and the exact condition:

* The B-tree check accepts a downlink without a key to block 0, and then the bounds of ancestors need
  not hold (`NbtreeTheorems.HoledIsAccepted`; `NbtreeTheorems.BoundedIff` says exactly when they do).
* When the first downlink of a level is to block 0 the check stops there and accepts leaves that are
  out of order (`NbtreeTheorems.UnreadIsAccepted`; `NbtreeTheorems.SeesLeavesIff` says exactly when
  the leaves are verified).
* Two hash values per column put the bloom generator into state zero, and the bit position is then
  negative (`BloomSignature.PositionsInsideIff`, `BloomSignature.ZeroSeedHashes`).
* A split of an inner page of byte string keys can make a stored value unreachable, at once or after
  another split (`VarSplit.SplitLosesLeaf`, `VarSplit.TwoSplitsLoseLeaf`; `VarSplit.SplitIsSoundIff`
  and `VarTree.InnerSplitIff` say exactly when).
* Contained-by on cubes can miss a box of fewer dimensions than the query
  (`CubeIndex.ContainedByFails`; `CubeIndex.ContainedByIff` and `CubeIndex.SearchIsExactIff` say
  exactly when).
* The comparison of cubes, which B-tree indexes use, is not transitive between boxes of different
  dimensions (`CubeOrder.Circle`; `CubeOrder.TransitiveIff` says exactly when it is).
* A short old hstore can be taken for a new one, and then its pairs are lost
  (`HstoreUpgrade.ShortValueLosesPairs`; `HstoreUpgrade.UpgradeKeepsPairsIff` says exactly when).
* The heap check accepts a chain of heap-only tuples that goes in a circle and has no start
  (`HeapChain.CircleIsAccepted`; `HeapChain.RootedIff` says exactly when a chain has one).
* An xid from before the start of a young cluster counts as in bounds (`HeapXid.ClampIsInBounds`;
  `HeapXid.InBoundsIsRealIff` says exactly when all ids in bounds are real).

`dafny verify dfyconfig.toml` checks the whole project.

## Model

| member | source | states |
|---|---|---|
| NbtreeTheorems.IndexParentCheck | contrib/amcheck/verify_nbtree.c:448-665 | Main result of the B-tree check, for trees with no page in flux. Acceptance means that the levels seen fit. The leaves are among them if and only if following first downlinks from the root reaches a leaf, and then (without empty leaves) leaf items strictly increase along the right links. The bounds of all ancestors hold if and only if they hold for the exposed downlinks, and so when none is exposed; none is when no downlink is to block 0. Conversely every tree that is as it should be is accepted. |
| NbtreeTheorems.SeenLeavesIncrease | contrib/amcheck/verify_nbtree.c:1119-1553 | In an accepted tree whose leaves were seen any two leaf items, on one page or on two, are strictly ordered by their place along the right links. |
| NbtreeTheorems.SeesLeavesIff | contrib/amcheck/verify_nbtree.c:582-598 | The walk from level to level gets to the leaves if and only if following first downlinks from the root reaches a leaf. |
| NbtreeTheorems.BoundedIff | contrib/amcheck/verify_nbtree.c:1852-2082 | In an accepted tree every leaf item below a downlink of any page seen is at most the pivot after that downlink, or the high key of that page, if and only if this holds for the exposed downlinks: those to a page that is not on the level below, and those with an upper end to a page that has no high key. |
| NbtreeTheorems.LeadingIsNotExposed | contrib/amcheck/verify_nbtree.c:1852-2082 | An accepted tree without a downlink to block 0 has no exposed downlink. |
| NbtreeTheorems.LeafItemsIncrease | contrib/amcheck/verify_nbtree.c:1119-1553 | The same order for two given items of two given pages of the leaf level. |
| NbtreeTheorems.LeafBelowUpper | contrib/amcheck/verify_nbtree.c:1852-2082 | The upper bound for a given path of downlinks from a given page, for the largest heap TID of a posting list too, when the exposed downlinks are bounded. |
| NbtreeTheorems.LeafAboveKey | contrib/amcheck/verify_nbtree.c:2098-2247 | A leaf item reached through downlinks that all have keys is greater than each of those keys, when no downlink leads off the level below. |
| NbtreeTheorems.ChildOnLevel | contrib/amcheck/verify_nbtree.c:1852-2082 | When no downlink is to block 0, every downlink of a level leads to a page of the level below that the walk along the right links met. |
| NbtreeTheorems.ChainIsRightLinks | contrib/amcheck/verify_nbtree.c:686-902 | The verified list of a level is what following right links gives, from any page of it, and ends at no page. |
| NbtreeTheorems.HoledTree | contrib/amcheck/verify_nbtree.c:1852-2082 | A tree with a downlink to block 0 that meets every demand of the check. |
| NbtreeTheorems.HoledIsUnbounded | contrib/amcheck/verify_nbtree.c:1852-2082 | In that tree a leaf item exceeds the pivot after the downlink that leads to it. |
| NbtreeTheorems.HoledIsAccepted | contrib/amcheck/verify_nbtree.c:1852-2082 | The check accepts that tree, so a bound can fail on an accepted tree. |
| NbtreeTheorems.UnreadTree | contrib/amcheck/verify_nbtree.c:582-598 | A tree whose first downlink is to block 0 meets every demand of the check without its leaf. |
| NbtreeTheorems.UnreadIsUnordered | contrib/amcheck/verify_nbtree.c:582-598 | The items on the leaf of that tree are out of order, and first downlinks reach no leaf. |
| NbtreeTheorems.UnreadIsAccepted | contrib/amcheck/verify_nbtree.c:448-665 | The check accepts that tree, so leaf order can fail on an accepted tree. |
| NbtreeCheck.BtreeCheckState.CheckEveryLevel | contrib/amcheck/verify_nbtree.c:582-598 | No block is the target twice over the whole tree and the walk over each level ends, for any link graph without half-dead pages; with no page in flux acceptance means that the levels from the root to where first downlinks end all fit, and a tree whose levels do is accepted. |
| NbtreeCheck.BtreeCheckState.OneLevelDown | contrib/amcheck/verify_nbtree.c:582-598 | One turn of that loop: the level passed joins those above it, and the next level is the one that the first downlink of this one names. |
| NbtreeCheck.BtreeCheckState.CheckLevelFromLeftmost | contrib/amcheck/verify_nbtree.c:686-902 | One level: targets are distinct pages of that level, the walk ends, acceptance means the level fits and names the level below, and a level that fits is accepted in full. |
| NbtreeCheck.BtreeCheckState.WalkStep | contrib/amcheck/verify_nbtree.c:712-889 | One turn of the walk: the list of targets grows by the page at hand, and its demands hold when the turn is accepted. |
| NbtreeCheck.BtreeCheckState.VisitPage | contrib/amcheck/verify_nbtree.c:712-889 | The tests on one page of the walk: deleted and half-dead pages, the left link, the level, the first page of the level below, and then the target check. |
| NbtreeCheck.BtreeCheckState.TargetPageCheck | contrib/amcheck/verify_nbtree.c:1074-1554 | The target page is accepted exactly when its items, its right sibling and its downlinks are as they should be. |
| NbtreeCheck.BtreeCheckState.ItemCheck | contrib/amcheck/verify_nbtree.c:1119-1538 | One item of the target page, with the check of its child on an inner page. |
| NbtreeCheck.BtreeCheckState.KeyedItemCheck | contrib/amcheck/verify_nbtree.c:1345-1526 | High key, item order and last item tests of an item with a key are accepted if and only if the orders hold. |
| NbtreeCheck.BtreeCheckState.PostingCheck | contrib/amcheck/verify_nbtree.c:1227-1258 | A posting list passes if and only if its heap TIDs strictly ascend. |
| NbtreeCheck.BtreeCheckState.RightPageItem | contrib/amcheck/verify_nbtree.c:1573-1772 | The first item with a key on the page that right links lead to over ignorable pages, or none; with nothing in flux that is the right sibling, and an error means that it does not load. |
| NbtreeCheck.BtreeCheckState.ChildCheck | contrib/amcheck/verify_nbtree.c:2098-2247 | The child check with the high key check before it: accepted exactly when the downlink fits and the keys of the child are above it; a downlink with a key to block 0 is an error. |
| NbtreeCheck.BtreeCheckState.ChildHighkeyCheck | contrib/amcheck/verify_nbtree.c:1852-2082 | The walk to the right on the child level between two downlinks: acceptance means that right links lead from the remembered page to the child and leaves its right link to continue from; with nothing in flux the child repeats the next pivot as its high key, and the very next page is accepted. |
| NbtreeCheck.BtreeCheckState.HighkeyPageCheck | contrib/amcheck/verify_nbtree.c:1918-2052 | One page of that walk: a child that passes fits its downlink unless it is deleted or incompletely split, and a first page that fits passes. |
| NbtreeCheck.BtreeCheckState.ChildPageCheck | contrib/amcheck/verify_nbtree.c:1918-1959 | The tests of one page of that walk. |
| NbtreeCheck.BtreeCheckState.MatchingPivot | contrib/amcheck/verify_nbtree.c:1997-2052 | Which key of the target level the high key of a child must repeat: an item, the high key of the target past its last item, the high key of the left sibling at negative infinity; and the error when there is none. |
| NbtreeCheck.BtreeCheckState.DownlinkMissingCheck | contrib/amcheck/verify_nbtree.c:2263-2428 | A page without a downlink is accepted exactly at the root, after an interrupted split, or when first downlinks lead from it, one level after the other, to a half-dead leaf that names it as top parent; with nothing in flux exactly in the first two cases. |
| NbtreeModel.InvariantsAreOrder | contrib/amcheck/verify_nbtree.c:2776-2941 | The tests of the checker between a key and a tuple are the lexicographic order on keys in which a truncated attribute comes first. |
| NbtreeModel.CompareAttributesIsOrder | src/backend/access/nbtree/nbtsearch.c:666-845 | The comparison of a scan key with a tuple, attribute by attribute, agrees with that order; a key that runs out compares equal. |
| NbtreeModel.LessTrichotomy | src/backend/access/nbtree/nbtsearch.c:666-845 | The order is total and irreflexive. |
| NbtreeSpec.BackLinkedIsDistinct | contrib/amcheck/verify_nbtree.c:686-902 | Pages whose left links lead back along a walk are all different, so the walk cannot turn in a circle. |
| BloomSignature.StepIsLehmer | contrib/bloom/blutils.c:222-246 | The generator step is 16807 times the state modulo 2^31 - 1 for every non-zero state below that in magnitude, negative ones included; the result is in 1..2^31 - 2 and no intermediate value leaves int32. |
| BloomSignature.Generator.Rand | contrib/bloom/blutils.c:222-246 | The generator in place: the new state is that step, and the value returned is the new state less one. |
| BloomSignature.Generator.Srand | contrib/bloom/blutils.c:249-254 | Seeding in place, with the conversion to int32. |
| BloomSignature.PositionsInsideIff | contrib/bloom/blutils.c:260-287 | All bit positions of a value lie inside the signature if and only if the seed is not one of the two that turn the generator state into zero or into the modulus. |
| BloomSignature.ZeroSeedHashes | contrib/bloom/blutils.c:260-287 | In every column exactly two hash values of a 32-bit hash lead to those seeds, and both exist. |
| BloomSignature.SetRandomBits | contrib/bloom/blutils.c:281-286 | The loop sets exactly the drawn positions in the signature array. |
| BloomSignature.SignValue | contrib/bloom/blutils.c:260-287 | Signing a value into an array: the bits of the value are added and nothing else changes. |
| BloomSignature.FormSignature | contrib/bloom/blutils.c:293-311 | The signature of a row: all its values that are not null. |
| BloomSignature.FormScanSignature | contrib/bloom/blscan.c:90-116 | The signature of the scan keys, or nothing when a key is null. |
| BloomSignature.SignatureMatches | contrib/bloom/blscan.c:147-155 | The word by word test holds if and only if every bit of the scan signature is in the tuple. |
| BloomSignature.BloomState.MatchingRowPasses | contrib/bloom/blscan.c:147-155 | A row that agrees with every scan key in hash passes the signature test. |
| BloomPage.FitsIsRoom | contrib/bloom/bloom.h:152-155 | The free space macro, in unsigned arithmetic, admits a tuple exactly when it fits behind those of a page that does not overflow. |
| BloomPage.PageBuffer.Init | contrib/bloom/blutils.c:399-408 | Initialisation leaves an empty live page. |
| BloomPage.PageBuffer.AddTuple | contrib/bloom/blutils.c:318-345 | The tuple is appended exactly when there is room; otherwise the page is unchanged; `pd_lower` follows. |
| BloomPage.PageBuffer.BulkDelete | contrib/bloom/blvacuum.c:85-139 | The two-pointer loop in the page buffer leaves exactly the surviving tuples in order; `maxoff`, the count of removed tuples, the deleted flag, the not-full verdict and `pd_lower` match. |
| BloomPage.SurvivorsSplit | contrib/bloom/blvacuum.c:85-107 | Survivors and removed tuples together are the tuples of the page, with multiplicity. |
| BloomPage.SurvivorsAreAlive | contrib/bloom/blvacuum.c:85-107 | A tuple survives if and only if its pointer is not dead. |
| BloomPage.Build | contrib/bloom/blinsert.c:121-158 | The pages of a built index hold exactly the given tuples in order, and every page is live, not empty and does not overflow. |
| BloomPage.CachedAdd | contrib/bloom/blinsert.c:74-115 | A tuple goes to the cached page exactly when there is room; an empty page always has room. |
| BloomPage.Flush | contrib/bloom/blinsert.c:47-58 | Flushing appends the tuples of the cached page to the file. |
| BloomProtocol.Reachable | contrib/bloom/blinsert.c:174-341 | In every state that a built index reaches by any interleaving of inserts, vacuums, cleanups, scans and interrupted extensions: tuples inserted are exactly those on pages and those removed, deleted pages are empty, live pages are not and do not overflow, the metapage list names data pages only, and its lock has one holder. |
| BloomProtocol.ApplyKeeps | contrib/bloom/blinsert.c:202-335 | Every single step keeps that invariant. |
| BloomProtocol.InsertTryKeeps | contrib/bloom/blinsert.c:206-250 | The first attempt, on a page that may have been deleted meanwhile, keeps it. |
| BloomProtocol.InsertScanKeeps | contrib/bloom/blinsert.c:252-309 | So does the loop over the listed pages under the metapage lock. |
| BloomProtocol.AllocateKeeps | contrib/bloom/blutils.c:353-393 | So does taking a page from the free space map or extending the file, whatever the map answers. |
| BloomProtocol.VacuumPageKeeps | contrib/bloom/blvacuum.c:57-139 | So does the vacuum of one page. |
| BloomProtocol.VacuumMetaKeeps | contrib/bloom/blvacuum.c:141-158 | So does writing a list of not-full pages that may be out of date. |
| BloomProtocol.CleanupKeeps | contrib/bloom/blvacuum.c:169-217 | So does recording free pages. |
| BloomProtocol.AddKeeps | contrib/bloom/blutils.c:318-345 | An inserter adds exactly one tuple to the page, initialised first if unused; it fails only on a full live page. |
| BloomProtocol.BuildIsBuilt | contrib/bloom/blinsert.c:121-158 | What the build writes is a state to start from, with every row recorded. |
| BloomProtocol.MatchPage | contrib/bloom/blscan.c:142-163 | The loop over the tuples of a page finds exactly the pointers of matching tuples, and counts those tuples. |
| BloomRuns.StepKeepsTuple | contrib/bloom/blvacuum.c:57-139 | A tuple stays on its page through every step except a vacuum step that lists its pointer as dead: tuples never move and recycling never drops one. |
| BloomRuns.StepAddsTuple | contrib/bloom/blinsert.c:206-335 | A tuple comes onto a page only by the last step of its own insertion. |
| BloomRuns.ScanIsComplete | contrib/bloom/blscan.c:126-168 | A scan that goes page by page among any other steps returns every matching tuple that was there when it started and that no vacuum removed. |
| BloomRuns.ScanReturnsRow | contrib/bloom/blscan.c:90-168 | The same for rows: every indexed row whose columns equal the scan keys is returned. |
| BloomRuns.ScanIsSound | contrib/bloom/blscan.c:126-168 | Everything a scan returns is the pointer of an inserted tuple whose signature matches. |
| BloomRuns.VacuumIsThorough | contrib/bloom/blvacuum.c:57-139 | When a vacuum ends no page holds a tuple with a dead pointer, in every interleaving whose inserts carry no dead pointer. |
| ByteOrder.CompareTotal | contrib/btree_gist/btree_bytea.c:74-86 | The byte order is antisymmetric, and zero only for equal strings. |
| ByteOrder.LessTransitive | contrib/btree_gist/btree_bytea.c:74-86 | It is transitive. |
| VarKey.NodeCommonPrefix | contrib/btree_gist/btree_utils_var.c:121-162 | The loop computes the length of the longest common prefix of the bounds. |
| VarKey.UnionKeys | contrib/btree_gist/btree_utils_var.c:322-357 | The loop computes the outermost bounds, cut two bytes past their common prefix. |
| VarKey.UnionCovers | contrib/btree_gist/btree_utils_var.c:322-357 | The cut key of a union stands for every value that one of the joined keys stands for, cut ones included. |
| VarKey.UnionStands | contrib/btree_gist/btree_utils_var.c:322-357 | The same for entries of any origin, those made by splits of inner pages included. |
| VarKey.TruncateCovers | contrib/btree_gist/btree_utils_var.c:204-228 | A cut past the common prefix keeps every value between the uncut bounds, the largest ones by the prefix rule. |
| VarKey.ConsistentIsSound | contrib/btree_gist/btree_utils_var.c:554-612 | An inner key never rejects a query that a value it stands for satisfies, for all six strategies. |
| VarKey.LeafIsExact | contrib/btree_gist/btree_utils_var.c:554-612 | On a leaf key the answer is exact. |
| VarTree.KeyStands | contrib/btree_gist/btree_utils_var.c:233-547 | A key made by unions and by splits, of leaf pages and of inner pages that lose nothing, through any number of levels, stands for every value it was made for. |
| VarTree.StandsIff | contrib/btree_gist/btree_utils_var.c:233-547 | A key stands for exactly the values that can be below it: for each there are unions and splits that lose nothing and make that very key over it. |
| VarTree.SearchIsExact | contrib/btree_gist/btree_utils_var.c:554-612 | Search through a tree of such keys returns exactly the stored values that satisfy the query, in order. |
| VarTree.InnerSplitIff | contrib/btree_gist/btree_utils_var.c:530-544 | For a split of inner entries, whatever trees are below them: no query loses a value by the new key, if and only if the split is not one of those that lose values. |
| VarTree.InnerSplitSource | contrib/btree_gist/btree_utils_var.c:458-547 | The key that the split gives to a side that loses nothing is such a key again, for all values of the side. |
| VarTree.PickSplit | contrib/btree_gist/btree_utils_var.c:458-547 | The split cuts the sorted entries in the middle, places each once, and gives both sides keys cut at the larger of the two prefix lengths. |
| VarTree.LeafSplitCovers | contrib/btree_gist/btree_utils_var.c:458-547 | Such a key covers every leaf of its side. |
| VarSplit.SplitIsSoundIff | contrib/btree_gist/btree_utils_var.c:530-544 | For a split of inner entries: the new key is consistent with every query that a value of an entry satisfies, for any strategy, if and only if its lower bound is a prefix of the upper one or no entry is overrun. An entry is overrun when it may have values past its upper bound and the later cut goes on from there with a byte that is not 255. |
| VarSplit.KeepsValues | contrib/btree_gist/btree_utils_var.c:530-544 | In that case the new key stands for all these values, so that the next union or split can rely on it. |
| VarSplit.LongerSideIsSound | contrib/btree_gist/btree_utils_var.c:530-544 | The side with the longer common prefix is always cut soundly. |
| VarSplit.SplitLosesLeaf | contrib/btree_gist/btree_utils_var.c:530-544 | A concrete inner page, with the union of two leaves as its first entry, after whose split one of these leaves is no longer found by equality. |
| VarSplit.TwoSplitsLoseLeaf | contrib/btree_gist/btree_utils_var.c:530-544 | Two splits one after the other: the first loses nothing, and the second loses a leaf that the key of the first reaches by the prefix rule on its lower bound only. |
| VarSplit.LostValue | contrib/btree_gist/btree_utils_var.c:530-544 | The general witness: for every overrun entry there is a value it stands for that the new key rejects. |
| HstoreLayout.HoldsReads | contrib/hstore/hstore.h:23-83 | Bytes that hold a list of pairs read back as these pairs through the access macros. |
| HstoreLayout.HoldsUnique | contrib/hstore/hstore.h:23-83 | Bytes hold at most one list of pairs. |
| HstoreBuilder.Builder.CopyItem | contrib/hstore/hstore.h:99-106 | The copied pair is appended: its two entry words and its strings. |
| HstoreBuilder.Builder.AddItem | contrib/hstore/hstore.h:112-126 | The new pair is appended; a null value takes no bytes and sets the flag. |
| HstoreBuilder.Builder.Finalize | contrib/hstore/hstore.h:129-140 | The finished bytes hold exactly the pairs written, also after the strings were moved down over unused entries; first flag, count and length are right. |
| HstoreBuilder.Builder.Shift | contrib/hstore/hstore.h:134-138 | Moving the strings keeps entries and strings intact. |
| HstoreAssign.FindKey | contrib/hstore/hstore_op.c:36-70 | Binary search returns an index of the key, or nothing if and only if the key is absent. |
| HstoreAssign.Fetch | contrib/hstore/hstore_subs.c:94-134 | Subscript fetch is lookup in the map that the bytes stand for; a null subscript, a missing key and a null value give null. |
| HstoreAssign.Merge | contrib/hstore/hstore_subs.c:214-251 | The merge loop writes the old pairs with the new one in its place, replacing a pair with the same key. |
| HstoreAssign.Assign | contrib/hstore/hstore_subs.c:143-258 | Assignment refines map update: errors for a null subscript and for a size past the allocation limit, and otherwise exactly packed bytes that hold the sorted pairs of the old map with the key set. |
| HstoreAssign.WantedIsChecked | contrib/hstore/hstore_subs.c:203-205 | The size is kept in an int32, but no overflow makes an oversized request look small. |
| HstoreAssign.OneElement | contrib/hstore/hstore_io.c:445-471 | A null container becomes an hstore with the one pair. |
| HstoreAssign.UpsertIsUpdate | contrib/hstore/hstore_subs.c:214-251 | Insertion into the list of pairs means map update. |
| HstoreAssign.UpsertSorted | contrib/hstore/hstore_subs.c:214-251 | It keeps keys strictly increasing by length and bytes. |
| HstoreAssign.FetchAfterAssign | contrib/hstore/hstore_subs.c:94-258 | On the bytes: when one value holds the pairs of an assignment to another, looking a key up in it gives the new value at that key and the old one elsewhere. |
| HstoreUpgrade.ValidOldFormat | contrib/hstore/hstore_compat.c:171-229 | The test accepts exactly the values in the old format (contiguous positions, growing key lengths, strings inside the value), in spite of int32 overflow in its sums, and tells exact ones from ones with slack. |
| HstoreUpgrade.ValidNewFormat | contrib/hstore/hstore_compat.c:119-162 | The test for the new format is non-zero exactly when its conditions hold, and tells exact values from ones with slack. |
| HstoreUpgrade.CheckPositions | contrib/hstore/hstore_compat.c:206-219 | The accumulator is right or has just become negative, and overflow leads to rejection. |
| HstoreUpgrade.OldEntriesDescribe | contrib/hstore/hstore_compat.c:206-219 | Entries that pass the test describe contiguous pairs. |
| HstoreUpgrade.ConvertEntry | contrib/hstore/hstore_compat.c:325-338 | An old entry is overwritten by two new words while later entries stay in the old format. |
| HstoreUpgrade.NewWords | contrib/hstore/hstore_compat.c:327-337 | The new words are the end positions of key and value with the null flag; the position mask loses nothing. |
| HstoreUpgrade.Convert | contrib/hstore/hstore_compat.c:316-346 | The value converted in place holds exactly the pairs of the old value, in the new format with the right length. |
| HstoreUpgrade.Upgrade | contrib/hstore/hstore_compat.c:236-347 | Every branch: new values and those taken as new keep their entries, old ones are converted to the same pairs, the rest are an error and unchanged. |
| HstoreUpgrade.TakenAsNewIff | contrib/hstore/hstore_compat.c:250-256 | A value in the old format that is not empty is taken for new without a test if and only if it is short, its first value is null and the unused length stored with it has the top bit set. |
| HstoreUpgrade.ForcedLosesPairs | contrib/hstore/hstore_compat.c:250-256 | Then the result does not hold the pairs. |
| HstoreUpgrade.UpgradeKeepsPairsIff | contrib/hstore/hstore_compat.c:236-347 | For every value in the old format: the upgraded value holds its pairs if and only if it is not one of these. |
| HstoreUpgrade.ShortValueLosesPairs | contrib/hstore/hstore_compat.c:250-256 | The bytes of one such value, with one pair, which is lost. |
| HstoreSignature.UnionKey | contrib/hstore/hstore_gist.c:296-306 | The bits of the key are added in place; the all-true flag is reported instead. |
| HstoreSignature.Union | contrib/hstore/hstore_gist.c:309-333 | The bits of a union are exactly those of the entries together. |
| HstoreSignature.CompressLeaf | contrib/hstore/hstore_gist.c:153-182 | A leaf signature has exactly the bits of keys and of values that are not null. |
| HstoreSignature.CompressInner | contrib/hstore/hstore_gist.c:183-204 | A vector becomes the flag if and only if it is all ones; no bit changes its meaning. |
| HstoreSignature.Consistent | contrib/hstore/hstore_gist.c:507-609 | The answer is exactly whether the signature leaves room for the query; null array elements are skipped. |
| HstoreSignature.TreeAdmits | contrib/hstore/hstore_gist.c:507-609 | No key above a value that satisfies contains, exists, exists-any or exists-all rules the query out. |
| HstoreSignature.BitsReachUp | contrib/hstore/hstore_gist.c:296-333 | Every bit of a stored value is in the key of every node above it. |
| HstoreSignature.SearchIsExact | contrib/hstore/hstore_gist.c:507-609 | Search through a valid tree, with the recheck that every strategy asks for, returns exactly the stored values that satisfy the query, in order. |
| HstoreSignature.UnionIsValid | contrib/hstore/hstore_gist.c:309-333 | A node whose key is the union of the keys below keeps the tree valid. |
| HstoreSignature.InsertIsValid | contrib/hstore/hstore_gist.c:309-333 | So does one more entry under a node whose key becomes the union of its key and the key of the entry. |
| HstoreSignature.CompressIsValid | contrib/hstore/hstore_gist.c:183-204 | So does compressing the key of a node. |
| HstoreSplit.HemDist | contrib/hstore/hstore_gist.c:280-293 | The distance is the number of differing bits, with the flag counted as all ones. |
| HstoreSplit.SizeBitVec | contrib/hstore/hstore_gist.c:252-263 | The loop over bytes counts the set bits. |
| HstoreSplit.HemDistSign | contrib/hstore/hstore_gist.c:266-277 | The loop over bits counts the differing ones. |
| HstoreSplit.Absorb | contrib/hstore/hstore_gist.c:465-475 | The bits of an entry join the datum in place; an all-true entry fills a vector with ones. |
| HstoreSplit.Seeds | contrib/hstore/hstore_gist.c:396-420 | The seeds are a pair of entries that are farthest apart among all but the last; with two entries they are these. |
| HstoreSplit.PickSplit | contrib/hstore/hstore_gist.c:364-503 | Every entry goes to exactly one side, neither side is empty, and the key of a side has exactly the bits of its entries. |
| HstoreSplit.SideIsValid | contrib/hstore/hstore_gist.c:364-503 | The key of a side makes a valid node over the children of that side. |
| HstoreSplit.SplitNode | contrib/hstore/hstore_gist.c:364-503 | A node split in two, with keys compressed: both nodes are valid, and every child is in exactly one of them. |
| Cube.Union | contrib/cube/cube.c:748-805 | The union is the smallest interval in every dimension, with a missing dimension counted as zero, for boxes and points of any dimension. |
| Cube.UnionIsLeast | contrib/cube/cube.c:748-805 | No box with both inside is smaller. |
| Cube.UnionAll | contrib/cube/cube.c:425-449 | The union of all entries covers each and lies in every box that does. |
| CubeOrder.Compare | contrib/cube/cube.c:937-1014 | The loops compute the first difference among the lower ends and then the upper ends of the common dimensions, then those of the extra dimensions against zero, then the numbers of dimensions; zero if and only if dimensions and all bounds agree. |
| CubeOrder.CmpFlips | contrib/cube/cube.c:937-1014 | Swapping the boxes flips the sign. |
| CubeOrder.TransitiveIff | contrib/cube/cube.c:937-1014 | Over boxes of two dimension numbers the comparison is transitive if and only if the numbers are the same or one of them is zero. |
| CubeOrder.Circle | contrib/cube/cube.c:937-1014 | For any two other dimension numbers, three boxes each of which is less than the next. |
| CubeOrder.PointsAreTransitive | contrib/cube/cube.c:937-1014 | Among points of any dimensions the comparison is transitive. |
| Cube.ContainsBox | contrib/cube/cube.c:1124-1159 | Containment over the dimensions of the contained box. |
| Cube.OverlapBoxes | contrib/cube/cube.c:1194-1229 | Overlap: the intervals meet in all dimensions, missing ones being zero. |
| CubeIndex.LeafConsistent | contrib/cube/cube.c:679-705 | The leaf test is exact. |
| CubeIndex.InternalConsistent | contrib/cube/cube.c:708-732 | Which test an inner key is put to. |
| CubeIndex.TreeAdmits | contrib/cube/cube.c:708-732 | Under any iterated union no key above a box that satisfies overlap, same or contains rejects the query; nor for contained-by when the query contains zero in the dimensions that the box lacks. |
| CubeIndex.SearchIsExact | contrib/cube/cube.c:679-732 | Search through a valid tree returns exactly the stored boxes that satisfy the query, in order; for contained-by when the query contains zero in the dimensions that the boxes it finds lack. |
| CubeIndex.SearchIsExactIff | contrib/cube/cube.c:679-732 | Over given boxes search is exact on every valid tree if and only if that condition holds. |
| CubeIndex.UnionNode | contrib/cube/cube.c:425-449 | A node with the union of the keys below it is valid, and its key lies in that of every valid node over the same children. |
| CubeIndex.InsertNode | contrib/cube/cube.c:425-449 | One more entry under a node whose key becomes the union of its key and the key of the entry keeps the tree valid. |
| CubeIndex.ContainedByIff | contrib/cube/cube.c:1147-1156 | Contained-by with extra dimensions: every key above the box lets the query pass if and only if the query contains zero in the dimensions that the box lacks. |
| CubeIndex.ContainedByFails | contrib/cube/cube.c:1147-1156 | A box and a query for which it fails. |
| CubeIndex.TreeCovers | contrib/cube/cube.c:425-449 | Through any number of levels a key covers the boxes below. |
| CubeIndex.BoxDistance | contrib/cube/cube.c:1253-1395 | The loops compute taxicab, Chebyshev and squared Euclidean distance from the gaps in all dimensions. |
| CubeIndex.CommonGap | contrib/cube/cube.c:1503-1515 | The one-dimensional distance is the gap between the intervals, in either order of the boxes. |
| CubeIndex.KeyDistanceIsBound | contrib/cube/cube.c:1398-1500 | The distance to an inner key is a lower bound for every box below, across dimensions. |
| CubeIndex.CoordinateValue | contrib/cube/cube.c:1405-1475 | On a leaf the value is that of the coordinate operator; on an inner key the lower bound, or the negated upper bound; zero is an error. |
| CubeIndex.KeyCoordinateIsBound | contrib/cube/cube.c:1644-1699 | That value is a lower bound for the coordinate of every box below. |
| CubeSplit.PickSplit | contrib/cube/cube.c:511-655 | Every entry goes to exactly one side, neither side is empty, and the key of a side is the smallest box around its entries. |
| CubeSplit.SplitNode | contrib/cube/cube.c:511-655 | A node split in two: both nodes are valid, and every child is in exactly one of them. |
| CubeSplit.Place | contrib/cube/cube.c:605-648 | An entry goes to one side, whose datum stays the smallest box. |
| NumSplit.BinUnion | contrib/btree_gist/btree_utils_num.c:228-252 | The first entry is copied, later ones widen the key. |
| NumSplit.PickSplit | contrib/btree_gist/btree_utils_num.c:339-384 | The sorted entries are cut in the middle; each is placed once, and the key of a side covers its entries with ends taken from them. |
| HeapChain.CheckPage | contrib/amcheck/verify_heapam.c:444-776 | The three passes report nothing if and only if the page is clean. |
| HeapChain.PageCheck.CheckItem | contrib/amcheck/verify_heapam.c:444-573 | First pass for one line pointer: reports exactly when it does not fit, and records validity and successor. |
| HeapChain.PageCheck.CheckLink | contrib/amcheck/verify_heapam.c:575-744 | Second pass for one line pointer: reports exactly when its link is unsound or another line pointer before it links to the same tuple; records the predecessor. |
| HeapChain.PageCheck.CheckTuples | contrib/amcheck/verify_heapam.c:675-743 | The flags and transaction states of two linked tuples. |
| HeapChain.PageCheck.ThirdPass | contrib/amcheck/verify_heapam.c:746-776 | Reports exactly the heap-only tuples of live transactions that nothing links to. |
| HeapChain.LinksAreUnique | contrib/amcheck/verify_heapam.c:575-744 | On a clean page no two line pointers link to one tuple. |
| HeapChain.HeapOnlyHasOnePredecessor | contrib/amcheck/verify_heapam.c:444-776 | On a clean page a heap-only tuple whose xmin is committed or in progress has exactly one predecessor: a redirect, or a HOT-updated tuple whose update xid is that xmin. |
| HeapChain.RootedIff | contrib/amcheck/verify_heapam.c:746-776 | Going back from a heap-only tuple comes to a redirect or to a tuple that is not heap-only, if and only if it neither goes in a circle nor ends at a heap-only tuple that nothing links to. |
| HeapChain.CleanIsRootedIff | contrib/amcheck/verify_heapam.c:746-776 | On a clean page whose heap-only tuples are all of committed or running transactions only a circle keeps a chain from its start. |
| HeapChain.RisingIsRooted | contrib/amcheck/verify_heapam.c:746-776 | On such a page every chain has its start when each heap-only tuple that was updated was updated by a later transaction than its xmin. |
| HeapChain.CircleIsAccepted | contrib/amcheck/verify_heapam.c:444-776 | Two heap-only tuples that are the new versions of each other: the three passes report nothing. |
| HeapToast.ToastCheck.CheckToastTuple | contrib/amcheck/verify_heapam.c:1458-1541 | Reports exactly when the chunk is not the next one with the right size. |
| HeapToast.ToastCheck.CheckToastedAttribute | contrib/amcheck/verify_heapam.c:1764-1814 | Nothing is reported if and only if the chunks are numbered from 0 to the last one, in order, with the right sizes. |
| HeapToast.CheckValue | contrib/amcheck/verify_heapam.c:1764-1814 | The same from a fresh state. |
| HeapToast.CompleteAddsUp | contrib/amcheck/verify_heapam.c:1458-1541 | The sizes of such chunks add up to the external size; zero counts as 2^32. |
| HeapXid.WidenInvertsTruncate | contrib/amcheck/verify_heapam.c:1881-1917 | Widening inverts truncation for every normal id within 2^31 of the next one, and never clamps it. |
| HeapXid.WidenIsNear | contrib/amcheck/verify_heapam.c:1881-1917 | For every next id: the result is the near id that truncates to the given one, and the clamp exactly when there is none. |
| HeapXid.HeapCheckContext.UpdateCachedXidRange | contrib/amcheck/verify_heapam.c:1923-1934 | The cached range is read anew and widened. |
| HeapXid.HeapCheckContext.GetXidStatus | contrib/amcheck/verify_heapam.c:2015-2082 | The verdict for special and normal ids, against the cached range or the refreshed one: in bounds means that the widened id lies in the range and is not before the relation limit; the status with its cache. |
| HeapXid.InBoundsIsRealIff | contrib/amcheck/verify_heapam.c:2015-2082 | Every id that counts as in bounds is a real one if and only if one of the limits is past the first normal id, or no id was given out yet, or at least 2^31 - 1 were. |
| HeapXid.ClampIsInBounds | contrib/amcheck/verify_heapam.c:1881-1917 | In every cluster that has just begun the largest 32-bit id, from before its time, is clamped into the bounds. |

## Left out

- NbtreeTheorems.IndexParentCheck: nothing is said of trees with deleted, half-dead or incompletely split pages.
- NbtreeCheck.BtreeCheckState.ChildHighkeyCheck: for incompletely split pages only the walk is stated, not the high keys.
- B-tree: checks that allow concurrent changes, search from the root, the heap-to-index fingerprint, indexes without the heap TID as a key attribute, and the sanity tests of line pointers and tuple sizes; a limit on the number of link steps stands for a walk without end.
- B-tree: lower bounds for leaves below downlinks without a key; the check does not establish them.
- BloomSignature.SetRandomBits: generator states that yield a negative position, where the shift in the code is undefined.
- BloomSignature.SignValue: values with one of the two hash values that lead to such a state.
- BloomSignature.FormSignature: rows with such a value.
- BloomSignature.FormScanSignature: scan keys with such a value.
- BloomSignature.BloomState.MatchingRowPasses: rows and scan keys with such a value.
- BloomRuns.ScanReturnsRow: rows and scan keys with such a value.
- CubeIndex.BoxDistance: the root of the Euclidean distance is not taken; floating point rounding, NaN and infinities are not modelled.
- CubeIndex.CoordinateValue: the negation of the smallest int32 is not modelled.
- BloomProtocol.Reachable: a step is atomic under its page lock; write-ahead logging, crash recovery and buffer pins are not modelled beyond an extension that is interrupted before its page is written.
- BloomRuns.VacuumIsThorough: inserts of pointers that are being vacuumed are excluded, as they are by the heap.
- HstoreAssign.Assign: the length checks of keys and values cannot fire for text values and are not modelled.
- HstoreUpgrade.Upgrade: little-endian layout of words and bit fields.
- HstoreSplit.PickSplit: which side the costs favour for an entry is not stated.
- CubeSplit.PickSplit: which entries the sizes favour is not stated, nor that the seeds waste most.
- HeapChain.CheckPage: the checks inside a tuple (header, visibility, attributes) are a parameter for each line pointer.
- HeapChain.PageCheck.CheckItem: likewise, whether these checks pass is part of the line pointer.
- HeapToast.ToastCheck.CheckToastedAttribute: how chunks are fetched; their order is as given.
- Penalty functions, options, text input and output, the per-type wrappers of btree_gist, multibyte text keys and the bit type.
- The other contrib modules are not modelled.
