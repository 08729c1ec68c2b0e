# Verified models of PostgreSQL index and buffer code

This project models, in Dafny, the parts of a PostgreSQL tree in which a data structure must agree
with a simple description of it, or in which the silence of a verification routine is supposed to mean something. It
proves the agreement for all inputs, all page graphs and all runs.

The parts, and their modules:

- **Bloom index access method** (`Bloom*`). `BloomGenerator`, `BloomWord` and `BloomSignature` are the
  signature arithmetic, down to the 16-bit words; `BloomPage` is a page with its in-place compaction.
  `BloomIndex` is a step system: any number of inserters and scanners and one VACUUM, one step per locked page
  update, with a free-space map that may offer any block at any time. `BloomRuns` has the invariant of
  every run, `BloomGuarantees` what scans and VACUUM achieve under every interleaving, and
  `BloomAccess` the entry points as loops over those steps.
- **B-tree verification** (`Btree*`). `BtreeSpec` states the readonly level check as functions of an
  arbitrary, possibly corrupt page graph; `BtreeCheck` is the imperative form, proved to compute them.
  `BtreeWalk`, `BtreeLockstep` and `BtreeComplete` say what acceptance of a level means, up to an
  if-and-only-if where the level below is settled: no live page of it is half-dead, in mid-split,
  flagged as root, linked on to a deleted page or named by a half-dead leaf as the top of a subtree
  being deleted, and no downlink of the level is zero or leads to a deleted page. Deleted pages that
  nothing leads to are no obstacle. `BtreeTree` draws the conclusions for the whole tree,
  `BtreeCycles` and `BtreeRounds` say when each loop of the check ends, and `BtreeGaps` holds the page
  graphs that acceptance does not rule out, and an ordinary one that it covers.
- **GiST indexes**. `GistIndex` follows an index of one column through every sequence of insertions,
  deletions and page splits, for any operator class that keeps three laws. The classes are truncated
  byte-string bounds (`Var*`) and n-dimensional boxes of mixed dimension (`Cube*`), with the functions
  that make their keys, test them and order by them.
- **hstore** (`Hstore*`): the entry formats over byte memory, the in-place upgrade of old values, and
  the builder with its final memmove.
- **Heap checks** (`Heap*`): transaction-id widening against a stale cache, TOAST chunk accounting,
  update-chain arrays.
- **Cross-type GIN range scans** (`GinRange`).
- **Buffer eviction** (`EvictionList`, `Sieve`, `Lru`, `Lfu`): the linked list in two integer arrays
  and the three policies over it.

Code that the source writes as loops over mutable state is a class or a method here, and its
contract ties it to a function or predicate about which the properties are proved.

## What does not hold, and exactly when it does

- `mySrand` is documented to leave a state in [1, 0x7ffffffe]. It leaves 0 for exactly two seeds
  (`ZeroSeeds`), a bit index is inside the signature exactly when the state is not 0
  (`BitFromInRangeIff`), and it is 0 for exactly two hash values of each column (`UnusableHashes`).
  For those the index drawn is -1, and setting that bit shifts by a negative amount, which C leaves
  undefined (blutils.c:27-29).
- The B-tree level walk does not end on a cycle through a half-dead page
  (`CycleThroughHalfDeadPage`): where the pages pass their checks, it goes round exactly if the page at
  which the cycle is entered is half-dead, or is the leftmost one and the cycle closes at its half-dead
  left neighbour, and above the leaf level the cycle's first live page passes once more
  (`LevelGoesRoundIff`). Going round is the same as being able to make any number of turns
  (`EndlessIff`). The search for a downlink on the child level does not end on a ring of
  unfinished splits (`ChildWalkThroughSplits`): it goes round exactly if the right links run into a
  cycle of pages that may all be stepped over (`ChildWalkGoesRoundIff`). Neither happens over a settled
  level when the level itself has no deleted or half-dead page (`CheckEnds`).
- A child right link equal to InvalidBlockNumber restarts the child chain
  (`InvalidLinkRestartsTheChain`): an accepted level's downlinks are the level below exactly if no
  child has such a link (`Lockstep`), which holds once the level below is accepted (`LockstepOfTwo`).
- Items can sit below the left parent's high key under a first downlink (`CousinItemsEscape`). That
  key is what the negative-infinity pivot of the downlink stands for, and the high key of the child to
  the left (`CousinsMeet`); the first child lies above it exactly if its first real item does
  (`FirstChildBoundIff`).
- `gbt_var_picksplit` cuts both halves at one length. On inner pages that can lose keys: seven edits
  after which a key in the index is not found (`InnerSplitLosesKey`). A half still covers all its keys exactly under `CutSafe`, a condition on the
  bytes of its entries (`SplitSoundIff`), which leaf entries always meet; it is still entered by every
  search that has a match below it exactly under the weaker `SearchSafe` (`SearchSoundIff`). So over
  byte strings the result of a search is exact in every life whose inner splits are safe, and in every
  other life it holds nothing that is wrong (`VarIndex.SearchFindsExactly`).
- Cube contained-by searches can miss a leaf when the query has an axis the leaf lacks and that axis
  leaves out zero (`ContainedByMisses`), and only then (`ContainedByIff`). All other cube searches are
  exact in every life (`CubeIndex.SearchFindsExactly`).
- Ordering by a cube coordinate negates a negative coordinate. For the least 32-bit integer that has no
  result, and the C code's answer is undefined (`GCubeDistance`).
- `cube_cmp_v0` has a cycle for any two different dimensions above zero (`CmpCycle`). It is a total
  order on the cubes of a set of dimensions exactly if no two of them are different and above zero
  (`TransitiveIff`).
- An accepted old hstore value below 32768 bytes is taken for a new one without further checks exactly
  if its first value is a null whose stored length is 32768 or more (`FastPathIff`), as in
  `FastPathMisreads`. Taken as new, no accepted old value keeps its meaning (`TakenAsNewIsMisread`),
  so the upgrade keeps it exactly if the value is not such a one and, where ambiguous values are
  resolved as new, is not acceptable as new too (`HStore.Upgrade`).
- Widening a 32-bit transaction id gives the id back exactly within 2^31 of the next id
  (`WidenIff`).
- A silent update-chain check does not rule out a two-tuple cycle (`CycleIsSilent`). Without
  intersections the chains of a page are disjoint paths and cycles (`PathsAndCycles`,
  `ChainsThatMeet`). Where no tuple was updated by a transaction before the one that inserted it, there
  is no cycle exactly if the versions that one transaction made can be numbered in the order of their
  commands (`LaterUpdatesMakeNoCycle`).
- `SieveGetBuffer` passes by a locked buffer header without counting down. It never returns if every
  queued header is locked, and only then (`SweepOutcome`).
- A comment in `LFUGetBuffer` calls its `min_freq` hint a lower bound. It stays one through an
  eviction exactly under `HintSafe` (`HintSurvivesIff`); otherwise free buffers can become invisible
  (`LostHintHidesFreeBuffer`).
- `SieveUnlinkAndAdvance`, evicting the newest buffer, moves the hand one place back, where its
  stand-alone copy in `sandbox/sieve_test.c` wraps to the oldest. The sweep goes on where it was
  exactly under the condition in `SweepGoesOnIff`. The model follows `freelist.c`.

## Model

| member | source | states |
|---|---|---|
| BloomGenerator.Schrage | contrib/bloom/blutils.c:227-252 | From every state a seed can leave, no intermediate value of the quotient-remainder form leaves int32, and the result is 16807 times the state modulo 2^31-1. |
| BloomGenerator.StepAvoidsZero | contrib/bloom/blutils.c:227-252 | A step yields zero from zero only; from any other seeded state it lands in [1, 0x7ffffffe]. |
| BloomGenerator.StaysInRange | contrib/bloom/blutils.c:227-252 | From a non-zero seeded state the generator stays in [1, 0x7ffffffe] for any number of steps. |
| BloomGenerator.ZeroSeeds | contrib/bloom/blutils.c:254-260 | Of all 2^32 seeds exactly 0xFFFFFFFF and 0x80000001 leave the state zero. |
| BloomGenerator.Generator.Rand | contrib/bloom/blutils.c:227-252 | The static state follows the congruence, and the output is never negative unless the state was zero. |
| BloomGenerator.Generator.Srand | contrib/bloom/blutils.c:254-260 | Any 32-bit seed leaves one of the states from which the step is exact. |
| BloomWord.SetWordBitSets | contrib/bloom/bloom.h:81-86 | OR-ing in a bit sets that bit and no other of the 16. |
| BloomWord.CoversIff | contrib/bloom/blscan.c:144-152 | The word test (t & q) == q holds exactly if every bit of the query word is set in the stored word. |
| BloomSignature.BitFromInRangeIff | contrib/bloom/blutils.c:287-292 | A drawn bit index lies inside the signature exactly if the seed is not zero, however many draws came before. |
| BloomSignature.UnusableHashes | contrib/bloom/blutils.c:265-293 | A value of a column seeds the generator with zero for exactly two hash values, given for each column. |
| BloomSignature.SignValue | contrib/bloom/blutils.c:265-293 | For every hash: the bits gained depend on hash, column and options alone and no bit is lost, or, exactly for a zero seed and at least one bit to set, the first shift is undefined. |
| BloomSignature.FormSignature | contrib/bloom/blutils.c:298-317 | A row's signature has exactly the bits that its non-null columns set, unless one of them is unusable. |
| BloomSignature.ScanSignature | contrib/bloom/blscan.c:85-111 | A scan signature has exactly the bits its keys set; the first key that is NULL or unusable decides otherwise. |
| BloomSignature.TestSignature | contrib/bloom/blscan.c:144-152 | The early-exit word loop decides whether every query bit is stored. |
| BloomSignature.MatchesIff | contrib/bloom/blscan.c:144-152 | The word-wise test is the bit-wise inclusion of signatures. |
| BloomSignature.NoFalseNegative | contrib/bloom/blscan.c:85-152 | A row whose columns equal all scan keys always passes the signature test. |
| BloomPage.CompactionConserves | contrib/bloom/blvacuum.c:77-132 | Survivors and dropped tuples together are the page's tuples, none lost or doubled. |
| BloomPage.CompactionSeparates | contrib/bloom/blvacuum.c:77-132 | What stays is exactly what is live, what goes exactly what is dead. |
| BloomPage.SlideSurvivors | contrib/bloom/blvacuum.c:77-104 | Two cursors over one array leave, in place, the order-preserving filter of the live tuples. |
| BloomPage.DataPage.AddItem | contrib/bloom/blutils.c:323-351 | A tuple is appended behind the others exactly if the free-space test leaves room, else nothing changes. |
| BloomPage.DataPage.Compact | contrib/bloom/blvacuum.c:77-132 | The page keeps its live tuples in order, reports exactly the number dropped, and is flagged deleted exactly if that emptied it. |
| BloomPage.EmptyPageHasRoom | contrib/bloom/bloom.h:149-152 | An empty page takes a tuple for every signature length that options allow. |
| BloomRuns.InitialInv | contrib/bloom/blutils.c:420-448 | A fresh index meets the run invariant. |
| BloomRuns.TryFirstInv | contrib/bloom/blinsert.c:207-252 | Inserting through a possibly stale first list entry keeps the run invariant. |
| BloomRuns.TryNextInv | contrib/bloom/blinsert.c:267-310 | Working through the not-full list under the metapage lock keeps the run invariant. |
| BloomRuns.RecycleInv | contrib/bloom/blutils.c:358-399 | Taking any block the free-space map may offer keeps the run invariant. |
| BloomRuns.VacuumPageInv | contrib/bloom/blvacuum.c:54-134 | Compacting one page amid other processes keeps the run invariant. |
| BloomRuns.VacuumMetaInv | contrib/bloom/blvacuum.c:136-153 | Replacing the not-full list keeps the run invariant. |
| BloomRuns.StepInv | contrib/bloom/blinsert.c:174-342 | Every enabled step of every process keeps the run invariant. |
| BloomRuns.RunInv | contrib/bloom/blinsert.c:207-341 | In every run: stored tuples are exactly inserted minus removed, live initialised pages are not empty, deleted and new pages are, and list bounds and entries are sound. |
| BloomGuarantees.StepRange | contrib/bloom/blvacuum.c:77-132 | On any range of pages, one step by anyone loses no more copies of a tuple than it removes and gains no more than it inserts. |
| BloomGuarantees.ScanReturns | contrib/bloom/blscan.c:113-165 | Under any interleaving a finished scan returned each matching copy it found at its start unless removed meanwhile, and nothing more often than it was stored. |
| BloomGuarantees.RowReturnedOnce | contrib/bloom/blscan.c:85-165 | A row stored once and left alone during a scan for its own values is returned exactly once, whatever others do. |
| BloomGuarantees.VacuumCompletes | contrib/bloom/blvacuum.c:53-134 | When VACUUM has passed its last page, no more copies of a dead tuple are stored than were inserted after it began, only dead tuples were removed, and the count is exact. |
| BloomGuarantees.NeverStuck | contrib/bloom/blinsert.c:207-341 | In every reachable state a process between its steps can take its next one unless another holds the metapage. |
| BloomGuarantees.ReinitialisingDropsNothing | contrib/bloom/blinsert.c:225-230 | A page that is reinitialised on the way to an insertion holds no tuple. |
| BloomAccess.Build | contrib/bloom/blinsert.c:121-159 | A build stores exactly the heap's tuples and reports their number. |
| BloomAccess.Relation.Insert | contrib/bloom/blinsert.c:174-342 | An insertion stores exactly one more copy of its tuple, wherever it ends up. |
| BloomAccess.Relation.BulkDelete | contrib/bloom/blvacuum.c:29-156 | An undisturbed VACUUM removes every copy of every dead tuple and no other, and counts them. |
| BloomAccess.Relation.GetBitmap | contrib/bloom/blscan.c:75-169 | An undisturbed scan returns each stored tuple that passes the test once per copy, and changes nothing. |
| BtreeCheck.BtreeCheckState.LeftmostIgnoringHalfDead | contrib/amcheck/verify_nbtree.c:1009-1061 | The loop decides whether only half-dead pages that link back lie to the left. |
| BtreeCheck.BtreeCheckState.DownlinkMissingCheck | contrib/amcheck/verify_nbtree.c:2556-2722 | The descent decides whether a page may lack a downlink: root, split sibling, or top of a subtree being deleted. |
| BtreeCheck.BtreeCheckState.ChildHighKeyCheck | contrib/amcheck/verify_nbtree.c:2144-2376 | The child walk from the previous right link to the downlink ends, fails or goes round as specified, and moves the remembered link only if it passes. |
| BtreeCheck.BtreeCheckState.CheckDownlink | contrib/amcheck/verify_nbtree.c:2391-2541 | A child passes exactly if the child walk does, it is not deleted, and its items lie above the pivot. |
| BtreeCheck.BtreeCheckState.RightPageOrder | contrib/amcheck/verify_nbtree.c:1864-2065 | The last item is compared with the first of the nearest page to the right that counts. |
| BtreeCheck.BtreeCheckState.TargetPageCheck | contrib/amcheck/verify_nbtree.c:1238-1844 | The item loop gives the specified verdict and child state for any page. |
| BtreeCheck.BtreeCheckState.CheckLevelFromLeftmost | contrib/amcheck/verify_nbtree.c:623-848 | The level loop gives the specified outcome for any page graph, endless walks included. |
| BtreeCheck.BtreeCheckState.CheckEveryLevel | contrib/amcheck/verify_nbtree.c:519-538 | The loop over levels gives the specified outcome for any root block and level. |
| BtreeWalk.LeftmostEnds | contrib/amcheck/verify_nbtree.c:1009-1061 | Looking left past half-dead pages ends on every page graph. |
| BtreeWalk.LeftmostIff | contrib/amcheck/verify_nbtree.c:1009-1061 | The test succeeds exactly if a run of half-dead pages, each linked both ways to the next, leads left to a page without a left link. |
| BtreeWalk.LevelWalkStops | contrib/amcheck/verify_nbtree.c:650-835 | Where the chain has no half-dead page, the back-link check catches every cycle: the level walk leaves no page twice. |
| BtreeWalk.AcceptedLevelIsList | contrib/amcheck/verify_nbtree.c:1098-1106 | An accepted level without half-dead pages is a doubly linked list from a left end to a rightmost page, each page once, all on the level claimed. |
| BtreeWalk.AcceptedLevelIsSorted | contrib/amcheck/verify_nbtree.c:1601-1722 | All real items of an accepted level without half-dead or empty pages, left to right, are strictly increasing. |
| BtreeWalk.AcceptedItemOrder | contrib/amcheck/verify_nbtree.c:1601-1722 | Every real item of an accepted level is in order on its page and within its high key. |
| BtreeLockstep.Lockstep | contrib/amcheck/verify_nbtree.c:2144-2376 | The downlinks of an accepted level are live pages one level down, each where the link before it leads or, behind an invalid link, a new left end; they are exactly the chain of the level below if and only if no link is invalid. |
| BtreeLockstep.LockstepOfTwo | contrib/amcheck/verify_nbtree.c:2144-2376 | With the level below accepted too, the downlinks in order are exactly its pages, each once. |
| BtreeLockstep.SeparatorsMatch | contrib/amcheck/verify_nbtree.c:1826-1843 | Each child's high key is the pivot after its downlink or the parent's high key, and its items lie above its own pivot. |
| BtreeLockstep.KeySpace | contrib/amcheck/verify_nbtree.c:1238-1844 | With two neighbouring levels accepted, every item lies between the pivots around its page's downlink, a first downlink having no lower one. |
| BtreeLockstep.CousinsMeet | contrib/amcheck/verify_nbtree.c:2144-2376 | The last child of one page and the first child of the next are neighbours, and the high key between them is the first page's high key. |
| BtreeLockstep.FirstChildBoundIff | contrib/amcheck/verify_nbtree.c:2998-3006 | The first child of a page lies wholly above the left parent's high key, which stands for the pivot of the negative-infinity downlink, exactly if its first real item does. |
| BtreeComplete.AcceptedIffHealthy | contrib/amcheck/verify_nbtree.c:623-848 | Over a settled level: a level is accepted and has no half-dead page exactly if it is a well-linked list of ordered pages, in order across pages, whose downlinks and separators agree with the level below. |
| BtreeComplete.HealthyIsAccepted | contrib/amcheck/verify_nbtree.c:623-848 | No false alarm: any healthy level over a settled one passes every check. |
| BtreeTree.CheckTreeIff | contrib/amcheck/verify_nbtree.c:519-538 | The check of an index reports nothing exactly if it is empty or there are levels, each accepted and leading to the next, down to one with nothing below. |
| BtreeTree.EndsAtTheLeaves | contrib/amcheck/verify_nbtree.c:519-538 | If nothing is reported and no checked level is in mid-split or mid-deletion, there are as many accepted levels as the root's level says, and the last one is the leaf level. |
| BtreeTree.DownlinksReachTheLeaves | contrib/amcheck/verify_nbtree.c:519-538 | Then following downlinks from the root level all the way down gives exactly the leaf level, a doubly linked list, each page once. |
| BtreeTree.AncestorsBound | contrib/amcheck/verify_nbtree.c:2391-2541 | Then every item is at most the pivot that follows any downlink it was reached through, at any distance, and above that downlink's pivot if no place on the way is a negative-infinity item. |
| BtreeCycles.CheckEnds | contrib/amcheck/verify_nbtree.c:623-848 | A level without deleted or half-dead pages over a settled one is always accepted or rejected: no loop goes on for ever. |
| BtreeCycles.ChildWalkGoesRoundIff | contrib/amcheck/verify_nbtree.c:2144-2376 | The child walk never ends exactly if the right links from its start run into a cycle, the start not on it, of pages that are each ignorable, a root, behind an unfinished split or the top of a deletion, and keyed as required. |
| BtreeCycles.RightWalkGoesRoundIff | contrib/amcheck/verify_nbtree.c:1864-2065 | The search for a page to the right never ends exactly if the right links run into a cycle, all over deleted and half-dead pages. |
| BtreeRounds.EndlessIff | contrib/amcheck/verify_nbtree.c:650-835 | On every level the walk is found endless exactly if the level loop can make any number of turns. |
| BtreeRounds.LevelGoesRoundIff | contrib/amcheck/verify_nbtree.c:650-835 | That is exactly if it passes over distinct pages back to one of them, at least one in between; that page is half-dead, or is the first one reached again from its half-dead left neighbour; and, above the leaf level, the cycle's first live page passes its checks with the child state the cycle's last live page leaves. |
| BtreeRounds.SecondLapCloses | contrib/amcheck/verify_nbtree.c:650-835 | Whatever was remembered on entering a cycle, a second lap ends in the state in which it began. |
| BtreeGaps.CycleThroughHalfDeadPage | contrib/amcheck/verify_nbtree.c:650-835 | A two-page ring through a half-dead page makes the level walk endless. |
| BtreeGaps.ChildWalkThroughSplits | contrib/amcheck/verify_nbtree.c:2144-2376 | A root over leaves in mid-split, linked in a ring, whose check never ends. |
| BtreeGaps.OrdinaryTree | contrib/amcheck/verify_nbtree.c:519-538 | A root-flagged root over two leaves, with an unlinked deleted page beside them, meets every hypothesis of the tree results. |
| BtreeGaps.InvalidLinkRestartsTheChain | contrib/amcheck/verify_nbtree.c:2144-2376 | A level is accepted although a child does not link to the next one. |
| BtreeGaps.CousinItemsEscape | contrib/amcheck/verify_nbtree.c:2998-3006 | Both levels are accepted although an item under a first downlink lies below the left parent's high key. |
| VarBytes.CommonPrefixLength | contrib/btree_gist/btree_utils_var.c:122-172 | The loop computes the longest common prefix. |
| VarKeys.WideningCovers | contrib/btree_gist/btree_utils_var.c:242-287 | Widening a node's bounds keeps every key it covered, truncated bounds included. |
| VarKeys.CutCovers | contrib/btree_gist/btree_utils_var.c:213-238 | Truncating two bytes past the common prefix keeps every key covered. |
| VarKeys.UnionCovers | contrib/btree_gist/btree_utils_var.c:331-367 | A union covers whatever any of its entries covers, at any depth. |
| VarKeys.SplitSoundIff | contrib/btree_gist/btree_utils_var.c:523-554 | A half cut at the shared length covers all its entries covered exactly if the cut is safe on the entries' bytes. |
| VarKeys.UnsafeCutLosesKey | contrib/btree_gist/btree_utils_var.c:523-554 | For every entry an unsafe cut affects there is a key under it that the half no longer covers. |
| VarKeys.LeafCutIsSafe | contrib/btree_gist/btree_utils_var.c:523-554 | Any cut is safe when the entries are leaf keys. |
| VarKeys.OwnCutIsSafe | contrib/btree_gist/btree_utils_var.c:547-554 | The half whose common prefix set the cut is always safe. |
| VarKeys.UnionEntries | contrib/btree_gist/btree_utils_var.c:331-367 | The loop computes the truncated join of all entries. |
| VarKeys.PickSplit | contrib/btree_gist/btree_utils_var.c:467-557 | The entries that sort first go left, the others right, each half gets the join of its entries, and both are cut at the longer common prefix plus two. |
| VarSearch.CoveredIsConsistent | contrib/btree_gist/btree_utils_var.c:563-622 | The inner test accepts every node that covers a matching key, for all six strategies. |
| VarSearch.SearchSoundIff | contrib/btree_gist/btree_utils_var.c:523-554 | A half cut at the shared length is entered for every query that a key under it satisfies exactly if, for each entry, no key is lost or the half's lower bound is a prefix of the entry's upper bound. |
| VarSearch.UnsafeYetSearchable | contrib/btree_gist/btree_utils_var.c:523-554 | A half that no longer covers all its keys and is entered for every one of them. |
| GistIndex.EditAccounts | src/backend/access/gist/gist.c:639-860 | Insertions, deletions, removals of empty pages and splits of any page, by any lawful operator class, change the values held by just their own value. |
| GistIndex.EditKeepsSound | src/backend/access/gist/gist.c:639-860 | Unless it is an unsafe split, an edit keeps every downlink's key, at every depth, covering the values below it. |
| GistIndex.LifeAccounts | src/backend/access/gist/gist.c:639-860 | At every moment of every life, unsafe splits included, an index holds exactly what was added and not deleted. |
| GistIndex.LifeIsSound | src/backend/access/gist/gist.c:639-860 | At every moment of every life without unsafe splits every downlink's key covers the values below it. |
| GistIndex.SearchIsFilter | src/backend/access/gist/gistget.c:329-470 | In any tree whose downlink keys cover what is below them, if no key that covers a match is rejected, the pruned search returns exactly the matching values, in order. |
| GistIndex.SearchFindsOnly | src/backend/access/gist/gistget.c:329-470 | At every moment of every life a search returns nothing that does not match and nothing more often than it is there. |
| GistIndex.SearchFindsExactly | src/backend/access/gist/gistget.c:329-470 | In every life without unsafe splits, a search whose inner test rejects no key covering a match returns each match exactly as often as it is there. |
| VarIndex.UnionIsSound | src/backend/access/gist/gistbuild.c:520-540 | A downlink made by union over a page covers every leaf key below it. |
| VarIndex.AdjustedCovers | src/backend/access/gist/gistutil.c:316-365 | An adjusted downlink key covers what it covered and the new key. |
| VarIndex.SplitIsSound | src/backend/access/gist/gist.c:1450-1540 | Both downlinks of a safe split cover the leaf keys of their halves. |
| VarIndex.LeafPageSplitsSafely | contrib/btree_gist/btree_utils_var.c:523-554 | A split of a page of indexed keys is safe, in any order its sort may give. |
| VarIndex.ByteClassIsLawful | contrib/btree_gist/btree_utils_var.c:331-557 | Adjusting and splitting byte-string keys keeps the three laws of an operator class. |
| VarIndex.SearchFindsExactly | contrib/btree_gist/btree_utils_var.c:563-622 | At every moment of every life every search returns only keys in the index that satisfy it, none more often than it is there; and all of them, as often as they are there, in every life whose inner splits were safe. |
| VarLoss.InnerSplitLosesKey | contrib/btree_gist/btree_utils_var.c:523-554 | A life of seven edits, the last an unsafe inner split, after which an equality search does not find a key of the index. |
| CubeBox.UnionIsJoin | contrib/cube/cube.c:752-810 | The union encloses both boxes, with missing axes read as zero, and every box that encloses both encloses it. |
| CubeBox.InterExtent | contrib/cube/cube.c:827-901 | The intersection is, on each axis, the overlap or the gap of the two extents. |
| CubeBox.CubeUnion | contrib/cube/cube.c:752-810 | The two fill loops compute the union for either order of arguments, and return an object united with itself unchanged. |
| CubeBox.CubeInter | contrib/cube/cube.c:827-901 | The two fill loops compute the intersection for either order of arguments. |
| CubeBox.CubeIsPoint | contrib/cube/cube.c:1534-1555 | Decides whether the corners coincide on every axis, flagged or not. |
| CubeBox.CubeContains | contrib/cube/cube.c:1128-1164 | Decides containment on the second box's axes, missing axes of the first read as zero. |
| CubeBox.CubeOverlap | contrib/cube/cube.c:1198-1234 | Decides overlap on all axes of either box, missing ones read as zero. |
| CubeOrder.CmpZeroIff | contrib/cube/cube.c:941-1019 | Comparison yields zero exactly for boxes of equal dimension and extents, whatever the corner order. |
| CubeOrder.CmpAntisymmetric | contrib/cube/cube.c:941-1019 | Swapping the arguments negates the result, across dimensions too. |
| CubeOrder.CmpTransitive | contrib/cube/cube.c:941-1019 | Among cubes of one dimension and of dimension zero the comparison is transitive. |
| CubeOrder.CmpCycle | contrib/cube/cube.c:941-1019 | For any two different dimensions above zero, three cubes that compare in a cycle. |
| CubeOrder.TransitiveIff | contrib/cube/cube.c:941-1019 | The comparison is transitive on the cubes of a set of dimensions exactly if no two of these are different and above zero. |
| CubeOrder.CubeCmp | contrib/cube/cube.c:941-1019 | The six loops compute the comparison. |
| CubeSearch.GCubeConsistent | contrib/cube/cube.c:394-421 | Leaf and inner entries get the test of their kind for each strategy. |
| CubeSearch.NeverPruned | contrib/cube/cube.c:683-737 | A matching leaf passes the inner test at every box that encloses it, for overlap, same, contains, and contained-by under its condition. |
| CubeSearch.ContainedByIff | contrib/cube/cube.c:683-737 | A contained leaf passes at every enclosing box exactly if the query's extra axes include zero. |
| CubeIndex.SplitPage | src/backend/access/gist/gist.c:1450-1540 | Every page of two or more entries can be split, with the seeds, lists and boxes of g_cube_picksplit. |
| CubeIndex.CubeClassIsLawful | contrib/cube/cube.c:429-660 | Adjusting and splitting boxes keeps the three laws of an operator class, and every split is safe. |
| CubeIndex.BoxesEnclose | contrib/cube/cube.c:429-660 | At every moment of every life every box, at every depth, encloses all cubes below it. |
| CubeIndex.SearchFindsExactly | contrib/cube/cube.c:394-421 | At every moment of every life a search returns each cube that is in the index and matches, as often as it is there, and nothing else; for contained-by, all of them if the query's axes beyond those of each match include zero, and never anything wrong. |
| CubeIndex.ContainedByMisses | contrib/cube/cube.c:683-737 | A life of three edits after which a contained cube of the index is not found. |
| CubeDistance.Distance1DIsGap | contrib/cube/cube.c:1507-1520 | The one-axis distance is the gap between the extents, zero when they meet, for corners in any order. |
| CubeDistance.DistanceBound | contrib/cube/cube.c:1257-1400 | All three distances to an enclosing box are at most those to the box inside, mixed dimensions included. |
| CubeDistance.RootBound | contrib/cube/cube.c:1257-1400 | So are the distances themselves, the Euclidean one being the square root. |
| CubeDistance.DistanceZeroIff | contrib/cube/cube.c:1257-1400 | A distance is zero exactly if the boxes overlap. |
| CubeDistance.CoordBound | contrib/cube/cube.c:1402-1505 | For every signed coordinate the inner value is at most the leaf value. |
| CubeDistance.IndexBound | contrib/cube/cube.c:1402-1505 | At every moment of every life, on every page, the ordering value of a downlink is at most that of any cube below it, for the three distances and every coordinate, and the zero-coordinate error agrees. |
| CubeDistance.CubeDistance | contrib/cube/cube.c:1257-1400 | The accumulating loops, and for the Euclidean metric the square root, compute the distance for either order of arguments. |
| CubeDistance.CoordDistance | contrib/cube/cube.c:1408-1470 | For every signed 32-bit coordinate but zero and the least one the branches yield the extent asked for, or at an inner entry the least possible value. |
| CubeDistance.GCubeDistance | contrib/cube/cube.c:1402-1505 | Each ordering operator yields its value, the error for coordinate zero, or no defined result for the least coordinate. |
| CubeSplit.GCubeUnion | contrib/cube/cube.c:429-456 | The result is the least box that encloses all entries; a one-entry vector gives a null pointer. |
| CubeSplit.RtCubeSize | contrib/cube/cube.c:914-937 | The size is the product of the extents, zero for points and for no axes. |
| CubeSplit.PickSeeds | contrib/cube/cube.c:546-582 | The seeds are the first pair of greatest waste among all but the last entry. |
| CubeSplit.Distribute | contrib/cube/cube.c:584-657 | For any seeds: two ascending lists that divide all offsets, each entry where its box had to grow less given those before it. |
| CubeSplit.GCubePickSplit | contrib/cube/cube.c:515-660 | Both lists are non-empty, ascending, disjoint and complete, and each box is the least one that encloses its side. |
| HstoreMemory.StoreThenLoad | contrib/hstore/hstore.h:99-124 | A 32-bit store into byte memory is read back, and changes no other word or byte. |
| HstoreMemory.MoveDown | contrib/hstore/hstore.h:128-140 | The overlapping move delivers the source bytes as they were and spares everything before its target. |
| HstoreFormat.UpgradePreserves | contrib/hstore/hstore_compat.c:318-343 | Renewed entries read as the same keys, values and null flags, in nondecreasing positions, with the same string length. |
| HstoreUpgrade.EncodeReads | contrib/hstore/hstore.h:23-34 | A position below 2^30 and the two flags survive being packed into an entry word. |
| HstoreUpgrade.RenewedWordsRead | contrib/hstore/hstore_compat.c:318-343 | The words the upgrade writes decode to the renewed entries. |
| HstoreUpgrade.OldAcceptedIsReadable | contrib/hstore/hstore_compat.c:173-228 | What the old-format test accepts, an old-format reader can read within memory. |
| HstoreUpgrade.NewAcceptedIsReadable | contrib/hstore/hstore_compat.c:121-165 | What the new-format test accepts, a new-format reader can read within memory. |
| HstoreUpgrade.FastPathIff | contrib/hstore/hstore_compat.c:249-255 | An accepted old value takes the unchecked path exactly if it is short and starts with a null of stored length 32768 or more. |
| HstoreUpgrade.FastPathMisreads | contrib/hstore/hstore_compat.c:249-255 | An accepted old value that the upgrade takes as new, and whose null so becomes an empty string. |
| HstoreUpgrade.TakenAsNewIsMisread | contrib/hstore/hstore_compat.c:249-300 | No accepted old value with entries means the same when its memory is taken as new. |
| HstoreUpgrade.DecisionOnOld | contrib/hstore/hstore_compat.c:234-312 | An accepted old value is taken as new exactly if it is short and starts with a long null, or is acceptable as new and so resolved; else it is rewritten. |
| HstoreUpgrade.HStore.ValidNewFormat | contrib/hstore/hstore_compat.c:121-165 | The loops give the specified 0, 1 or 2 for any memory. |
| HstoreUpgrade.HStore.ValidOldFormat | contrib/hstore/hstore_compat.c:173-228 | The loops give the specified 0, 1 or 2 for any memory. |
| HstoreUpgrade.HStore.RewriteEntries | contrib/hstore/hstore_compat.c:318-340 | Overwriting entries in the memory they are read from renews each one and leaves the strings alone. |
| HstoreUpgrade.HStore.UpgradeOld | contrib/hstore/hstore_compat.c:314-343 | After the upgrade of any accepted old value a new-format reader sees its items, and the size is exact. |
| HstoreUpgrade.HStore.Upgrade | contrib/hstore/hstore_compat.c:234-346 | Every value is kept, taken as new, rewritten or refused, as the decision function says, and an accepted old value keeps its meaning exactly if it is not one of those taken as new. |
| HstoreBuilder.FinishedReads | contrib/hstore/hstore.h:75-83 | Reading the entries and strings of a finished value gives back the items stored, in order. |
| HstoreBuilder.Builder.AddItem | contrib/hstore/hstore.h:112-126 | The builder holds one more item; a null's value is not stored. |
| HstoreBuilder.Builder.CopyItem | contrib/hstore/hstore.h:99-106 | The builder holds one more item cut from contiguous bytes. |
| HstoreBuilder.Builder.Finalize | contrib/hstore/hstore.h:128-140 | After any additions a reader sees exactly those items, also when strings slide over reserved entries, and the size is exact. |
| HstoreBuilder.HstorePairs | contrib/hstore/hstore_io.c:448-475 | A value built from a list of pairs is read back as that list. |
| HeapXid.WidenIff | contrib/amcheck/verify_heapam.c:1976-2012 | Widening the low word of a normal 64-bit id returns the id exactly if it is within 2^31 of the next one, counting around the end. |
| HeapXid.WidenReads | contrib/amcheck/verify_heapam.c:1976-2012 | Any widened id is the first normal one or has the right low word within the window. |
| HeapXid.StaleCacheVerdict | contrib/amcheck/verify_heapam.c:2110-2145 | From a stale cache, "in future" is reported exactly for unassigned ids, and "precedes minimum" exactly for too-old ids the cache does not vouch for. |
| HeapXid.NoFalseAlarm | contrib/amcheck/verify_heapam.c:2127-2145 | Whatever a stale cache makes of an id, it is called unassigned or too old only if it is. |
| HeapXid.RunVerdict | contrib/amcheck/verify_heapam.c:2110-2145 | In every run of calls with growing counters each verdict is exact. |
| HeapXid.HeapCheckContext.UpdateCachedXidRange | contrib/amcheck/verify_heapam.c:2017-2030 | The cache becomes the shared range, its oldest id widened against its own next one. |
| HeapXid.HeapCheckContext.GetXidStatus | contrib/amcheck/verify_heapam.c:2110-2178 | Verdict, refreshed range, commit status and one-entry status cache are as specified for every id. |
| HeapToast.ShapeFits | contrib/amcheck/verify_heapam.c:1553-1560 | Chunk count and last-chunk size fit 32-bit integers and add up to the value's size. |
| HeapToast.SilentIff | contrib/amcheck/verify_heapam.c:1553-1637 | Nothing is reported exactly if the scan returned chunks 0 to last, in order, well formed and of the right sizes. |
| HeapToast.SilentSum | contrib/amcheck/verify_heapam.c:1859-1908 | Silence means the chunk sizes add up to the value's size. |
| HeapToast.ToastCheck.CheckToastTuple | contrib/amcheck/verify_heapam.c:1553-1637 | One chunk adds the specified reports and expectation, int32 wrap-around included. |
| HeapToast.ToastCheck.CheckToastedAttribute | contrib/amcheck/verify_heapam.c:1859-1908 | A scan adds exactly the specified reports. |
| HeapChain.PredecessorIsLeast | contrib/amcheck/verify_heapam.c:633-731 | The predecessor of a tuple is the least offset with a chain edge to it, and zero means there is none. |
| HeapChain.IntersectionReports | contrib/amcheck/verify_heapam.c:633-731 | Intersection reports number the edges in excess of distinct targets, and there are none exactly if chains do not meet. |
| HeapChain.PathsAndCycles | contrib/amcheck/verify_heapam.c:633-731 | Without intersections every chain ends, or comes back to where it started. |
| HeapChain.ChainsThatMeet | contrib/amcheck/verify_heapam.c:633-731 | Without intersections, chains that meet are one chain. |
| HeapChain.AbortedStaysAborted | contrib/amcheck/verify_heapam.c:783-803 | Without intersections and status reports, nothing but aborted follows an aborted tuple along a chain of tuples of known fate. |
| HeapChain.LaterUpdatesMakeNoCycle | contrib/amcheck/verify_heapam.c:633-731 | If in some order of transactions no tuple was updated by an earlier one than inserted it, there is no cycle exactly if the versions made by one transaction can be numbered so that each update comes after what it replaces. |
| HeapChain.CycleIsSilent | contrib/amcheck/verify_heapam.c:633-834 | Two tuples of committed transactions that claim to be each other's update draw no report from any of the three loops. |
| HeapChain.ChainCheck.CheckLinePointers | contrib/amcheck/verify_heapam.c:502-631 | The first loop fills successor and validity of every line pointer and reports the bad ones. |
| HeapChain.ChainCheck.CheckChains | contrib/amcheck/verify_heapam.c:633-803 | The second loop leaves the first claimant of every target in the array and reports late claims, flag mismatches and impossible commit statuses. |
| HeapChain.ChainCheck.CheckRoots | contrib/amcheck/verify_heapam.c:804-834 | A heap-only tuple whose transaction committed or is in progress is reported exactly if no line pointer leads to it. |
| GinRange.RangeScanIff | contrib/btree_gin/btree_gin.c:172-232 | For any operator and any entry, the scan equals the plain filter exactly if the entry leads to every match. |
| GinRange.ExtractQuery | contrib/btree_gin/btree_gin.c:66-147 | For every integer type and query value the extracted entry is of the indexed type and leads to every match in every key set; unknown strategies are refused. |
| GinRange.ClampLeads | contrib/btree_gin/btree_gin.c:295-313 | Clamping an out-of-range query value never skips a match. |
| GinRange.CollectMatches | src/backend/access/gin/ginget.c:120-200 | Following the -1, 0, 1 verdicts from the entry collects the specified keys. |
| GinRange.Search | contrib/btree_gin/btree_gin.c:66-232 | Over any sorted keys and any query value of the three types the result is the plain filter. |
| EvictionList.Links.constructor | src/backend/storage/buffer/freelist.c:395-423 | The cells start as the list of all buffers, oldest first. |
| EvictionList.Links.InList | src/backend/storage/buffer/freelist.c:732-735 | The cell test decides membership, the single-element list included. |
| EvictionList.Links.Unlink | src/backend/storage/buffer/freelist.c:690-712 | Taking a buffer out leaves the cells of the list without it. |
| EvictionList.Links.PushHead | src/backend/storage/buffer/freelist.c:714-729 | The cells become those of the list with the buffer as newest. |
| Sieve.SweepFails | src/backend/storage/buffer/freelist.c:517-590 | With every buffer pinned or locked, but not every header locked, the countdown runs out and nothing is changed. |
| Sieve.SweepFinds | src/backend/storage/buffer/freelist.c:517-590 | With any buffer neither pinned nor locked, the wrapping sweep with its reset countdown ends at the first such unvisited buffer from the hand, or the first such one if all are visited. |
| Sieve.SweepOutcome | src/backend/storage/buffer/freelist.c:517-590 | The sweep finds a victim exactly if some buffer is neither pinned nor locked, and never ends exactly if every header is locked. |
| Sieve.SecondChance | src/backend/storage/buffer/freelist.c:517-590 | A visited buffer is evicted only if every buffer neither pinned nor locked is visited. |
| Sieve.SweepGoesOnIff | src/backend/storage/buffer/freelist.c:441-471 | After an eviction the sweep goes on where it was exactly if the victim was not the newest of three or more. |
| Sieve.SievePolicy.AdvanceHand | src/backend/storage/buffer/freelist.c:426-438 | The hand moves one place round the queue. |
| Sieve.SievePolicy.UnlinkAndAdvance | src/backend/storage/buffer/freelist.c:441-471 | The queue loses the buffer and a hand on it moves as specified. |
| Sieve.SievePolicy.NotifyInsert | src/backend/storage/buffer/freelist.c:474-503 | A loaded buffer becomes the newest, present before or not. |
| Sieve.SievePolicy.GetBuffer | src/backend/storage/buffer/freelist.c:517-590 | It has a victim exactly if some queued buffer is neither pinned nor locked, spins exactly if all headers are locked, and else fails; the specified victim is pinned and unlinked, and exactly the buffers passed over lose their visited mark. |
| Lru.LruPolicy.NotifyHit | src/backend/storage/buffer/freelist.c:741-756 | A hit on a queued buffer makes it the most recent; any other hit changes nothing. |
| Lru.LruPolicy.NotifyInsert | src/backend/storage/buffer/freelist.c:758-773 | A loaded buffer becomes the most recent. |
| Lru.LruPolicy.NotifyInvalidate | src/backend/storage/buffer/freelist.c:775-787 | An invalidated buffer leaves the queue and the order of the others. |
| Lru.LruPolicy.GetBuffer | src/backend/storage/buffer/freelist.c:627-686 | It fails exactly if every queued buffer is pinned; else the victim is the unpinned buffer used least recently. |
| Lfu.HintSurvivesIff | src/backend/storage/buffer/freelist.c:965-1026 | The frequency hint is a lower bound after an eviction exactly if no bucket with buffers left behind was followed by an empty one. |
| Lfu.NothingPinnedIsSafe | src/backend/storage/buffer/freelist.c:965-1026 | With no buffer pinned every eviction keeps the hint a lower bound. |
| Lfu.LostHintHidesFreeBuffer | src/backend/storage/buffer/freelist.c:965-1026 | After one failed search of a pinned buffer, the next search fails although the buffer is free. |
| Lfu.LeastFrequentGoes | src/backend/storage/buffer/freelist.c:965-1026 | While the hint holds, the victim's frequency is at most that of any unpinned buffer. |
| Lfu.LfuPolicy.constructor | src/backend/storage/buffer/freelist.c:807-846 | All buffers start unpinned in the first bucket, and the hint holds. |
| Lfu.LfuPolicy.NotifyInsert | src/backend/storage/buffer/freelist.c:894-909 | A loaded buffer has frequency one, and the hint holds whatever it was. |
| Lfu.LfuPolicy.NotifyHit | src/backend/storage/buffer/freelist.c:911-939 | A hit moves a buffer one frequency up, saturating, to the recent end of its bucket, and keeps the hint valid. |
| Lfu.LfuPolicy.NotifyInvalidate | src/backend/storage/buffer/freelist.c:941-956 | An invalidated buffer leaves its bucket, and the hint stays valid. |
| Lfu.LfuPolicy.GetBuffer | src/backend/storage/buffer/freelist.c:965-1026 | The victim is the least recent unpinned buffer of the first bucket from the hint on that has one, and buckets, hint and pin are left as specified. |

## Left out

- B-tree checks outside readonly mode, heapallindexed and unique checks, posting lists and root descents.
- BtreeSpec abstracts key comparison to integers, as a strict total order, and leaves out tuple size and line-pointer checks.
- BtreeLockstep.Lockstep and what builds on it: requires a settled level below and no half-dead page on the level, because the check steps over pages in mid-split or mid-deletion.
- BloomSignature.SignValue: what a machine makes of the undefined shift is not modelled; the model stops there.
- BloomGuarantees.RowReturnedOnce: a row or query with an unusable hash value has no signature here, so nothing is said about it.
- Bloom index page locks are taken as atomic page updates; the free-space map is any block at any time; WAL, memory contexts and relation options are not modelled.
- VarKeys.PickSplit: the sort is the library's; any order it may produce is a parameter.
- GistIndex.EditKeepsSound: indexes of one column; an insertion may go to any page, since the choice by penalty is not modelled, and a split makes two pages, a further one being a further edit. Concurrent insertions are not modelled.
- VarLoss.InnerSplitLosesKey: insertions go where the example needs them, whatever their penalty.
- CubeDistance.CubeDistance: the square root is a parameter that must be exact where it is used; coordinates are reals, so rounding, infinities and NaN are not modelled.
- CubeDistance.CoordDistance: does not cover the least 32-bit coordinate, whose negation overflows.
- CubeDistance.GCubeDistance: as for CubeDistance; what a machine makes of the least coordinate is not modelled.
- g_cube_penalty, the output and input functions and the coordinate accessors of cube.
- HstoreUpgrade.HStore.Upgrade: the entry array must lie in memory, since the C code reads it without a bounds check, and signed overflow of the running position, which the final size test subsumes, is not modelled; bit-fields are laid out as on a little-endian machine.
- HeapXid.HeapCheckContext.GetXidStatus: what the commit log and the running transactions say is a parameter.
- HeapToast takes TOAST_MAX_CHUNK_SIZE for 8 kB pages and keeps reports as a bag, not in order.
- HeapChain.ChainCheck.CheckChains: keeps reports apart by kind; the commit status of a tuple's xmin, and whether it is in progress when asked again, are part of the input.
- Multixact range checks, tuple header and attribute checks of verify_heapam.c.
- GinRange covers the integer types; float, date and text conversions are not modelled, though RangeScanIff states what any conversion must meet.
- Lfu.LfuPolicy.BucketUnlink and the other bucket operations: buckets are sequences, not cells linked in arrays as in EvictionList, so the array layout of LFU is not modelled.
- Sieve.SievePolicy.GetBuffer: a call is one atomic step, so a lost compare-and-swap race and its retry are not modelled.
- Lru.LruPolicy.GetBuffer: as for SIEVE; the wait for a locked buffer header is not modelled.
- Lfu.LfuPolicy.GetBuffer: as for SIEVE; a locked buffer header, which that code skips like a pinned one, counts as pinned.
- The clock sweep, buffer rings and shared-memory sizing of freelist.c.
