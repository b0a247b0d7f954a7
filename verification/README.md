# A model of the HFS+ write engine

This project models the part of a Go HFS+ driver that changes a volume: the generic B-tree engine behind the
catalog and the extents-overflow file, the node bitmap and the growth of a B-tree file, the block allocator,
the spill of long extent lists, reading and writing forks, and the catalog as the file operations change it.
It proves what each operation keeps, what it returns, and exactly when an invariant can be lost.

- **Trees.** `Nodes`, `Rows`, `Edits`, `Steps`, `Search`, `LeafEdits`, `Trees`, `Deletes`, `LeafChain`, `Chains`,
  `Descents`, `Fallback`, `Inserts`, `Rooms`, `Repairs`, `Mending` are the values: nodes in a map from node number to node, a tree as a
  list of *rows* (row 0 the root, the last row the leaves). A row is a doubly linked chain; the child pointers of a
  row, left to right, are the next row; and no stored key lies between an index key and the first key of the child it
  names (`Rows.Tight`). `NodePool` and `NodeFile` add the bitmap, its map nodes and growth; `BTreeWriter` is the
  engine, a class whose methods change the image step by step. An insertion always leaves the right leaf chain, and
  keeps the tree above it well formed *if and only if* no level of its descent falls back on a first child; a deletion
  does *if and only if* it does not empty a leaf that is its parent's only child. `Rooms` and `Mending` say, from the
  tree before the call, whether the nodes an operation stores have room: an insertion succeeds if they do and enough
  nodes are free, a deletion *if and only if* they do, with records of any size. `Limits` runs the operations into
  both exceptions, into a split whose halves do not fit, and into the other ways an invariant is lost.
- **Fixed sizes.** `FixedSizes` and `ExactKeys` prove that with the record sizes of the extents tree every split,
  merge, rotation and key refresh fits, every node but the root holds the minimum record count (half of what it can
  hold, rounded up), index keys stay exact, and the 64-level limit is never met: deletion always succeeds, insertion
  fails only for want of space.
- **Extents.** `ExtentsKeys` and `ExtentsWriter` carry the spill, its reversal after any history of growth, the
  search, and the deletion of a fork's records.
- **Blocks.** `Bitmap`, `Allocator`, `Owners`: first fit, the fragment fallback with its rollback, and the
  account of every block and every overflow record. `ForkIO` writes and reads byte streams over runs of blocks.
- **Catalog.** `Catalog` and `Volume` are the state machine of the file operations, and `Effects` what they do record
  by record; `NameOrder` and `CatalogReader` are key order, lookup and listing, `Listings` what a listing shows of a
  catalog; `FolderTree` is the tree the threads make. `NodeCodec` and
  `RecordCodec` are the bytes of nodes and records, `Mkfs` the state every run starts from.
- **The two trees of a volume.** `Volume` holds the catalog as a map and the overflow records as a sequence.
  `Coverage` and `CatalogWriter` say, for each key the file operations insert, whether the two trees take it: a new
  file's groups and every catalog record but the root folder's always go in without fallback; the growing catalog
  fork's groups and the root folder's record come first in their trees, and keep them well formed *if and only if* the
  tree is at most one leaf without the record they replace. `CatalogWriter` carries out a volume's insertion of an item
  on the tree and proves that it holds what the volume's map does.

Keys are integers in the tree model. `ExtentsKeys.RankOrder` and `NameOrder.CatalogRankOrder` prove that the two
key orders embed into them.

`dafny verify dfyconfig.toml` checks the project.

## Where code and comments disagree

- `btdelete.go:164-165` speaks of the donor's boundary record; `canSpare` measures the donor's *last* record before
  both rotations, although a rotation from the right moves the *first*. The model follows the code.
- `btdelete.go:205-208` propagates a changed key when the node is its parent's first child; a rotation from the left
  has a left sibling, so that branch is never taken and the model has none.
- `btgrow.go:66-73` calls the eight-node step a clump; the header's clump size plays no part in it.
- `catalog_search.go:15-20` describes a lower-casing of decoded names; the code folds code units by table
  (`catalog_search.go:57-75`). The model follows the code.
- `mkfs.go:260-262` says the root folder's thread sorts first; its key has parent 2, and the code rightly writes the
  folder's record first. The model follows the code.

## Model

| member | source | states |
|---|---|---|
| BTreeWriters.BTreeWriter.ChooseChild | btops.go:44-54 | the loop takes the last record whose key is not above the probe, or the first record |
| Search.DescentAround | btops.go:24-63 | along a descent without fallback the probe lies between neighbouring keys of every whole index row |
| Search.LeafAround | btops.go:24-63 | the leaf reached cuts the whole chain: smaller keys left of it, larger ones right |
| Search.FallbackAbsent | btops.go:52-54 | a descent that falls back is looking for a key the tree does not hold |
| BTreeWriters.BTreeWriter.Descend | btops.go:24-63 | on any whole tree of at most 64 levels it succeeds with a path from root to leaf that took the right turn at each level; deeper trees are refused |
| BTreeWriters.BTreeWriter.SearchPlace | btops.go:115-119 | binary search finds the lower bound of an ascending node |
| BTreeWriters.BTreeWriter.SplitNode | btops.go:124-158 | the image after a split of a leaf or index node: halves, four links, last leaf; with the right neighbour in place it succeeds exactly if both halves fit and a node is found, and a free node is |
| BTreeWriters.BTreeWriter.InsertRecord | btops.go:102-113 | the node's records are the old ones with the new one at its sorted place, in one node or split in two; whole if they fit, split if the halves do, refused as full otherwise |
| BTreeWriters.BTreeWriter.LinkInto | btops.go:160-181 | one level of propagation: the pending index record goes in, and the tree is whole again or pending one level up; what is left to do has room exactly if the insertion had |
| BTreeWriters.BTreeWriter.PropagateSplit | btops.go:160-182 | all cascading splits end in a whole tree with the same leaf sequence; a free node for each level is enough |
| BTreeWriters.BTreeWriter.GrowRoot | btops.go:222-245 | the new root's two records, the header's root and depth; succeeds exactly if the two records fit and a node is found |
| BTreeWriters.BTreeWriter.CompleteRoot | btops.go:222-245 | growing the root over a split root restores the whole-tree invariant |
| BTreeWriters.BTreeWriter.FirstLeaf | btops.go:68-83 | the first record makes a tree of one leaf, with header and record count |
| BTreeWriters.BTreeWriter.InsertIntoLeaf | btops.go:102-113 | the leaf sequence gains the record at its sorted place, and a split, if any, is pending |
| BTreeWriters.BTreeWriter.Insert | btops.go:67-100 | for an absent key: the leaf chain is always the old sequence with the record in its sorted place; the whole tree is well formed if and only if the descent did not fall back. Records of any size: it succeeds only if the leaf fits with the record, or the halves of every node that has to split and the new root do; full means they do not; out of space means fewer free nodes than it takes; where the leaf fits it succeeds; only a tree of more than 64 levels is refused otherwise. With fixed sizes it fails only for want of space |
| Rooms.DescentWay | btops.go:24-63 | the path of a descent is the one the index keys give, over nodes in ascending order |
| Rooms.Stepped | btops.go:102-182 | when a node has answered, the nodes above have room exactly if the insertion had, and take one node less |
| Rooms.RoomSwap | btops.go:102-182 | whether a record has room does not depend on the node it names or the bytes it holds |
| Inserts.SitedAfter | btops.go:102-158 | along any path of live nodes of a fixed-size tree, in order or not, an insertion keeps every size |
| LeafChain.DescentLands | btops.go:24-63 | with or without fallback, a descent for an absent key ends at the leaf of the chain where the key belongs |
| LeafChain.ChainLands | btops.go:102-158 | inserting there, and splitting the leaf, puts the record at its sorted place of the whole chain, links and last leaf included |
| LeafChain.ChainAside | btops.go:160-220 | whatever happens to an index node above leaves the chain as it was |
| Fallback.FallbackReaches | btops.go:52-54 | a fallback anywhere on the descent ends at a leaf whose index key and first key are both above the new key |
| Fallback.UndercutIsBad | btops.go:165-168 | no drawing of rows makes a tree well formed that holds an index key above its child's first key |
| Fallback.UndercutAfter | btops.go:184-220 | splits on the way up keep such an index record in the tree |
| Limits.InsertBelowAll | btops.go:52-54 | an insertion below every key of an eight-record extents tree succeeds: right chain, no longer well formed |
| Limits.ReplaceSmallest | extwrite.go:121-130 | the smallest of eight extents records is replaced by itself: right chain, no longer well formed |
| Limits.Stranded | btdelete.go:148-149 | a file with a well-formed three-level tree of long records, every node fitting and none underflowing, on which a deletion strands a leaf |
| Limits.LongSizes | btdelete.go:89-94 | those records: one is enough for a node not to underflow, two are too much for a leaf |
| Limits.DeleteStranded | btdelete.go:148-149 | that deletion succeeds: right sequence, no longer well formed |
| Limits.HalvesTooBig | btops.go:129-141 | records of the catalog's sizes that fit a node until one more splits them by count into a half that does not fit |
| Limits.LastFolder | write.go:94-101 | the folder made with the last CNID leaves the counter at 0 and the volume out of order |
| Descents.CoveredByKeys | btops.go:44-54 | with exact keys a descent falls back exactly when the key is below every stored key |
| BTreeWriters.BTreeWriter.AdmitsIsCovers | btops.go:44-54 | with exact keys a caller can tell before inserting: the tree is at most one leaf, or the key is not below the smallest |
| Steps.SplitStep | btops.go:124-158 | splitting a node of any row keeps every level, separator and link, with one child not yet indexed |
| Steps.LinkStep | btops.go:160-170 | inserting the pending child's index record after its left neighbour's makes the tree whole |
| Steps.GrowStep | btops.go:222-245 | a new root over a split root keeps the structural invariant, one row higher |
| LeafEdits.LeafInsert | btops.go:102-122 | inserting into the leaf a descent reaches keeps every separator tight and inserts into the whole sequence |
| LeafEdits.LeafDelete | btdelete.go:36-50 | taking a record out of a leaf keeps the structure and removes it from the whole sequence |
| Steps.FoldStep | btdelete.go:235-260 | merging two neighbours of a row keeps the row's records, links and every separator |
| Steps.ShiftStep | btdelete.go:184-230 | moving records between neighbours keeps the row's records and every separator |
| Steps.UnlinkStep | btdelete.go:261-262 | removing an index record leaves exactly its child pending |
| Steps.RefreshStep | btdelete.go:282-306 | an index key replaced by its child's first key keeps the tree whole |
| Steps.ShrinkStep | btdelete.go:315-337 | dropping a root with one child keeps the tree whole |
| Deletes.MergeGives | btdelete.go:235-267 | the whole effect of a merge on parent, siblings and chain keeps the tree whole and its sequence unchanged |
| Deletes.RotateGives | btdelete.go:184-230 | so does a rotation in either direction |
| Deletes.StrandingHere | btdelete.go:99-150 | the record's leaf can be emptied without repair exactly when it holds one record and its parent one child |
| Deletes.LeafReached | btdelete.go:26-45 | the leaf the descent reaches holds the key if and only if the tree does |
| BTreeWriters.BTreeWriter.MeasureRecords | btwrite.go:256-262 | the loop sums the bytes a node's records take |
| BTreeWriters.BTreeWriter.CombinedFits | btdelete.go:153-162 | says whether both nodes' records fit one node |
| BTreeWriters.BTreeWriter.CanSpare | btdelete.go:166-180 | says whether the donor keeps a record and the receiver fits with the donor's last one |
| BTreeWriters.BTreeWriter.ChooseRepair | btdelete.go:119-149 | merging before rotating, left before right, each exactly when it fits |
| Repairs.RepairIsSound | btdelete.go:99-150 | every repair finds what it needs; an emptied node with a sibling is always merged |
| BTreeWriters.BTreeWriter.MergeNodes | btdelete.go:235-267 | the stores of a merge: the exact new image and header; succeeds exactly if both nodes' records fit one and the parent has room for the new key |
| BTreeWriters.BTreeWriter.RotateNodes | btdelete.go:184-230 | the stores of a rotation: the exact new image; succeeds exactly if both nodes fit and the parent has room for the new key |
| BTreeWriters.BTreeWriter.RotateFromLeft | btdelete.go:184-210 | the last record of the left sibling moves over; sequence, links and separators hold; succeeds exactly if the stores fit, as they do with fixed sizes |
| BTreeWriters.BTreeWriter.RotateFromRight | btdelete.go:214-230 | the first record of the right sibling moves over; same result |
| BTreeWriters.BTreeWriter.MergeAt | btdelete.go:235-277 | a merge and everything it sets off above leave a whole tree without empty leaves; succeeds exactly if every node it stores has room |
| BTreeWriters.BTreeWriter.UpdateParentKey | btdelete.go:282-310 | refreshing keys upward keeps the tree and its sequence; in a tree of exact keys it restores exactness; succeeds exactly if the nodes above have room for the key |
| BTreeWriters.BTreeWriter.MaybeShrinkRoot | btdelete.go:315-338 | afterwards an index root has at least two children; sequence unchanged |
| BTreeWriters.BTreeWriter.Rebalance | btdelete.go:99-150 | the whole cascade keeps the sequence and the structure and erases the nodes it frees; an empty leaf is left exactly when the emptied leaf had no sibling; succeeds exactly if every node it stores has room |
| BTreeWriters.BTreeWriter.RemoveFromLeaf | btdelete.go:46-50 | the sequence loses exactly the record, the record count follows |
| BTreeWriters.BTreeWriter.DropRootLeaf | btdelete.go:52-62 | the last record's leaf is freed and the header is that of an empty tree |
| BTreeWriters.BTreeWriter.DeleteByKey | btdelete.go:22-73 | the leaf sequence without exactly the matching record, untouched if absent; well formed afterwards if and only if no leaf was stranded; at most one leaf afterwards if and only if it was so before or two leaves under a root fold into one; no node is taken, nodes out of use are left alone, and every node given up is erased and counted as free. Records of any size: in a tree of at most 64 levels it succeeds if and only if the key is absent or every node it stores has room; so where the leaf stays half full and keeps its first key; with fixed sizes, or a stranded leaf, always |
| BTreeWriters.BTreeWriter.DeletionRoom | btdelete.go:29-72 | whether there is room can be told from the tree before the call, along the path of the descent; there is where the leaf stays half full and keeps its first key |
| BTreeWriters.BTreeWriter.NeverOneLeaf | btdelete.go:99-150 | a tree whose other records do not fit one node is not one leaf without a record |
| Repairs.LeavesFull | btdelete.go:148-149 | an empty leaf stays an empty leaf however the rows are drawn |
| FixedSizes.OneTooMany | btops.go:129-131 | a full node of fixed-size records splits into halves that fit and hold the minimum |
| FixedSizes.UnderflowCounts | btdelete.go:89-94 | the byte threshold in records: one below the minimum always underflows, an underflowing node is at most half full |
| FixedSizes.SparesOne | btdelete.go:166-180 | a sibling too full to merge keeps the minimum after giving a record, and the record fits |
| Repairs.RepairSized | btdelete.go:132-149 | in a tree of fixed sizes there always is a repair |
| FixedSizes.FilledMerge | btdelete.go:235-267 | after a merge only the parent may lack one record |
| FixedSizes.FilledRotate | btdelete.go:184-230 | after a rotation no node but the root is below the minimum |
| FixedSizes.NoneStranded | btdelete.go:148-149 | no deletion can strand a leaf of a fixed-size tree |
| FixedSizes.HeightBound | btops.go:29-29 | the leaves alone are 2^(depth-1) nodes |
| FixedSizes.NeverTooDeep | btops.go:29-29 | with 32-bit node numbers a fixed-size tree has at most 32 levels |
| ExactKeys.NamedOnce | btdelete.go:282-306 | two index records that name one child are the same record |
| ExactKeys.ExactMerge | btdelete.go:261-264 | a merge keeps every index key equal to its child's first key |
| ExactKeys.ExactRotate | btdelete.go:184-230 | so does a rotation |
| ExactKeys.ExactRefresh | btdelete.go:300-307 | a refreshed key is exact, and only the node's own key can be left behind |
| BTreeWriters.BTreeWriter.NothingLeaks | btgrow.go:20-64 | between operations the used bits are exactly the header node, the map nodes and the nodes the root reaches; the free count is the number of clear bits, and bits beyond the last node are clear; what a node holds once it is given up is `DeleteByKey`'s to say |
| Chains.RootReaches | btops.go:24-63 | the nodes child pointers reach from the root are exactly those of the rows |
| NodeFiles.NodeFile.constructor | mkfs.go:343-387 | a fresh B-tree file: only the header node used, free count to match |
| NodeFiles.NodeFile.WithLeaf | mkfs.go:250-280 | a fresh file with one leaf: header node and node 1 used, free count to match |
| NodeFiles.NodeFile.StoreNode | btwrite.go:222-244 | stores the node if and only if its records fit; otherwise the node is left erased |
| NodeFiles.NodeFile.SetNodeBit | btmap.go:96-118 | sets one bit of the bitmap, found through the map chain, and no other; refused beyond it |
| NodeFiles.NodeFile.FirstClear | btmap.go:122-141 | the lowest clear bit below the limit, or none |
| NodeFiles.NodeFile.MapCapacityBits | btmap.go:86-93 | the length of the whole bitmap |
| NodeFiles.NodeFile.AddMapNode | btgrow.go:231-302 | fails exactly when the existing bitmap has no clear slot; otherwise the lowest one becomes a map node, used, linked last, bitmap longer |
| NodeFiles.NodeFile.EnsureMapCapacity | btgrow.go:210-225 | terminates; on success the bitmap reaches the total and the free slots shrank by the map nodes added |
| NodeFiles.NodeFile.GrowFork | btgrow.go:69-105 | succeeds if and only if the blocks are there, the fork's extents are recorded, and the map nodes find slots; then eight nodes more at least, every claim of the pool again, blocks moved from free to fork |
| NodeFiles.NodeFile.GrowthBlocks | btgrow.go:70-81 | the fewest blocks that hold eight nodes |
| NodeFiles.NodeFile.AllocNode | btgrow.go:20-49 | succeeds if and only if a node is free or the fork grows; the lowest clear bit's node, erased, in use by nothing; bit and free count updated |
| NodeFiles.NodeFile.FreeNode | btgrow.go:51-64 | the bit cleared, the node erased, the free count raised |
| NodePool.MapNodeUsed | btgrow.go:264-301 | a map node takes a slot it maps: the account of used bits and free count stays exact |
| ExtentsKeys.RankOrder | extents.go:37-57 | the comparison of extents keys is the order of integers: by file, then fork type, then block |
| ExtentsKeys.KeyOfRank | extwrite.go:35-41 | the integer gives the key back |
| RecordCodec.ExtentsKeyRoundTrip | extwrite.go:45-53 | an encoded extents key parses to itself |
| RecordCodec.ExtentsRoundTrip | extwrite.go:57-64 | encoded descriptors read back up to the first empty one |
| RecordCodec.OverflowRecordRoundTrip | extwrite.go:96-97 | an overflow record takes 76 bytes and gives back its key and runs |
| RecordCodec.AssembledParts | extwrite.go:110-118 | key and data of an assembled record come apart again, whatever the padding |
| RecordCodec.IndexRecordNames | catwrite.go:74-82 | an index record names the child it was built for |
| RecordCodec.SameLength | extwrite.go:110-118 | the length the tree model counts for a record is that of its bytes |
| RecordCodec.SameBytes | btwrite.go:247-262 | the bytes of a node's records are those the tree model counts: a node fits there exactly when it does here |
| RecordCodec.BigEndian | extwrite.go:45-64 | numbers are written with the most significant byte first |
| RecordCodec.ExtentsKeyFields | extwrite.go:43-53 | where the fields of an extents key are, byte by byte |
| RecordCodec.NodeFields | btwrite.go:222-244 | where the descriptor's fields and the records of a stored node are, byte by byte |
| ExtentsWriters.ExtentsWriter.InsertOrReplace | extwrite.go:121-130 | the record sequence with the record in place of the one with its key, on the leaf chain always; in the whole tree if and only if, before the call, some stored key is smaller or the tree is at most one leaf without the old record; only space can run out, and not with more than 64 free nodes |
| ExtentsWriters.ExtentsWriter.FewTaken | extwrite.go:121-130 | too few records for two leaves: any key is taken |
| ExtentsWriters.ExtentsWriter.ManyNotTaken | extwrite.go:121-130 | no smaller key, and more other records than a leaf holds: the key is not taken |
| ExtentsWriters.ExtentsWriter.InsertExtentRecords | extwrite.go:88-106 | the groups of eight, keyed by block, replace or join the records, one by one; the first group's key alone decides, if and only if, whether the tree stays well formed; then only space can run out, and not with 65 free nodes for each extent |
| ExtentsWriters.ExtentsWriter.OverflowExtents | extents.go:115-164 | descent and chain walk return the same runs as scanning every record of the tree, of up to 2^24 leaves |
| ExtentsWriters.ExtentsWriter.ResolveFork | extents.go:170-196 | a fork's extents by descriptor and tree are those of descriptor and record sequence |
| ExtentsWriters.ExtentsWriter.ScanLeaf | extents.go:128-160 | one leaf of that walk, with the stop at a later file |
| ExtentsWriters.ExtentsWriter.DeleteAllForFork | extwrite.go:135-183 | always succeeds; leaves exactly the other forks' records in order, returns exactly the runs recorded for the fork, and erases the nodes it frees |
| ExtentsWriters.ExtentsWriter.CollectFork | extwrite.go:142-174 | the scan from the first leaf collects every key and run of the fork |
| ExtentsWriters.ExtentsWriter.DeleteKey | extwrite.go:186-194 | always succeeds; the sequence without that key; freed nodes erased |
| ExtentsKeys.SpillRoundTrip | extents.go:170-196 | eight inline extents and the groups of the rest resolve to the list that was written |
| ExtentsKeys.GrowthSpills | btgrow.go:119-204 | growth rewrites the groups in place; the records stay exactly the groups of the longer list |
| ExtentsKeys.HistoryRoundTrip | btgrow.go:119-204 | after any history of growth the fork resolves to all the runs it was ever given, other forks untouched |
| ExtentsKeys.GroupsExtend | extwrite.go:88-106 | a longer list keeps the keys of the shorter one's groups |
| Chains.DescentLeft | extents.go:61-110 | with or without fallback, every stored key left of the reached leaf is below the probe |
| Chains.WalkChain | btree.go:190-226 | the bounded walk ends on any image, circular or not, and on a well-formed tree visits exactly the first leaves up to the bound |
| Chains.ManyRecords | btops.go:124-158 | a fixed-size tree of several levels holds two minimal leaves' worth of records |
| NameOrder.NextFolded | catalog_search.go:79-88 | the cursor yields the next unit of the folded sequence |
| NameOrder.FastUnicodeCompare | catalog_search.go:92-113 | names without units 0 compare equal exactly if they have one length and letters equal up to case (A to Z, the Latin-1 letters, Latin Extended-A), and in order by the first letter that differs; units 0 do not count |
| NameOrder.FoldedOrder | catalog_search.go:57-113 | the folded order, said in capitals and small letters |
| NameOrder.CompareU16 | catalog_search.go:116-136 | equal exactly if identical; otherwise decided by the first unit that differs, or by length |
| NameOrder.CompareCatalogKey | catalog_search.go:21-33 | parent first, then the name, by units in the binary mode and by letters up to case otherwise |
| NameOrder.CatalogRankOrder | catalog_search.go:21-33 | in both modes the comparison is an order of integers, so a total preorder; in binary mode equal means identical |
| NameOrder.LeadingNulsIgnored | catalog_search.go:47-56 | leading ignorable units change nothing |
| CatalogReaders.CatalogReader.Lookup | catalog_search.go:201-236 | with any rule for matching names: finds a match if and only if the tree holds one, so long as none sorts below the key looked for |
| CatalogReaders.KeyMatch | catalog_search.go:139-144 | when names match as keys do, none sorts below and a match is the key |
| CatalogReaders.CatalogReader.ListChildren | catalog_search.go:241-287 | returns the same entries as filtering every record of the tree; what they are is `ListFolder`'s to say |
| Listings.ListFolder | hfsplus.go:335-360 | in a tree that holds a catalog, whose records carry their types and lengths, a listing has one record for each file and folder in the folder, in key order, and no other; it is empty exactly if the folder is |
| Listings.ListingIs | catalog_search.go:241-287 | so for the entries among any ascending records that hold a catalog |
| CatalogReaders.FolderTogether | catalog_search.go:256-282 | a folder's records lie together in key order, parents ascending: a listing may stop at the first later folder |
| CatalogReaders.CatalogReader.ScanChildren | catalog_search.go:256-282 | one leaf of that listing, with the stop at a later folder |
| Allocators.Allocator.Set | alloc.go:53-53 | one bit set, no other changed |
| Allocators.Allocator.Clear | alloc.go:54-58 | one bit cleared, no other changed |
| Bitmap.MaskValue | alloc.go:46-58 | block 0 of a byte is its most significant bit, block 7 the least |
| Bitmap.SameBits | alloc.go:45-58 | bytes with the same bits are the same bytes |
| Allocators.Allocator.AllocContiguous | alloc.go:63-86 | the lowest run of that length, marked, nothing else; refused exactly when there is none |
| Allocators.Allocator.AllocFragments | alloc.go:92-137 | succeeds if and only if that many blocks are free; ascending runs that sum to the count, the lowest fit or the lowest free blocks; on failure the bitmap is bit for bit what it was |
| Allocators.Allocator.TakeLowest | alloc.go:99-136 | the fragment walk takes the lowest free blocks |
| Allocators.Allocator.GiveBack | alloc.go:129-135 | the rollback restores every byte |
| Allocators.Allocator.FreeRun | alloc.go:140-144 | clears the run and nothing else |
| Allocators.Allocator.FreeCount | alloc.go:147-155 | counts the clear bits |
| Owners.GiveFork | write.go:256-277 | newly allocated runs become a file's and nobody else's |
| Owners.TakeFork | write.go:320-335 | freeing a file's runs leaves every other owner's |
| Owners.FreedCount | alloc.go:140-155 | blocks given back are counted as free, one by one |
| Owners.ForkRuns | write.go:322-335 | the inline extents and the overflow records together are the fork's runs |
| Owners.SpillFork | write.go:264-277 | a new file's overflow records complete its descriptor and touch no other fork |
| ForkIO.Image.WriteForkData | write.go:295-316 | each byte of each run is the data's byte at its place in the stream, or 0 where the data is over; bytes outside the runs are unchanged |
| ForkIO.StreamWritten | write.go:295-316 | a stream that is the data followed by zeros, byte by byte of the image |
| ForkIO.Image.ReadAt | fork.go:25-70 | the wanted bytes of the stream, or what there is of them |
| ForkIO.Image.ExtentBytes | fork.go:82-92 | the bytes covered, saturating |
| ForkIO.Image.CheckExtentsInside | fork.go:147-164 | true exactly when every extent in use lies inside the image |
| ForkIO.Image.ReadAll | fork.go:95-143 | the fork's bytes, refused exactly when the claimed size is not covered |
| ForkIO.Image.ReadGrow | fork.go:172-187 | the growing read returns the same bytes |
| ForkIO.WriteThenRead | write.go:295-316 | what was written over any runs of different blocks, enough for it, is read back by both readers; the rest of the runs is 0 |
| NodeCodec.StoreNode | btwrite.go:222-244 | succeeds exactly when the records fit; the stored bytes parse to the same descriptor and records, a refused node to an erased one |
| NodeCodec.RoundTrip | btree.go:107-137 | the reader's parse of stored bytes |
| NodeCodec.WriteOffsetTable | mkfs.go:627-633 | entry by entry from the end of the node |
| NodeCodec.NodeBytes | btwrite.go:119-131 | the byte of the image where a node starts, exactly for nodes the fork reaches |
| NodeCodec.NodeInside | btwrite.go:119-131 | no node straddles two runs when the node size divides the block size |
| NodeCodec.NodesDisjoint | btwrite.go:119-131 | different nodes lie in disjoint bytes |
| NodeCodec.NodeIsStream | btree.go:107-112 | the writer's bytes of a node are the reader's |
| Catalogs.SameId | write.go:94-101 | no two items share a CNID |
| Catalogs.AddKeeps | write.go:279-290 | a new item keeps threads, roots and CNIDs; its parent's counts are due one more |
| Catalogs.RemoveKeeps | write.go:336-343 | a removed file or empty folder keeps them; its parent's counts are due one less |
| Catalogs.MoveKeeps | write.go:514-545 | a moved item keeps them; both parents' counts are due |
| Catalogs.PatchCounted | write.go:162-181 | the adjustment found through the thread settles what is due, without 32-bit wrap |
| Catalogs.CountsFit | write.go:114-119 | no count of a volume reaches 2^32 |
| Catalogs.PatchFlagged | write.go:173-179 | adjusting a folder's counts leaves alone which folders keep a folder count |
| Volumes.Volume.FolderCounts | write.go:148-181 | between operations every folder's valence is its number of children; exactly on a case-sensitive volume it keeps a folder count, and this is its number of subfolders |
| Volumes.Volume.constructor | mkfs.go:250-305 | the formatted volume satisfies the invariant |
| Volumes.Volume.NextCnid | write.go:94-101 | a CNID of 16 or more that no item, thread, parent, fork or overflow record uses; the counter ends above it if and only if it does not wrap |
| Volumes.Volume.AdjustParentValence | write.go:162-181 | patches the folder its thread leads to; succeeds exactly if the thread and the record it names are there, and changes nothing otherwise |
| Effects.PatchMeans | write.go:162-181 | that folder's record alone changes: its valence and, where it keeps one, its folder count |
| Volumes.Volume.ResolveParent | write.go:125-146 | succeeds exactly when the leading components lead to a folder; otherwise says what is wrong with the first that does not |
| Effects.PathLeads | write.go:125-146 | a path through folders, each in the one before, leads to its last component's key in the last of them |
| Effects.PathFails | write.go:125-146 | no other path leads anywhere |
| Effects.AppliesWhen | write.go:204-460 | a file is written where there is none or a file, removed where there is a file; a folder is made where there is nothing, removed where there is one without items |
| Effects.RenameAppliesWhen | write.go:465-500 | a rename applies to an item, towards a key that is not there |
| Volumes.Volume.NewFileFork | write.go:254-277 | a new file's blocks, and the records its descriptor has no room for; out of space if too few blocks are free, and otherwise only if a tree takes some |
| Volumes.Volume.CreateFile | write.go:246-291 | record, thread, blocks and overflow records of a new file; the invariant holds afterwards if and only if the CNID counter did not wrap; done, where the trees have room, exactly if enough blocks are free |
| Volumes.Volume.RemoveFile | write.go:320-344 | all of them gone, blocks given back and counted, counts lowered; done where the trees have room |
| Volumes.Volume.WriteFile | write.go:204-240 | creates or replaces; refused exactly when the path does not resolve or names a folder; in order again if and only if the CNID counter did not wrap; where the trees have room it is done exactly if the free blocks, with those of the file replaced, are enough, and they are counted exactly |
| Volumes.Volume.MkDir | write.go:347-386 | the folder, its thread and its parent's counts; refused exactly when the path does not resolve or exists, and done otherwise where the trees have room |
| Volumes.Volume.DeleteFile | write.go:389-416 | exactly the file is gone; refused exactly when there is none, and done otherwise where the trees have room, its blocks counted as free |
| Volumes.Volume.DeleteDir | write.go:419-460 | exactly the folder is gone; refused exactly when there is none or it has children, and done otherwise where the trees have room |
| Volumes.Volume.Rename | write.go:465-548 | the item under its new key, CNID and fork kept, both parents counted; refused exactly when there is no such item or the target exists, and done otherwise where the trees have room |
| Volumes.Volume.NamedIsItem | write.go:497-505 | what a path leads to is a file or a folder, never a thread |
| Effects.CreatedMeans | write.go:279-291 | a new item brings its record and thread; of the others only its parent's record changes, by its counts |
| Effects.DroppedMeans | write.go:336-343 | removing an item takes its record and thread; of the others only its parent's record changes |
| Effects.RenamedMeans | write.go:514-545 | a rename puts the record, unchanged, under the new key and rewrites the thread; of the others only the two parents' records change, and only when they differ |
| Volumes.Volume.SetLabel | write.go:708-751 | the root folder under the new name, nothing else; refused exactly for an empty name or one of more than 255 units |
| Volumes.Volume.GrowTrees | btgrow.go:69-204 | any number of growths of either B-tree file keeps every block held once and every fork's overflow records complete |
| Volumes.Volume.Commit | alloc.go:160-184 | the header's free-block count is the number of clear bits |
| Volumes.FilesReadBack | extents.go:170-196 | in every state between operations every file's descriptor and records resolve to the runs it was given |
| Coverage.FileRuns | extents.go:115-196 | and so does the descent through the overflow tree that holds those records |
| Coverage.ReplaceFirst | btops.go:67-100 | a record replaced by one that comes first in its tree: well formed if and only if the tree is at most one leaf without the old record |
| Coverage.NewFileTaken | write.go:264-277 | every key a new file's groups may have is taken by the overflow tree |
| Coverage.SpillNewFile | write.go:264-277 | so a new file's spill keeps the tree, which holds what the volume records; only space can run out |
| Coverage.CatalogIsFirst | btgrow.go:194-204 | no overflow record is below the catalog fork's first group |
| Coverage.SpillCatalog | btgrow.go:194-204 | so the catalog's spill keeps the overflow tree well formed if and only if the tree is at most one leaf without that group |
| CatalogWriters.CatalogWriter.InsertRecord | catwrite.go:96-103 | a tree that holds a catalog and takes a record of a new key, under a folder or as a thread, holds the catalog with that entry; it takes it where there is room and enough nodes are free |
| CatalogWriters.CatalogWriter.PatchRecord | catwrite.go:125-154 | the data of one record changes in place and nothing else; refused exactly if the tree has no such key |
| CatalogWriters.CatalogWriter.DeleteRecord | catwrite.go:106-122 | a record that is not alone in its leaf goes, and the tree holds the catalog without that entry; it goes where there is room |
| CatalogWriters.CatalogWriter.AddItem | write.go:279-290 | record and thread in and the parent's record patched: the tree holds the catalog that the volume's step leaves |
| CatalogWriters.ItemCovered | write.go:279-288 | a record under any folder, and any thread, goes into the catalog tree without fallback |
| CatalogWriters.RootComesFirst | write.go:735-745 | whatever the volume's name, the root folder's record comes before all others |
| CatalogWriters.DropLabel | write.go:735-737 | the old name's record removed: the new one comes first among what is left, so the rest is `ReplaceFirst` with the root's thread |
| CatalogWriters.Relabel | write.go:735-748 | on a catalog of one leaf the four steps leave the tree in order, both records first |
| FolderTree.CreatedTree | write.go:279-291 | a new file or folder keeps every item hanging, parent by parent, from the root folder |
| FolderTree.DroppedTree | write.go:336-343 | so does removing a file or an empty folder |
| FolderTree.RelabeledTree | write.go:735-748 | so does renaming the volume |
| FolderTree.RenamedTree | write.go:465-548 | `Rename`, which does not look, keeps it if and only if the target's folder is neither the item moved nor below it |
| FolderTree.PathsReach | write.go:125-146 | a path leads to a folder if and only if the folder hangs from the root |
| Limits.MoveIntoItself | write.go:465-548 | on any volume, a folder renamed to a name inside itself is not refused, and the tree of folders is lost |
| Limits.FreshIntoItself | write.go:465-548 | so on a fresh volume with one folder |
| Mkfs.Builder.Layout | mkfs.go:151-200 | refuses exactly the volumes too small for headers, bitmap, extents tree and a minimal catalog; the bitmap is no larger than needed, and the catalog has 256 blocks or, where they do not fit, all that is left |
| Mkfs.Builder.WriteAllocationBitmap | mkfs.go:211-222 | the used blocks are those up to the end of the catalog and the last one, all apart and in range; the free count is exact without wrap |
| Mkfs.LabelOf | mkfs.go:97-100 | a volume name that is given is kept, an empty one becomes "GOTEST" |
| Mkfs.Format | mkfs.go:89-119 | refuses exactly the images of fewer than eight blocks; the volume satisfies the invariant, and the two trees are well formed and hold its records |
| Mkfs.CatalogRootLeaf | mkfs.go:284-324 | the root folder's record sorts before its thread in either key order, and both fit the leaf |
| Mkfs.WriteCatalogTree | mkfs.go:250-280 | a fresh catalog file: a well-formed tree of one leaf with those two records |
| Mkfs.WriteExtentsTree | mkfs.go:226-244 | a fresh extents file: an empty tree of the writer's invariant |

## Left out

- Keys as byte strings inside the engine: the tree model compares integers; the embeddings of both key orders are proved.
- Malformed records inside a node (unreadable key, short data): the comparison then returns 0 in the code; in the model every record has a key.
- Node overflow of the catalog tree: records of varying size can make a split half (`Limits.HalvesTooBig`), a merge or a refreshed key not fit. When they do is exact (`BTreeWriter.Insert`, `DeleteByKey`); the state a failed operation leaves is not described, and it is not undone, in the code or here.
- Volumes.Volume: whether the two trees find the nodes and the room their steps need is a constant of the volume, `roomy`; where it is false any tree step may fail or take blocks. What decides it for one step on one tree is `CatalogWriter.InsertRecord` and `DeleteRecord`, and `ExtentsWriter.InsertExtentRecords`.
- BTreeWriters.BTreeWriter.Insert: with fewer free nodes than it takes it may grow the file and succeed, or run out of space; which is `NodeFile.GrowFork`'s to say.
- ExtentsWriters.ExtentsWriter.InsertExtentRecords: a list of several groups whose first key is not taken is not followed past its first group, which already leaves the tree out of order (`InsertOrReplace`); lists with an empty extent, or whose block numbers pass 2^32, are left out.
- Coverage.SpillCatalog: the same, for several groups.
- CatalogWriters.Relabel: stated for a catalog of one leaf. With more leaves the steps are `DropLabel` and `ReplaceFirst`, each exact on the tree it starts from.
- Coverage.FileRuns: stated for overflow trees of at most 2^24 leaves, the reader's ceiling.
- The rule of `strings.EqualFold` (`catalog_search.go:139-144`): lookup is stated for any rule of matching names, deletion and patching match by key, as the binary mode does.
- CatalogWriters.CatalogWriter.DeleteRecord: stated for a record that is not alone in its leaf; a lone one is `BTreeWriter.DeleteByKey`.
- CatalogWriters.DropLabel: the same.
- CatalogWriters.CatalogWriter.AddItem: says what is left when its three steps succeed; whether each does is `InsertRecord`'s and `PatchRecord`'s to say.
- Coverage.ReplaceFirst: the same.
- CatalogReaders.CatalogReader.Lookup: complete for trees of at most 64 levels and 2^24 leaves, the reader's own bounds; a match that sorts below the key looked for is found only from the leaf reached on.
- CatalogReaders.CatalogReader.ListChildren: complete under the same two conditions.
- ExtentsWriters.ExtentsWriter.OverflowExtents: complete for at most 2^24 leaves.
- ExtentsWriters.ExtentsWriter.ResolveFork: complete for at most 2^24 leaves.
- Volumes on which a B-tree file could outgrow its 32-bit node count, even with every free block, are outside `NodeFile.Valid`.
- NodeFiles.NodeFile.GrowFork: whether the new extents find their place (`btgrow.go:161-165`) lies in another tree: they always do where the file's constant `recordable` is true, and otherwise it is a result; its effect on the overflow records is `Volume.GrowTrees` and `Coverage.SpillCatalog`. The extents file is taken to stay within its inline extents.
- The catalog in `Volume` is a map of records; that a tree behaves as one is `BTreeWriter.Insert`, `DeleteByKey`, `CatalogReader`, `CatalogWriter` and, for the overflow records, `Coverage`.
- The stale contents of nodes gained by growth are unspecified; allocation erases a node before use.
- Resource forks, dates, Finder data, modes and symlink targets, and the file's bytes inside `Volume` (they are `ForkIO`).
- `Symlink` and `Truncate`: made of the modelled removal and creation of a file.
- UTF-16 conversion, path splitting, trimming of labels; names are sequences of 16-bit units and components are not empty. Formatting takes volume names of at most 255 units, which the code does not check.
- Reopening the volume, caches of the reader, writing the image to the backing store, errors of the store.
