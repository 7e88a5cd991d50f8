# Verified model of the cw_db storage engine and query layer

cw_db keeps its tables in memory and its indexes on disk, one B*+-tree file per
indexed column. This project models the engine from the bytes of a page up to the rows an
SQL statement returns, and proves that each layer keeps the promises the next one rests on:

| layer | modules |
|---|---|
| values and their order; failures | `Values`, `Outcomes`, `Ordered` |
| node sizes, overflow and underflow | `Nodes` |
| keys, pages and the table file as bytes | `KeyCodec`, `PageCodec`, `TableFile` |
| the write-back LRU page cache | `PageCache`, `PagerRuns`, `PageStore` |
| the B*+-tree index | `Shape`, `Replace`, `Surgery`, `Descent`, `Capacity`, `Index`, `Fanout`, `BulkBuild`, `Lookup`, `Limits` |
| what the tree invariant means, and whole runs of an index | `Reference`, `Runs` |
| tables and whole runs of a table | `Tables`, `TableRuns` |
| WHERE, index hints and statements | `Where`, `Planner`, `Updates`, `Statements` |

The main results:

* **Any run of insertions and erasures of an index acts as on a plain map, up to the first call that
  throws or cuts a node** (`Runs.Life`), and what it leaves on the pages is a B+-tree in the textbook
  sense: equal leaf depth, non-empty leaves, every separator the least key of the subtree to its right,
  no page reached twice, a leaf chain that visits the leaves from left to right and ends, and
  entries in strictly increasing order. The textbook notions (`Reference`) are defined by
  following child pointers and links only, without the invariant that the proofs carry along.
* **Exactly when an insertion or an erasure loses keys.** The code counts the separators of a node in
  one byte without testing the count, so it stores a root of 257 children without complaint and reads
  it back with its first child alone. In every index of integers, of any height, a fresh key is
  accepted, and the index is sound afterwards if and only if the leaf had room, or the right neighbour
  had, or the parent had at most 255 children (`DiskBspIndex.Stuck` is the opposite); in two levels an
  erasure leaves a sound index if and only if the leaf stays large enough, a neighbour can spare an entry, the
  merged leaf fits, or the root had at most 255 children (`DiskBspIndex.Jammed`), and throws exactly
  when a leaf without neighbours gets too small (`DiskBspIndex.Marooned`). Nothing of this can happen
  up to 18175 keys to an index that was grown key by key. It does happen: after a bulk build of the
  integers 0 to 54783 any further insertion returns normally, and of the 54784 keys at most one
  page is still found (`Limits.FullIndexLosesKeys`). What an insertion loses that way, at any height, and an
  erasure in an index of two levels, is the contents of one node: with it restored the index is the one
  it should be (`DiskBspIndex.Healable`). Nothing is ever lost when all keys take ten bytes or more, at any
  height; and whether a bulk build loses something is decided exactly by the sizes of the keys
  (`Fanout.NoneCut`).
* **What every repair leaves on disk.** Each split, borrow, merge and redistribution, of leaves and of
  inner nodes and at any height, has a contract that says which neighbour it turns to, exactly what the nodes
  concerned hold afterwards, and that the levels below keep theirs (`Capacity.LeafRelieved`,
  `InnerRelieved`, `LeafRepaired`, `InnerRepaired`). An index of integers in which every inner node has two children
  stays so and never throws (`DiskBspIndex.Paired`); a bulk build of integers always gives one.
* **A cache of any capacity is a flat array** of pages to its users, its recency list is the
  move-to-front order of the access trace, and LRU has the stack property (`PagerRuns`).
* **Bytes round-trip**: values, nodes, superblock and the version-3 table file, with the exact
  condition under which a page does not (`PageCodec.PageRoundTrip`).
* **Rows, order and indexes of a table agree after any run** (`TableRuns`).
* **An index never changes the answer of a query**: candidates picked through an index, filtered
  by WHERE, are the rows of a full scan, in the order the conditions call for (`Statements.MatchedRows`), WHERE accepts what the truth
  tables of section 8.12 of ISO/IEC 9075:1992 make true (`Where.SelectsWhatSqlSelects`), DELETE,
  COUNT and SUM do not depend on the plan, and UPDATE succeeds in whatever order a plan
  lists the rows if and only if the updated rows clash with nothing (`Updates.UpdateInAnyOrder`).

## How the tree is modelled

`DiskBspIndex` is a class with the fields of the original and `pages`, the page file as parsed
nodes. `PageStore` shows that reading, writing and allocating encoded nodes through the pager changes the
parsed pages as `ReadNode`, `WritePage` and `AllocatePage` change that sequence, and that every page of a
valid index is restored from its bytes. The invariant is stated level by level: `levels[k]` lists the pages at height
`k`, and `info` records the least key of each subtree. While an operation climbs the tree one page,
the hole, may be out of step with its recorded minimum. One lemma,
`Replace.ReplaceChildren`, covers every split, merge, borrow and redistribution: a stretch of
children is replaced by another that holds the same entries.

A C++ `throw` is the result `Throw`; after it contracts promise nothing, except where they say that
nothing has changed. The result `Cut` is no failure of the original, which carries on and returns: it
says that a node has been stored with more separators than its page can count.

## Where the code departs from what one would expect

* The separators of an inner node are counted in one byte, although 4096 bytes have room for more
  than 255 short ones (`src/storage/disk_bsp_index.cpp:274`). With 256 of them the page is read back
  with one child and no separator (`PageCodec.CountWraps`), and so does the tree model
  (`DiskBspIndex.WritePage`). It cannot arise when separators take at least ten bytes.
* Splitting an inner root, or an inner node without neighbours, always throws: the fresh right
  page is read at `src/storage/disk_bsp_index.cpp:1064` before it has been written
  (`DiskBspIndex.SplitInternal`). An index grown by insertions therefore never has more than one
  level of inner nodes (`Runs.Life`); taller ones come from a bulk build.
* The attempt to relieve an overflowing leaf by its left neighbour, and both attempts for inner
  nodes, move something into the node that overflows and so never succeed
  (`Nodes.GainingKeepsOverflow`).
* `tri_and` answers unknown for unknown AND false, where SQL says false. No row is affected.
* `Value::compare` gives 0 on NULL and on mixed types. A search for such a value ends at the first
  entry of the last leaf, which `find` reports and `erase` removes (`DiskBspIndex.NoKeyMeansLast`).

## Model
| member | source | states |
|---|---|---|
| Values.CompareIsTotalOrder | src/core/value.cpp:81-104 | on non-null values of one type comparison is valid, antisymmetric, and zero exactly for equal values |
| Values.LessTransitive | src/core/value.cpp:81-104 | the strict order is transitive, for all values |
| Values.LessIsBelow | src/core/value.cpp:92-103 | one integer is below another by size; one text is below another exactly when after a common beginning it ends or has the smaller byte; nothing else is below anything |
| Values.MixedComparisonsAreUnknown | src/core/value.cpp:82-91 | a comparison is valid exactly for two non-null values of one type, and zero otherwise |
| Nodes.ThreeShares | src/storage/disk_bsp_index.cpp:33-38 | three consecutive shares that make up the whole, differ by at most one, and are non-empty from three elements on |
| Nodes.EqualSharesFit | src/storage/disk_bsp_index.cpp:730-776 | with equal-size keys, two leaves holding at most 2·capacity+1 entries always make three non-empty leaves that fit, none below a third |
| Nodes.GainingKeepsOverflow | src/storage/disk_bsp_index.cpp:704-719 | a leaf or inner node that overflows still does after it has been given more, so the attempts to relieve it that way answer false |
| Nodes.TenByteSeparatorsAreCounted | src/storage/disk_bsp_index.cpp:268-274 | separators of ten bytes or more that pass the byte test number at most 255 |
| Nodes.IntLeafLimits | src/storage/disk_bsp_index.cpp:62-70 | leaves of integers overflow exactly above 214 entries and are too small exactly below 144 |
| Nodes.IntInnerLimits | src/storage/disk_bsp_index.cpp:62-75 | inner nodes of integers can be stored exactly up to 256 children, 257 still pass the byte test, and they are too small exactly below 183 |
| Ordered.SortByKey | src/storage/disk_bsp_index.cpp:740-743 | sorting gives a permutation without inversions |
| Ordered.SortKeepsOrdered | src/storage/disk_bsp_index.cpp:738-743 | sorting entries that are in order already changes nothing |
| KeyCodec.DecodeEncoding | include/storage/value_io.h:24-79 | decoding an encoded value followed by any bytes returns it and consumes exactly its size |
| KeyCodec.EncodingOfDecoded | include/storage/value_io.h:52-79 | what decodes is the encoding of its value: encodings are canonical |
| KeyCodec.EncodingBytes | include/storage/value_io.h:24-50 | byte by byte: the tag, an integer in two's complement with the least significant byte first, a text behind its length |
| KeyCodec.LittleEndianAt | include/storage/value_io.h:33-48 | byte i of a stored number counts for 256 to the power of i |
| KeyCodec.KeyRoundTrip | include/storage/value_io.h:24-79 | every value that can be a key round-trips |
| KeyCodec.CompareEncodedIsCompare | include/storage/value_io.h:81-88 | comparing encoded keys compares the keys; zero exactly for equal encodings |
| PageCodec.PageRoundTrip | src/storage/disk_bsp_index.cpp:195-288 | reading a written page restores it if and only if its count fits the count byte |
| PageCodec.ReadBack | src/storage/disk_bsp_index.cpp:195-288 | what any stored page is read back as, with up to one separator too many |
| PageCodec.CountWraps | src/storage/disk_bsp_index.cpp:224-288 | 256 separators of any kind make the count byte zero: only the first child comes back |
| PageCodec.LeafIsCountable | src/storage/disk_bsp_index.cpp:243-264 | the count byte of a leaf never wraps: at most 214 integers or 255 texts fit |
| PageCodec.TextLeafBoundIsReached | src/storage/disk_bsp_index.cpp:243-264 | 255 distinct texts do fit a leaf |
| PageCodec.ManySeparatorsAreLost | src/storage/disk_bsp_index.cpp:271-274 | 256 integer separators pass the byte test, and the page is read back with one child and no separator |
| PageCodec.SuperRoundTrip | src/storage/disk_bsp_index.cpp:144-185 | the superblock gives back root, first leaf and size |
| PageCodec.LeafBytesAt | src/storage/disk_bsp_index.cpp:247-263 | where magic, kind, count, next leaf and every entry of a leaf are on its page |
| PageCodec.InnerBytesAt | src/storage/disk_bsp_index.cpp:271-287 | where every child and every separator of an inner node are |
| PageCodec.SuperBytesAt | src/storage/disk_bsp_index.cpp:174-185 | where magic, version, root, first leaf and size are in the superblock |
| PageCodec.MarksDecide | src/storage/disk_bsp_index.cpp:147-204 | no page without the mark of a node is taken for one, a leaf has kind 1, the count byte is the number of separators, and a superblock is what begins with its mark and version 1 |
| PageCodec.RenderLeaf | src/storage/disk_bsp_index.cpp:243-266 | the loop writes exactly the image of the leaf, or fails exactly when it does not fit |
| PageCodec.RenderInner | src/storage/disk_bsp_index.cpp:268-288 | the same for an inner node |
| PageCodec.ReadEntries | src/storage/disk_bsp_index.cpp:205-219 | the reading loop parses exactly what the layout says, stopping early at the end of the page |
| PageCache.Pager.EvictOne | src/storage/pager.cpp:21-39 | the least recently used page leaves the cache and no content is lost |
| PageCache.Pager.SetCacheCapacity | src/storage/pager.cpp:9-14 | the recency list is cut to the capacity, content unchanged; a closed pager only takes note |
| PageCache.Pager.TouchCache | src/storage/pager.cpp:94-99 | a cached page moves to the front of the recency list |
| PageCache.Pager.PutCache | src/storage/pager.cpp:66-92 | dirty data replaces the page in the flat array, clean data changes nothing; recency is move-to-front cut at the capacity |
| PageCache.Pager.LoadPageFromDisk | src/storage/pager.cpp:54-64 | loading changes no content, and fails without effect exactly past the end of the file |
| PageCache.Pager.ReadPage | src/storage/pager.cpp:150-173 | the page as last written; fails past the end, and otherwise only for a page that was skipped |
| PageCache.Pager.WritePage | src/storage/pager.cpp:175-179 | from now on the page holds these bytes, everything else is unchanged; only a wrong size is refused |
| PageCache.Pager.AllocatePage | src/storage/pager.cpp:143-148 | a page is appended of which every byte is zero |
| PageCache.Pager.FlushDirtyPages | src/storage/pager.cpp:41-52 | afterwards the file is the flat array and no page is dirty |
| PageCache.Pager.Close | src/storage/pager.cpp:124-131 | the file left behind holds everything written |
| PageCache.Pager.Open | src/storage/pager.cpp:101-122 | the content is what the file holds, or nothing when created |
| PagerRuns.ServeAll | src/storage/pager.cpp:9-185 | any interleaving of calls, at any capacity, is answered as by a flat array of pages |
| PagerRuns.RecencyIsMoveToFront | src/storage/pager.cpp:21-99 | the recency list is the move-to-front order of the access trace, cut at the capacity |
| PagerRuns.StackInclusion | src/storage/pager.cpp:21-99 | the pages cached with capacity k are the k most recent of those cached with k+1, min(k, distinct pages) in number |
| PageStore.WriteNode | src/storage/disk_bsp_index.cpp:243-288 | writing a node through pager and codec sets that parsed page to what is read back of it, and no other; fails exactly when its bytes do not fit |
| PageStore.ReadNode | src/storage/disk_bsp_index.cpp:195-241 | reading gives the node last written, and fails exactly on what is not a node |
| PageStore.AllocateNode | src/storage/disk_bsp_index.cpp:187-193 | a page that is not a node is appended |
| PageStore.WriteSuper | src/storage/disk_bsp_index.cpp:174-185 | page 0 becomes the superblock, nothing else changes |
| PageStore.TreePageIsStored | src/storage/disk_bsp_index.cpp:195-288 | every page of a valid index is restored by reading back its bytes |
| PageStore.SuperIsStored | src/storage/disk_bsp_index.cpp:144-185 | so is its superblock |
| Replace.ReplaceChildren | src/storage/disk_bsp_index.cpp:596-922 | replacing a stretch of children by one with the same entries, and rebuilding the parent's separators, keeps the whole tree invariant and every entry |
| Replace.RecordMin | src/storage/disk_bsp_index.cpp:603-619 | correcting one separator moves the only inconsistency to the parent, or ends it |
| Surgery.GrowRoot | src/storage/disk_bsp_index.cpp:640-651 | a new root over a divided root keeps invariant and entries |
| Surgery.DropRoot | src/storage/disk_bsp_index.cpp:622-629 | dropping a root with one child keeps invariant and entries |
| Surgery.LeafDivided | src/storage/disk_bsp_index.cpp:859-876 | dividing a leaf keeps the chain, the entries and the recorded minima |
| Surgery.ThreeLeaves | src/storage/disk_bsp_index.cpp:745-776 | two linked leaves rewritten as three linked ones stand for the same entries |
| Surgery.ThreeInners | src/storage/disk_bsp_index.cpp:886-911 | two inner nodes rewritten as three stand for the same children |
| Surgery.CloseLeftSpine | src/storage/disk_bsp_index.cpp:596-620 | a new least key of the whole index leaves every separator right |
| Descent.ChildIsRightPage | src/storage/disk_bsp_index.cpp:548-555 | the child the separators choose is the one page of its level that can hold the key |
| Descent.RightLeafSeparates | src/storage/disk_bsp_index.cpp:539-557 | everything left of the leaf reached is below the key and everything right of it above |
| Descent.DescentIsRight | src/storage/disk_bsp_index.cpp:539-557 | following the separators n steps down from the root leads to the right page of that level |
| Index.DiskBspIndex.CreateEmpty | src/storage/disk_bsp_index.cpp:126-142 | an empty valid index of one leaf |
| Index.DiskBspIndex.Open | src/storage/disk_bsp_index.cpp:144-159 | opening the file an index left gives that index back; any other page 0 is refused |
| Index.DiskBspIndex.WritePage | src/storage/disk_bsp_index.cpp:243-288 | stores the node if its bytes fit and fails otherwise; the number of separators does not matter, and a node with one too many keeps its first child only |
| Index.DiskBspIndex.SubtreeMin | src/storage/disk_bsp_index.cpp:559-568 | first children lead to the least key of the subtree, at any height, even if a node on the way has been cut |
| Index.DiskBspIndex.RebuildKeys | src/storage/disk_bsp_index.cpp:580-594 | one separator per child but the first: the least key below that child |
| Index.DiskBspIndex.LowerBoundSlot | src/storage/disk_bsp_index.cpp:431-442 | binary search finds the first entry not below the key; 0 for a value of another type |
| Index.DiskBspIndex.UpperBoundSlot | src/storage/disk_bsp_index.cpp:444-456 | binary search finds the first entry above the key; the end for a value of another type |
| Index.DiskBspIndex.ChildSlot | src/storage/disk_bsp_index.cpp:548-553 | the child after the last separator that is not above the key |
| Index.DiskBspIndex.FindLeaf | src/storage/disk_bsp_index.cpp:539-557 | the path the separators lead along, to the one leaf that can hold the key, at any height |
| Index.DiskBspIndex.PropagateMin | src/storage/disk_bsp_index.cpp:596-620 | after a subtree's least key has changed, climbing restores every separator above it, even if the top node of the subtree has been cut; entries unchanged |
| Index.DiskBspIndex.CorrectSeparator | src/storage/disk_bsp_index.cpp:611-616 | correcting the separator above the changed subtree completes the tree |
| Index.DiskBspIndex.InsertIntoParent | src/storage/disk_bsp_index.cpp:631-676 | a divided leaf gets a new root over the two halves, or a second place in its parent; invariant and entries kept, and both halves hold what they were given |
| Index.DiskBspIndex.TryGiveToRightLeaf | src/storage/disk_bsp_index.cpp:678-702 | moves the last entry to the right leaf and keeps the tree exactly when there is a right leaf and both then fit, with integers when that leaf is not full; changes nothing otherwise |
| Index.DiskBspIndex.ShareLeaves | src/storage/disk_bsp_index.cpp:730-776 | two leaves become three with the shares of `three_way_counts`; succeeds when they fit |
| Index.DiskBspIndex.SplitLeafPair | src/storage/disk_bsp_index.cpp:730-787 | the 2-to-3 split with its parent keeps invariant and entries, and the three leaves hold the shares of `three_way_counts`; for integers up to 255 children it does, and at 256 it returns with the parent cut down to its first child |
| Index.DiskBspIndex.SplitLeaf | src/storage/disk_bsp_index.cpp:830-876 | an overflowing leaf passes its last entry to the right if both then fit; otherwise it and its right neighbour, or its left one if it is the last child, become three leaves; an only child and the root are halved; invariant and entries kept at any height; for integers it always returns, and with a sound tree exactly when there is room beside the leaf |
| Index.DiskBspIndex.ShareInners | src/storage/disk_bsp_index.cpp:886-911 | two inner nodes become three with the shares of `three_way_counts` and exact separators, none too many to be counted |
| Index.DiskBspIndex.SplitInternalPair | src/storage/disk_bsp_index.cpp:878-922 | the 2-to-3 split of inner nodes, and whatever it causes above, keeps invariant and entries, and the three nodes hold those shares afterwards; nothing below changes |
| Index.DiskBspIndex.SplitInternal | src/storage/disk_bsp_index.cpp:1019-1066 | an overflowing inner node becomes three with its right neighbour, or with its left one if it is the last child, keeping invariant and entries; a root always throws |
| Index.DiskBspIndex.StoreOrSplit | src/storage/disk_bsp_index.cpp:782-786 | a rebuilt parent is stored as it is if its bytes fit and split otherwise; with one separator too many it is stored and cut, and is all that is missing from the tree; the levels below keep what they hold |
| Index.DiskBspIndex.HandleChildRemoved | src/storage/disk_bsp_index.cpp:1068-1091 | a node that has lost a child is stored with the others, or repaired when too small, or promoted away as the root, keeping invariant and entries and all levels below |
| Index.DiskBspIndex.StoreParent | src/storage/disk_bsp_index.cpp:826-827 | the parent of two nodes rewritten is stored and its ancestors are told; nothing else holds anything different; tree kept, or it alone is cut |
| Index.DiskBspIndex.SettleRoot | src/storage/disk_bsp_index.cpp:1075-1082 | a root with one child is replaced by it, any other root is stored |
| Index.DiskBspIndex.LeftmostLeaf | src/storage/disk_bsp_index.cpp:570-578 | the first leaf of the tree |
| Index.DiskBspIndex.FixLeafUnderflow | src/storage/disk_bsp_index.cpp:1093-1178 | a leaf that is too small borrows from its left or else its right neighbour, whichever can spare an entry, and is otherwise merged with the left or else the right one, with exactly these contents, at any height; it throws when it has no neighbour, and with integers where inner nodes have two children it never does; in two levels of integers it leaves a sound tree exactly unless the repair takes a child too many |
| Index.DiskBspIndex.BorrowEntry | src/storage/disk_bsp_index.cpp:1109-1137 | borrows the neighbour's entry from the left leaf if that can spare one, else from the right leaf if that can, else changes nothing, for all keys |
| Index.DiskBspIndex.MergeShortLeaf | src/storage/disk_bsp_index.cpp:1139-1178 | merges with the left leaf, or with the right one if it is the first child, keeping invariant and entries; throws when there is neither |
| Index.DiskBspIndex.BorrowFromLeft | src/storage/disk_bsp_index.cpp:1112-1121 | the last entry of the left leaf moves over and nothing else holds anything different; tree kept |
| Index.DiskBspIndex.BorrowFromRight | src/storage/disk_bsp_index.cpp:1127-1136 | the first entry of the right leaf moves over and nothing else holds anything different; tree kept |
| Index.DiskBspIndex.MergeLeaves | src/storage/disk_bsp_index.cpp:1139-1177 | two leaves become one that holds the entries of both, or three with equal shares exactly when one page does not fit them; tree kept; for integers three at 256 children cut the parent |
| Index.DiskBspIndex.RedistributeLeaves | src/storage/disk_bsp_index.cpp:789-828 | two leaves become three with equal shares and their parent lists the new one between them, nothing else changes; tree kept, or the parent is cut and all that is missing, at any height; for integers it returns, and cuts exactly at 256 children |
| Index.DiskBspIndex.FixInternalUnderflow | src/storage/disk_bsp_index.cpp:1180-1271 | an inner node that is too small gets the last child of its left neighbour, or else the first of its right one, whichever can spare a child, and is otherwise merged with the left or else the right one, recursively upwards, with exactly these contents, keeping invariant, entries and all levels below; with integers it never throws where inner nodes have two children |
| Index.DiskBspIndex.BorrowChildFromLeft | src/storage/disk_bsp_index.cpp:1205-1216 | the last child of the left node moves over and nothing else holds anything different; tree kept |
| Index.DiskBspIndex.BorrowChildFromRight | src/storage/disk_bsp_index.cpp:1222-1233 | the first child of the right node moves over and nothing else holds anything different; tree kept |
| Index.DiskBspIndex.MergeInners | src/storage/disk_bsp_index.cpp:1236-1270 | the first of two inner nodes takes the children of both, or each gets half of them, the first one more, exactly when they do not fit one page; tree kept |
| Index.DiskBspIndex.SecondIsNotFirst | src/storage/disk_bsp_index.cpp:1149 | the leaf that a merge drops is never the first leaf of the index |
| Index.DiskBspIndex.Insert | src/storage/disk_bsp_index.cpp:1273-1310 | the map gained exactly the key and the whole invariant holds, or one node was cut and with it restored they do, which never happens to keys of ten bytes or more; NULL, oversized and present keys are refused without effect, and keys of another type unless the index is empty; an integer index of any height accepts every other key without throwing and is sound afterwards exactly unless stuck |
| Index.DiskBspIndex.StoreGrown | src/storage/disk_bsp_index.cpp:1299-1304 | the leaf with the new entry is stored as it is if it fits, else divided under a new root or relieved as `SplitLeaf` says |
| Index.DiskBspIndex.StoreShrunk | src/storage/disk_bsp_index.cpp:1341-1351 | the leaf without the entry is stored if it is the root or large enough, its separators following its first key, and repaired as `FixLeafUnderflow` says otherwise |
| Index.DiskBspIndex.Erase | src/storage/disk_bsp_index.cpp:1312-1351 | the map lost exactly the key and the whole invariant holds; with two levels or less a cut node is all that is missing, with keys of ten bytes or more none is cut; absent keys change nothing; a value that is no key removes the first entry of the last leaf; an integer index of any height in which every inner node has two children never throws and keeps that; integer indexes of two levels throw exactly when marooned and are sound afterwards exactly unless jammed |
| Index.DiskBspIndex.NoKeyMeansLast | src/storage/disk_bsp_index.cpp:539-557 | NULL and values of another type lead to the last leaf and compare equal to its first key |
| Index.DiskBspIndex.CutIsNotValid | src/storage/disk_bsp_index.cpp:271-274 | an index cut down to one leaf is not a valid index |
| Index.DiskBspIndex.CalmIsNotMarooned | src/storage/disk_bsp_index.cpp:1160-1162 | an index of integers grown key by key never has a leaf without neighbours below its root |
| Index.DiskBspIndex.SmallIsNotStuck | src/storage/disk_bsp_index.cpp:830-876 | up to 18175 integers no key finds the index stuck |
| Index.DiskBspIndex.SmallIsNotJammed | src/storage/disk_bsp_index.cpp:1093-1178 | up to 18175 integers no erasure finds the index jammed |
| Limits.FullIndexLosesKeys | src/storage/disk_bsp_index.cpp:782-786 | an index of the integers 0 to 54783 can be built; inserting any other integer then returns, and at most a page of those keys is found afterwards |
| Limits.FullIsStuck | src/storage/disk_bsp_index.cpp:830-857 | with 256 full leaves the index is stuck for every key |
| BulkBuild.CheckInput | src/storage/disk_bsp_index.cpp:312-325 | accepts exactly strictly increasing, non-null keys of one type and at most 512 bytes |
| BulkBuild.BuildLeaves | src/storage/disk_bsp_index.cpp:351-380 | consecutive leaves that fit and hold exactly the input, beginning with the keys that its sizes determine; for integers as few as possible |
| BulkBuild.LinkLeaves | src/storage/disk_bsp_index.cpp:382-387 | each leaf leads to the next, the last to none |
| BulkBuild.Group | src/storage/disk_bsp_index.cpp:393-412 | the next inner node: consecutive children with exact separators that fit, as many as their sizes determine and at least two while there are two, so the throw at 411 is unreachable |
| BulkBuild.BuildLevel | src/storage/disk_bsp_index.cpp:390-425 | a sound level over the one below, about half as long or less; it never throws, and a node is cut exactly when the sizes give one more than 256 children, for integers exactly above 256 leaves; of 257 the first remains |
| BulkBuild.BulkBuild | src/storage/disk_bsp_index.cpp:310-429 | a valid index of exactly the input, which is refused exactly when it is no list of keys in order; sound if and only if the sizes of the keys give no node more than 256 children, for integers up to 54784, and for keys of ten bytes or more always; with 257 leaves of integers the root is cut and the call returns; every inner node has two children exactly when the sizes leave none alone, always with integers |
| Lookup.Cursor.At | src/storage/disk_bsp_index.cpp:84-97 | a cursor on the n-th entry of the index, or at the end |
| Lookup.Cursor.Advance | src/storage/disk_bsp_index.cpp:99-124 | moves to the next entry in key order, across leaves, and stays at the end |
| Lookup.Begin | src/storage/disk_bsp_index.cpp:534-537 | the first entry, or the end of an empty index |
| Lookup.LowerBound | src/storage/disk_bsp_index.cpp:473-511 | the position a linear search of all entries would give, even in the next leaf; the start of the last leaf for a value that is no key |
| Lookup.UpperBound | src/storage/disk_bsp_index.cpp:513-532 | the same for the first entry above the key; the end for a value that is no key |
| Lookup.Find | src/storage/disk_bsp_index.cpp:458-495 | the entry with exactly that key, or the end when there is none; the first entry of the last leaf for a value that is no key |
| Lookup.SearchFinds | src/storage/disk_bsp_index.cpp:458-495 | following the separators and looking through one leaf finds a key exactly when it is present, at any height |
| Lookup.CutFindsFew | src/storage/disk_bsp_index.cpp:458-495 | of all keys an index that has been cut finds those of one page |
| Lookup.CollectRange | src/storage/table.cpp:147-164 | the ids a linear scan finds within the bounds, in key order; always a stretch of the entries; nothing for an upper bound of another type |
| Reference.DepthIsLevel | src/storage/disk_bsp_index.cpp:310-429 | following children d times from the root lists one level of the invariant |
| Reference.NoPageTwice | src/storage/disk_bsp_index.cpp:310-429 | no page of a valid index is reached twice, and leaves are exactly the pages at the last depth |
| Reference.TraversalIsItems | src/storage/disk_bsp_index.cpp:534-537 | traversing from the root meets the entries in strictly increasing order, `size_` of them |
| Reference.ValidIsBTree | src/storage/disk_bsp_index.cpp:580-620 | a valid, non-empty index is a B+-tree with exact separators |
| Reference.ChainIsLeaves | src/storage/disk_bsp_index.cpp:99-124 | following `next_leaf` visits exactly the leaves of the tree from left to right and ends |
| Runs.Replay | src/storage/disk_bsp_index.cpp:1273-1351 | any run acts on the contents as on a map up to the first call that throws or cuts; integer indexes whose inner nodes have two children each never throw and stay so; grown ones are not cut below 18176 keys |
| Runs.Life | src/storage/disk_bsp_index.cpp:126-1351 | an index created empty and put through such a run is a B+-tree of the map the run describes, chain and order included, and at most two levels high |
| Tables.EraseFromOrder | src/storage/table.cpp:215-217 | the order without that id, all else in place |
| Tables.ExactFinds | src/storage/table.cpp:127-145 | a value is in the exact index exactly when some row has it |
| Tables.ExactUnique | src/storage/table.cpp:318-346 | only one map is the exact index of a column |
| Tables.RebuiltExact | src/storage/table.cpp:329-344 | sorted entries of a column give its exact index |
| Tables.Table.IndexFind | src/storage/table.cpp:139-145 | the id the index maps the value to, if any |
| Tables.Table.InstallIntoIndexes | src/storage/table.cpp:170-177 | every index gains the row's value |
| Tables.Table.RemoveFromIndexes | src/storage/table.cpp:179-186 | every index loses the row's value |
| Tables.Table.AcceptableMeans | src/storage/table.cpp:109-137 | an acceptable row has one value per column, NULL only where neither NOT NULL nor an index forbids it, every other value of the column's type, and no indexed value of another row |
| Tables.Table.EnforceConstraints | src/storage/table.cpp:109-137 | succeeds exactly for such a row |
| Tables.Table.Insert | src/storage/table.cpp:188-195 | an acceptable row is appended under the next id with the indexes exact; any other is refused and nothing changes |
| Tables.AssignedTakesThem | src/storage/table.cpp:200-203 | after the assignments a column has the value last assigned to it, or its old value when none was |
| Tables.Table.Update | src/storage/table.cpp:197-208 | the row is replaced in place with the indexes exact, each column taking the last value assigned to it and the others staying, or the call is refused and nothing changes, exactly when |
| Tables.Table.Erase | src/storage/table.cpp:210-218 | the row leaves records, order and indexes; a missing row is no error |
| Tables.Table.OpenIndexes | src/storage/table.cpp:36-55 | every indexed column gets the index its file holds, or an empty one, and the indexes agree with the rows |
| Tables.Table.RebuildIndex | src/storage/table.cpp:324-344 | one exact index from the rows; refused only for repeated or oversized values, and sound for up to 54784 integers |
| Tables.Table.RebuildIndexes | src/storage/table.cpp:318-346 | all indexes replaced by exact ones |
| Tables.Table.IndexCollectRange | src/storage/table.cpp:147-164 | rows in strictly ascending order of the column; with bounds of its type exactly those strictly between them or at an included bound; none for an upper bound of another type |
| TableRuns.Replay | src/storage/table.cpp:188-218 | after any run in which no index throws or is cut, records, order, next id and every index agree and are what the run describes |
| TableRuns.Life | src/storage/table.cpp:15-218 | the same from a new table on; integer indexes neither throw nor are cut below 18176 rows |
| TableRuns.RebuildAgrees | src/storage/table.cpp:318-346 | a bulk rebuild is never refused and gives the same maps as the history of changes, with integer indexes for all tables up to 54784 rows |
| TableFile.FileRoundTrip | src/storage/table.cpp:222-392 | parsing a written file restores name, schema with flags and defaults, next id, row order and every cell, whatever bytes follow |
| TableFile.FirstBytes | src/storage/table.cpp:279-281 | a table file begins with 44 54 53 42, version 3, and the name behind its length |
| TableFile.Save | src/storage/table.cpp:269-303 | the bytes written are the image of the table |
| TableFile.Load | src/storage/table.cpp:348-397 | the table that the bytes of a table file describe; of two rows with one id the first counts |
| TableFile.SaveAndLoad | src/storage/table.cpp:269-397 | saving and loading gives the same columns, next id, rows and order |
| TableFile.SaveAndReopen | src/storage/table.cpp:36-55 | a table saved, loaded and bound to its index files again is the table it was, rows and indexes |
| Where.TriTables | src/sql/executor.cpp:54-68 | `tri_or` is SQL's OR; `tri_and` is SQL's AND exactly except for unknown with false; results are never both true and unknown |
| Where.EvalAtomReads | src/sql/executor.cpp:38-45 | a literal is itself; a column reference is the value of the row in the first column of that name and fails exactly when there is none |
| Where.EvalIsSql | src/sql/executor.cpp:70-116 | evaluation fails exactly when SQL's does, and agrees with it except that false may be reported as unknown; SQL reads operands and compares integers and texts by definitions of its own |
| Where.SelectsWhatSqlSelects | src/sql/executor.cpp:49-116 | a row is selected exactly when the condition is true in SQL |
| Where.AndSelects | src/sql/executor.cpp:59-68 | a conjunction selects exactly the rows both sides select |
| Planner.ClausesSelect | src/sql/executor.cpp:149-160 | a row is selected exactly when every clause of the top-level conjunction selects it |
| Planner.Walk | src/sql/executor.cpp:150-160 | the walk appends the clauses from left to right |
| Planner.SwappedHolds | src/sql/executor.cpp:179-187 | `lit op col` and the swapped comparison agree |
| Planner.RefinedAdmits | src/sql/executor.cpp:171-213 | a clause only narrows the hint to what the selected rows satisfy |
| Planner.RefinedIsTight | src/sql/executor.cpp:171-213 | conversely, a row within the bounds a clause has set is selected by that clause |
| Planner.CollectedBounds | src/sql/executor.cpp:168-215 | a candidate hint has a bound exactly when some clause bounds the column, and is for one value exactly when some clause is an equality |
| Planner.CandidateFor | src/sql/executor.cpp:168-214 | the loop collects what all clauses add, and the hint admits every row all clauses select |
| Planner.DeriveIndexHint | src/sql/executor.cpp:144-221 | the hint of the first indexed column that some clause bounds, and none exactly when there is no such column; it admits every selected row |
| Planner.SelectCandidates | src/sql/executor.cpp:223-239 | rows of the table, each once, among them every row WHERE accepts: all in table order without a hint, at most one with an equality, and otherwise exactly those within the bounds in ascending order of the hinted column |
| Statements.MatchedRows | src/sql/executor.cpp:318-325 | the accepted candidates in the order of the candidates, which are the rows of a full scan, each once: in table order when no clause bounds an indexed column, else ascending in the first such column; fails exactly when the condition fails on a candidate |
| Statements.DeleteRows | src/sql/executor.cpp:355 | the listed rows go, the rest keep their order, and the indexes stay exact |
| Statements.ExecDelete | src/sql/executor.cpp:343-358 | exactly the accepted rows go, the order is the old one without them, the indexes stay exact; with sound integer indexes below 18176 rows it fails exactly when the condition fails on a candidate, and then changes nothing |
| Updates.ResolveColumns | src/sql/executor.cpp:311-316 | the columns SET names, or a failure exactly when one is unknown |
| Updates.EvaluateSets | src/sql/executor.cpp:328-335 | right-hand sides evaluated on the row as it was |
| Updates.NewRowTakesSets | src/sql/executor.cpp:328-335 | a new row has in every column what the last SET clause for it stands for in the old row, or the old value |
| Updates.UpdateInAnyOrder | src/sql/executor.cpp:326-338 | a set of updates succeeds in every order if and only if the new rows conform and their indexed values differ from all old and new values of other rows |
| Updates.UpdateOrderMatters | src/sql/executor.cpp:326-338 | UPDATE SET k = n on two rows: taken in one order it succeeds, in the other it does not |
| Updates.ClashFreeSteps | src/sql/executor.cpp:326-338 | without clashes every order succeeds with the same result |
| Statements.UpdateRows | src/sql/executor.cpp:326-338 | the loop gets through exactly when taking the rows in that order does, and leaves those rows |
| Statements.ExecUpdate | src/sql/executor.cpp:307-341 | the matched rows are fixed first; each takes every SET column's right-hand side on its own old values and keeps the rest, no other row changes; when the condition fails on a candidate nothing changes, and otherwise, with sound indexes, it succeeds exactly when taking the rows in the order of the plan does, so always when nothing clashes |
| Statements.TallyPermutation | src/sql/executor.cpp:417-448 | counts and sums do not depend on the order of the rows |
| Statements.ExecAggregate | src/sql/executor.cpp:414-448 | COUNT(*), COUNT and SUM are those over the rows of a full scan; fails exactly when the condition fails on a candidate or a sum meets a text |
| Statements.ExecSelect | src/sql/executor.cpp:479-492 | one result row for every row of the full scan in the order of the plan, whose k-th value is that of the k-th listed column; fails exactly when the condition fails on a candidate |

## Left out
- File streams, paths, renames and I/O errors: a page file is a sequence of pages and a table file a sequence of bytes.
- Page ids and record ids are unbounded in the tree and table models; `PageCodec.Numbered` and `TableFile.Storable` state the widths under which they are stored faithfully.
- Index.DiskBspIndex.WritePage: of a node with 257 separators or more nothing is claimed but that it is cut, because what is then taken for separators are bytes of child ids, read past the page if they ask for it; only bulk builds and merged inner nodes can have so many.
- Index.DiskBspIndex.MergeInners: stops when the merged node has been cut, while the original goes on with the parent; so for `FixInternalUnderflow` and for erasures in an index of three or more levels with keys of less than ten bytes.
- BulkBuild.BuildLevel: stops at the first node that is cut; the original builds on over such nodes, which can happen only when one is not alone on its level.
- Tables.Table.Insert: stops when an index has been cut, while the original goes on with the other indexes and the rows; so for `Update`, `Erase` and the statements.
- Index.DiskBspIndex.ReadNode: a page with an invalid key is a failure at once; the original decodes keys only when it compares them, and reads past the page for a key length beyond it.
- PageCodec.ReadEntries: the same.
- PageStore.ReadNode: the same.
- Index.DiskBspIndex.Open: says what a file left by an index gives, and not what an arbitrary file gives; so for `Tables.Table.OpenIndexes`.
- Index.DiskBspIndex.Insert: when it throws is stated exactly for integers, and otherwise only that it does not while every leaf has room; with other keys of equal size the leaves behave as with integers (`Nodes.EqualSharesFit`), but when the root is full is not stated, and with keys of different sizes a split by count may not fit.
- Index.DiskBspIndex.Erase: for integers in more than two levels only that it does not throw is stated, not when a node is cut; neither insertions nor a sound bulk build make such an index. With other keys it throws when the leaf is marooned, and may throw elsewhere.
- Runs.Replay: runs erase keys only; what a value that is no key removes depends on the leaves and not on the map alone.
- TableFile.Load: bytes that are cut short or name an unknown column type are refused here, while the original does not look at the state of its stream and goes on with whatever its variables hold.
- Statements.ExecAggregate: one column at a time and mathematical integers for the sum; `long double`, AVG and the labels of the result are not modelled.
- PageCache.Pager.ReadPage: a page that was skipped and is beyond the end of the file fails to read; runs write pages in order.
- `bulk_build_guard` keeps its checks of keys; the estimate of memory is left out.
- `std::regex` in LIKE is a parameter that may fail.
- String interning: texts are values, so equality of ids is equality of contents.
- INSERT with column lists and defaults, JSON output, `Dbms` and `Database`, the parser, server and client: they would add only easy members.
- The legacy versions 1 and 2 of the table file.
- The state of index and table after a failure inside the index: the original does not recover either.
