# Maps: an AVL TreeMap and a chained HashMap, modelled in Dafny

The repository implements two associative containers with the same
interface: `aisdi::TreeMap` and `aisdi::HashMap`. Both offer insertion
through `operator[]`, lookup (`valueOf`, `find`), removal by key or by
iterator, size queries, equality, and bidirectional const iterators that
throw `std::out_of_range` when they run off either end.

- **TreeMap** (`src/TreeMap.h`) keeps its entries in an AVL tree whose root
  hangs under a guard node. The guard plays the part of `end()`.
- **HashMap** (`src/HashMap.h`) keeps its entries in a fixed array of
  `BUCKETS_NUMBER` `std::list` buckets. A key goes into the bucket at
  `std::hash(key) % BUCKETS_NUMBER`. Iteration runs through the buckets in
  index order.

The model has six modules.

| module | file | contents |
|---|---|---|
| `Common` | `common.dfy` | Errors and results. A thrown `std::out_of_range` becomes a `Failure`/`Fail` value. Also the two ways a list of pairs becomes a map: `FirstWins` for `AVLTree::insert`, which never overwrites, and `LastWins` for `operator[] =`. |
| `Avl` | `avl.dfy` | The AVL algorithms as functions on a value tree: height, the four rotations, `rebalance`, insertion, deletion, minimum and maximum, and in-order successor and predecessor. Also the height bound that balance gives. |
| `TreeMaps` | `treemap.dfy` | The TreeMap iterator as cursor functions (`AtKey(k)`, or `AtEnd` for the guard). Also `class TreeMap`, whose `root` and `size` the methods update in place, with the lookup loops of `findKey` and `getFirstNode`. |
| `Buckets` | `buckets.dfy` | The bucket table as a sequence of buckets. It defines the map the table stands for, the placement invariant, and how the entry order of `cbegin()`…`cend()` lines up with bucket positions. It also proves the bucket-level facts behind insertion, overwrite and removal. |
| `HashCursors` | `hashcursor.dfy` | The HashMap iterator as `(bucket index, position)`, with `++`, `--` and `*` as functions. Also the iterator's walk through all entries, and `--` as the source writes it. |
| `HashMaps` | `hashmap.dfy` | `class HashMap`. Its bucket array is an `array` the methods update in place, and `size` is a field. Every lookup is a loop over one bucket, and `cbegin`, `cend`, `++` and `--` are loops over buckets. |

Invariants:
- A TreeMap is `Valid()` when the tree is a binary search tree, is AVL-balanced, and `size` equals its number of keys.
- A HashMap is `Valid()` when every entry sits in the bucket its key hashes to, no bucket repeats a key, and `size` equals the number of entries.

Every state-changing method keeps `Valid()`. Every state-changing method also states the new map in terms of the old one.

Some things outside the model become parameters:
- The bucket count is the length of the array, which can be any positive number. The source fixes it at 64000.
- `std::hash` is a function `hash` that the HashMap constructor receives.
- The default value `mapped_type()` is a field `dflt` that each constructor receives.

## Model

| member | source | states |
|---|---|---|
| `Common.FirstWins` | src/TreeMap.h:38-43 | The map built by inserting pairs without overwriting has exactly the keys of the list. |
| `Common.FirstWinsKeepsFirst` | src/TreeMap.h:38-43 | The first occurrence of a key decides its value when later inserts do not overwrite. |
| `Common.FirstWinsStep` | src/TreeMap.h:40-42 | One more insert of a pair leaves a present key alone and adds an absent one. |
| `Common.LastWins` | src/HashMap.h:42-48 | The map built by assigning pairs in order has exactly the keys of the list. |
| `Common.LastWinsKeepsLast` | src/HashMap.h:42-48 | The last occurrence of a key decides its value when each pair is assigned. |
| `Common.LastWinsStep` | src/HashMap.h:45-47 | One more `(*this)[k] = v` updates the map at `k`. |
| `Common.LastWinsCard` | src/HashMap.h:193-196 | With distinct keys, the map has as many keys as the list has pairs. |
| `Avl.HeightZeroIffEmpty` | src/TreeMap.h:390-393 | `height` is 0 exactly for the empty tree. |
| `Avl.HeightAtMostSize` | src/TreeMap.h:390-393 | No downward path is longer than the number of nodes. |
| `Avl.RotateRight` | src/TreeMap.h:395-412 | A right rotation keeps the in-order sequence, hence the map and the search-tree order. |
| `Avl.RotateLeft` | src/TreeMap.h:414-431 | A left rotation keeps the in-order sequence, the map and the order. |
| `Avl.RotateLeftRight` | src/TreeMap.h:433-436 | The double left-right rotation keeps the in-order sequence, the map and the order. |
| `Avl.RotateRightLeft` | src/TreeMap.h:438-441 | The double right-left rotation keeps the in-order sequence, the map and the order. |
| `Avl.RightRotationKeepsOrder` | src/TreeMap.h:395-412 | The two shapes a rotation exchanges are search trees together or not at all. |
| `Avl.SingleRightBalances` | src/TreeMap.h:447-449 | A left-heavy node whose left child is not right-heavy becomes balanced by one right rotation, with bounded height. |
| `Avl.DoubleLeftRightBalances` | src/TreeMap.h:447-450 | A left-heavy node whose left child is right-heavy becomes balanced by the left-right rotation, at the left child's height. |
| `Avl.SingleLeftBalances` | src/TreeMap.h:452-454 | This mirrors `Avl.SingleRightBalances` for a right-heavy node. |
| `Avl.DoubleRightLeftBalances` | src/TreeMap.h:452-455 | This mirrors `Avl.DoubleLeftRightBalances` for a right-heavy node. |
| `Avl.Rebalance` | src/TreeMap.h:443-457 | `rebalance` at one node keeps the in-order sequence, the map and the order. |
| `Avl.RebalanceRestoresBalance` | src/TreeMap.h:443-457 | A node whose balanced children differ in height by at most 2 is balanced after `rebalance`. It is left unchanged when they differ by at most 1. |
| `Avl.Inserted` | src/TreeMap.h:224-266 | Insertion keeps the search-tree order. It adds an absent key with the given value and leaves a present key's value alone. |
| `Avl.InsertedBalanced` | src/TreeMap.h:224-266 | Insertion with rebalancing keeps the tree balanced. The height grows by at most one, and a present key leaves the tree unchanged. |
| `Avl.Assigned` | src/TreeMap.h:92-95 | A write through the returned reference changes a present key's value only. Every key stays at its node (`SameShape`), and height and balance stay the same. |
| `Avl.RemoveMin` | src/TreeMap.h:325-346 | Unlinking the in-order successor's subtree minimum yields the least key and its value, plus a search tree holding the rest. |
| `Avl.RemoveMinBalanced` | src/TreeMap.h:341-348 | Unlinking the minimum with rebalancing keeps balance. The height drops by at most one. |
| `Avl.Deleted` | src/TreeMap.h:314-383 | `deleteKey` keeps the search-tree order and removes exactly the key. |
| `Avl.DeletedBalanced` | src/TreeMap.h:314-383 | Deletion with rebalancing keeps the tree balanced. The height drops by at most one. |
| `Avl.ContentsOfInOrder` | src/TreeMap.h:498-521 | The map is the map of the in-order entry sequence. |
| `Avl.InOrderKeysIn` | src/TreeMap.h:498-521 | Every key met in order is a key of the map. |
| `Avl.InOrderSorted` | src/TreeMap.h:498-521 | In a search tree, the in-order keys are strictly increasing. |
| `Avl.InOrderEntries` | src/TreeMap.h:142-152 | In-order entries are exactly the map's entries. |
| `Avl.EntryCount` | src/TreeMap.h:137-140 | The number of keys equals the number of in-order entries. |
| `Avl.EmptyIffLeaf` | src/TreeMap.h:87-90 | The map is empty exactly when the tree is empty. |
| `Avl.MinKey` | src/TreeMap.h:296-302 | The leftmost key is the first in-order key and the least key of the map. |
| `Avl.MaxKey` | src/TreeMap.h:538-541 | The rightmost key is the last in-order key and the greatest key of the map. |
| `Avl.Successor` | src/TreeMap.h:506-518 | `++` on a node gives the least key above it, or none when it holds the greatest key. |
| `Avl.Predecessor` | src/TreeMap.h:538-549 | `--` on a node gives the greatest key below it, or none when it holds the least key. |
| `Avl.SuccessorIsNextInOrder` | src/TreeMap.h:498-521 | The successor of the i-th in-order key is the (i+1)-th key, or none after the last. |
| `Avl.PredecessorIsPrevInOrder` | src/TreeMap.h:530-552 | The predecessor of the i-th in-order key is the (i-1)-th key, or none before the first. |
| `Avl.BalancedHeightIsLogarithmic` | src/TreeMap.h:443-459 | A balanced tree of height h holds at least 2^(h/2) - 1 entries, so lookups walk O(log n) nodes. |
| `TreeMaps.Begin` | src/TreeMap.h:169-172 | `cbegin()` is the guard exactly when the map is empty, and otherwise the least key. |
| `TreeMaps.Next` | src/TreeMap.h:498-521 | `++` fails exactly on the guard. Otherwise it moves to a greater key, or to the guard after the greatest key. |
| `TreeMaps.Prev` | src/TreeMap.h:530-552 | `--` fails exactly at `cbegin()`. Otherwise it moves to a key below, including from the guard. |
| `TreeMaps.Deref` | src/TreeMap.h:561-568 | `*it` fails exactly on the guard. Otherwise it gives the key's entry in the map. |
| `TreeMaps.NextFollowsInOrder` | src/TreeMap.h:498-521 | From the j-th in-order entry, `++` reaches the (j+1)-th entry, or the guard after the last. |
| `TreeMaps.PrevUndoesNext` | src/TreeMap.h:530-552 | `--` from the (j+1)-th position returns to the j-th entry, so `--` inverts `++`. |
| `TreeMaps.WalkVisitsInOrder` | src/TreeMap.h:169-177 | j steps of `++` from `cbegin()` reach the j-th in-order entry. After all of them comes `cend()`, and one more `++` fails. |
| `TreeMaps.PrevFromEndIsLargest` | src/TreeMap.h:530-552 | `--` from `cend()` gives the greatest key. |
| `TreeMaps.EqualByInOrder` | src/TreeMap.h:142-152 | A map as large as the tree that holds each in-order entry equals the tree's map. |
| `TreeMaps.TreeMap.constructor` | src/TreeMap.h:35-36 | A new TreeMap is empty and valid. |
| `TreeMaps.TreeMap.FromList` | src/TreeMap.h:38-43 | The list constructor gives the map where the first occurrence of each key wins. |
| `TreeMaps.FirstWinsCounterexample` | src/TreeMap.h:38-43 | For `{(k, a), (k, b)}` with a != b, the list constructor as written keeps a, where the last-wins reading keeps b. |
| `TreeMaps.TreeMap.FromListOverwriting` | src/TreeMap.h:38-43 | Assigning every pair in order gives the map where the last occurrence of each key wins. |
| `TreeMaps.TreeMap.IsEmpty` | src/TreeMap.h:87-90 | `isEmpty` is true exactly when the map has no keys. |
| `TreeMaps.TreeMap.GetSize` | src/TreeMap.h:137-140 | `getSize` is the number of keys, which is also the number of entries iteration visits. |
| `TreeMaps.TreeMap.FindKey` | src/TreeMap.h:269-282 | The descent from the root finds a node exactly when the key is in the map, and gives its value. |
| `TreeMaps.TreeMap.Insert` | src/TreeMap.h:224-266 | An existing key leaves the tree and size unchanged. A new key is added and the size grows by one. It returns the value now stored. |
| `TreeMaps.TreeMap.Index` | src/TreeMap.h:92-95 | `operator[]` gives the stored value, first inserting the default value when the key is absent. |
| `TreeMaps.TreeMap.Assign` | src/TreeMap.h:92-95 | `m[k] = v` yields the old map updated at k. |
| `TreeMaps.TreeMap.Overwrite` | src/TreeMap.h:94 | A write through the reference to a present key's value changes only that value and keeps the size. |
| `TreeMaps.TreeMap.ValueOf` | src/TreeMap.h:97-111 | `valueOf` fails with not-found exactly when the key is absent. Otherwise it gives the key's value. |
| `TreeMaps.TreeMap.Find` | src/TreeMap.h:113-125 | `find` gives an iterator on the key when it is present, and `cend()` otherwise. |
| `TreeMaps.TreeMap.CBegin` | src/TreeMap.h:169-172 | The walk to the leftmost node gives `cbegin()`. |
| `TreeMaps.TreeMap.Remove` | src/TreeMap.h:127-130 | Removing an absent key fails and changes nothing. Otherwise exactly that key goes and the size drops by one. |
| `TreeMaps.TreeMap.RemoveAt` | src/TreeMap.h:132-135 | Removal at `cend()` fails on the dereference and changes nothing. Otherwise the iterator's key is removed. |
| `TreeMaps.TreeMap.Equals` | src/TreeMap.h:142-152 | `operator==` is true exactly when the two maps are equal, whatever the trees' shapes. |
| `Buckets.FlattenStep` | src/HashMap.h:300-320 | Iteration order through buckets 0..i is that through 0..i-1 followed by bucket i. |
| `Buckets.FlattenAppend` | src/HashMap.h:300-320 | Iteration order over concatenated tables is the concatenation of the two orders. |
| `Buckets.FlattenSplit` | src/HashMap.h:300-320 | Iteration order splits into the buckets before h, bucket h, and the buckets after. |
| `Buckets.OffsetFacts` | src/HashMap.h:300-320 | Entries of bucket 0 start at position 0, and those after the last bucket end at the entry count. |
| `Buckets.OffsetIsPrefixLength` | src/HashMap.h:300-320 | The entries before bucket i in iteration order are exactly those of buckets 0..i-1. |
| `Buckets.OffsetGap` | src/HashMap.h:306-316 | Empty buckets take no iteration positions. |
| `Buckets.Locate` | src/HashMap.h:283-285 | Every iteration position is one bucket and one position in it. |
| `Buckets.LocateUnique` | src/HashMap.h:283-285 | The bucket and position of an entry are the ones its iteration position locates. |
| `Buckets.EntryPosition` | src/HashMap.h:359-364 | The entry at bucket i, position j, is the entry at its iteration position. |
| `Buckets.GlobalDistinct` | src/HashMap.h:99-111 | With keys placed by hash and distinct per bucket, no key appears twice in the whole table. |
| `Buckets.SizeIsCount` | src/HashMap.h:193-196 | The number of keys equals the number of entries in the buckets. |
| `Buckets.EmptyTable` | src/HashMap.h:227-240 | The table has no entries exactly when every bucket is empty. |
| `Buckets.FlattenEntries` | src/HashMap.h:198-208 | Each entry met in iteration order is an entry of the map. |
| `Buckets.FlattenCovers` | src/HashMap.h:198-208 | Each key of the map is met in iteration order. |
| `Buckets.EqualByEntries` | src/HashMap.h:198-208 | A map as large as the table that holds every entry met in iteration is the table's map. |
| `Buckets.MissingEntryDiffers` | src/HashMap.h:204 | A map lacking one entry met in iteration is not the table's map. |
| `Buckets.EntryInMap` | src/HashMap.h:104-105 | An entry found in a bucket is an entry of the map. |
| `Buckets.AbsentFromBucket` | src/HashMap.h:119-127 | A key absent from its own bucket is absent from the map. |
| `Buckets.KeyOnlyInItsBucket` | src/HashMap.h:101 | A key can be in the map only through its own bucket. |
| `Buckets.ReplaceBucket` | src/HashMap.h:108 | Replacing one bucket changes iteration order and the map only in that bucket's part. |
| `Buckets.ReplaceBucketValid` | src/HashMap.h:108 | A replacement bucket with distinct keys that all hash to it keeps the table valid. |
| `Buckets.BucketAppend` | src/HashMap.h:108 | Appending a new key to a bucket adds it to the bucket's map. |
| `Buckets.BucketAround` | src/HashMap.h:104-105 | A bucket's map is its prefix, its j-th entry and its suffix. The j-th key is in neither part. |
| `Buckets.BucketOverwrite` | src/HashMap.h:105 | Writing a present key's value in its bucket updates only that key. |
| `Buckets.BucketErase` | src/HashMap.h:180 | Erasing the j-th entry of a bucket removes exactly its key from the bucket's map. |
| `Buckets.BucketEraseDistinct` | src/HashMap.h:180 | Erasing an entry keeps a bucket's keys distinct. |
| `Buckets.AppendNew` | src/HashMap.h:108-109 | Appending an absent key's pair to its bucket keeps the table valid, adds the key, and adds one entry. |
| `Buckets.OverwriteEntry` | src/HashMap.h:105 | A write through the reference to a found entry keeps the table valid and updates only that key. |
| `Buckets.RemoveEntry` | src/HashMap.h:180-181 | Erasing an entry keeps the table valid, removes exactly its key, and leaves one entry fewer. |
| `Buckets.EraseFromMap` | src/HashMap.h:180-181 | Erasing an entry removes exactly its key from the map and leaves one entry fewer. |
| `Buckets.Without` | src/HashMap.h:180 | `std::list::remove` leaves no element equal to the removed value. |
| `Buckets.WithoutCounts` | src/HashMap.h:180 | `remove` keeps every other element as often as it occurs: the multiset loses exactly the removed value. |
| `Buckets.WithoutAppend` | src/HashMap.h:180 | `remove` keeps the order of the rest: removing from a concatenation removes from each part. |
| `Buckets.WithoutAbsent` | src/HashMap.h:180 | `remove` of a value that is not in the bucket changes nothing. |
| `Buckets.WithoutOne` | src/HashMap.h:180 | With distinct keys, `remove(*it)` erases exactly the iterator's entry. |
| `HashCursors.FirstNonEmpty` | src/HashMap.h:228-234 | The forward bucket scan stops at the first non-empty bucket from i, or after the last bucket. |
| `HashCursors.LastNonEmptyBelow` | src/HashMap.h:241-247 | The backward bucket scan stops at the last non-empty bucket below i, or at -1. |
| `HashCursors.BeginOf` | src/HashMap.h:225-236 | `cbegin()` is at position 0 of a bucket. Every bucket before it is empty, and it is non-empty unless the whole table is. For an empty map it is in bucket 0. |
| `HashCursors.EndOf` | src/HashMap.h:238-249 | `cend()` is at the end of a bucket. Every bucket after it is empty, and it is non-empty unless the whole table is. For an empty map it is in bucket 0. |
| `HashCursors.NextOf` | src/HashMap.h:300-320 | `++` fails exactly at the end of the iterator's bucket, with an access error. Otherwise it gives a valid iterator. |
| `HashCursors.PrevOf` | src/HashMap.h:329-350 | `--` fails only at a bucket's front, with an access error. Otherwise it lands on an entry. |
| `HashCursors.DerefOf` | src/HashMap.h:359-364 | `*it` fails exactly at the end of a bucket. Otherwise it gives the entry at that bucket position, which is also the entry at its iteration position. |
| `HashCursors.Walk` | src/HashMap.h:300-320 | Repeated `++` keeps the iterator valid. |
| `HashCursors.LastNonEmptyOffset` | src/HashMap.h:241-247 | The buckets after the last non-empty one below b take no iteration positions. |
| `HashCursors.LastNonEmptyIs` | src/HashMap.h:241-247 | A non-empty bucket followed by empty ones up to b is the scan's answer. |
| `HashCursors.LastNonEmptyNone` | src/HashMap.h:241-247 | When all buckets below b are empty, the scan finds none. |
| `HashCursors.EndIsAfterAll` | src/HashMap.h:238-249 | `cend()` is a valid iterator one past the last entry, at the end of its bucket. |
| `HashCursors.BeginIsFirst` | src/HashMap.h:225-236 | `cbegin()` is the iterator on the first entry in iteration order, or `cend()` for an empty map. |
| `HashCursors.NextStepsForward` | src/HashMap.h:300-320 | From the p-th entry, `++` reaches the (p+1)-th entry, or `cend()` after the last. |
| `HashCursors.PrevFromEntry` | src/HashMap.h:329-350 | From the (p+1)-th entry, `--` reaches the p-th entry. |
| `HashCursors.PrevFromEnd` | src/HashMap.h:329-350 | From `cend()` of a non-empty map, `--` reaches the last entry. |
| `HashCursors.PrevStepsBack` | src/HashMap.h:329-350 | `--` inverts `++` on every position after `cbegin()`. |
| `HashCursors.PrevAtBeginFails` | src/HashMap.h:336-349 | `--` at `cbegin()` fails with an access error. |
| `HashCursors.WalkVisitsAll` | src/HashMap.h:198-208 | p steps of `++` from `cbegin()` reach the p-th entry, whose dereference gives it. After the last entry comes `cend()`, whose dereference and next `++` fail. |
| `HashCursors.ScanFindsLast` | src/HashMap.h:338-347 | The scan as written finds the last non-empty bucket when there is one. |
| `HashCursors.ScanOverEmpties` | src/HashMap.h:338-347 | The scan as written, over buckets that are all empty, wraps the unsigned counter and reads bucket 2^64-1. |
| `HashCursors.ScanDownAsWritten` | src/HashMap.h:338-347 | The unsigned downward scan never throws. When it moves, it lands on the last entry of the highest non-empty bucket at or below i, past only empty buckets. Otherwise it reads a bucket index at or beyond the table's length. |
| `HashCursors.PrevAsWritten` | src/HashMap.h:329-350 | `--` as written throws only at bucket 0, position 0. A move lands on an entry in a bucket no later than the start. Any other outcome reads out of bounds. |
| `HashCursors.PrevAsWrittenAgrees` | src/HashMap.h:329-350 | Wherever the intended `--` succeeds, `--` as written moves to the same iterator. |
| `HashCursors.PrevAsWrittenOverrunsAtBegin` | src/HashMap.h:329-350 | At `cbegin()` outside bucket 0, `--` as written reads out of bounds where the intended one throws. |
| `HashCursors.PrevAsWrittenCounterexample` | src/HashMap.h:338-347 | The concrete table with one entry in bucket 1 shows the overrun. |
| `HashMaps.HashMap.constructor` | src/HashMap.h:38-40 | A new HashMap has empty buckets, size 0 and an empty map. |
| `HashMaps.HashMap.FromList` | src/HashMap.h:42-48 | The list constructor gives the map where the last occurrence of each key wins. |
| `HashMaps.HashMap.IsEmpty` | src/HashMap.h:94-97 | `isEmpty` is true exactly when the map has no keys. |
| `HashMaps.HashMap.GetSize` | src/HashMap.h:193-196 | `getSize` is the number of keys and of entries. |
| `HashMaps.HashMap.Slot` | src/HashMap.h:99-111 | The scan of the key's bucket finds its entry and leaves the table unchanged. Otherwise it appends (key, default) to that bucket only, returns the appended position, grows the size by one, and adds the key. |
| `HashMaps.HashMap.Index` | src/HashMap.h:99-111 | `operator[]` gives the stored value, first adding the default value when the key is absent. |
| `HashMaps.HashMap.Assign` | src/HashMap.h:99-111 | `m[k] = v` yields the old map updated at k. For a present key, the entry holding k is overwritten in place. For an absent key, (k, v) is appended to k's bucket. No other bucket changes. |
| `HashMaps.HashMap.ValueOf` | src/HashMap.h:114-144 | `valueOf` fails with not-found exactly when the key is absent. Otherwise it gives its value. |
| `HashMaps.HashMap.CBegin` | src/HashMap.h:225-236 | The forward bucket scan gives `cbegin()`. |
| `HashMaps.HashMap.CEnd` | src/HashMap.h:238-249 | The backward bucket scan gives `cend()`. |
| `HashMaps.HashMap.Find` | src/HashMap.h:146-172 | `find` gives an iterator in the key's bucket that dereferences to the key's entry, or `cend()` when the key is absent. |
| `HashMaps.HashMap.Next` | src/HashMap.h:300-320 | The loop of `++` computes `HashCursors.NextOf`. |
| `HashMaps.HashMap.Prev` | src/HashMap.h:329-350 | The loop of `--`, stopping after bucket 0, computes the intended `HashCursors.PrevOf`. |
| `HashMaps.HashMap.Remove` | src/HashMap.h:174-182 | Removing an absent key fails and changes nothing. Otherwise exactly that key goes and the size drops by one. The new table is the old one with the position holding k cut out of k's bucket. |
| `HashMaps.HashMap.RemoveAt` | src/HashMap.h:184-191 | Removal at `cend()` fails. Removal at another bucket end fails on the dereference. Otherwise it removes the iterator's entry: the new table is the old one with that position cut out of its bucket. |
| `HashMaps.HashMap.Equals` | src/HashMap.h:198-208 | `operator==` is true exactly when the two maps are equal, whatever the order of entries in the buckets. |

## Left out

- Copy constructors and copy assignment (TreeMap.h:45-50, 60-72, HashMap.h:50-57, 67-80) are not modelled. They re-insert the other map's entries in iteration order, which is what `Equals` and the list constructors already cover. Copy assignment first returns early, leaving the map untouched, when `*this == other`. The result is the same map either way.
- Move constructors and move assignment (TreeMap.h:52-58, 74-85, HashMap.h:59-65, 82-92) are not modelled. They transfer ownership of nodes and lists, which has no counterpart in a value model.
- HashMap's move operations are not modelled, so the model does not capture that they leave the moved-from object's `size` unchanged while its buckets are emptied.
- `clear`, `deleteNode` and the destructors only free memory.
- Node pointers, parent links and the guard node are not modelled as objects. The guard is the cursor `AtEnd`. Walking up parent links in `++` and `--` is modelled as the equivalent descent from the root (`Avl.Successor`, `Avl.Predecessor`).
- `rebalance` after insertion and deletion is modelled bottom-up along the search path, which is the path the parent walk climbs.
- Rotations: the model does not capture that `rightRotation`/`leftRotation` (TreeMap.h:395-431) never update the rotated node's own `parent` link. Parent links are not modelled, so the model shows only the intended shape.
- Deleting a node with two children (TreeMap.h:324-350) has three pointer defects. Memory and parent links are not modelled, so the model shows only the intended result: the successor's entry replaces the deleted one. The defects are:
  - The successor is copied into a fresh node, and that fresh node is deleted (line 339) while the tree still points to it.
  - The fresh node takes over the old node's children (331-333), but their `parent` links still point to the unlinked old node.
  - When the successor is the old node's right child, its `parent` is the old node. The unlink at 344-346 then rewires the old node instead of the replacement, and `rebalance` starts from the old node.
- `operator==` with `!=` on iterators and on maps is covered through `==`. The `Iterator` classes only add mutable access to the same positions as `ConstIterator`.
- Iterators are values. Iterator invalidation after a removal is not modelled.
- `operator->` is covered by `Deref`/`DerefOf`.
- TreeMap keys are modelled as `int`. The source needs only `<`, `>` and `==` on keys.
- HashMap keys are any type with equality. `std::hash` is a parameter.
- The bucket count `BUCKETS_NUMBER` (64000) is the array length. It is a positive parameter, not a constant.
- `size_t` arithmetic does not overflow for any size a map can reach, so `size` is an unbounded `nat`. The exception is the wrap-around in `--`, which is modelled explicitly (see Findings).
- `std::out_of_range` messages are not modelled. Each throw is a `Failure` or `Fail` carrying `NotFound` for a missing key or `InvalidOperation` for a bad iterator step or dereference.
- `src/main.cpp` is not part of this model.
- TreeMaps.TreeMap.Assign does not restate the new `size`. `Valid()` already ties `size` to the number of keys of the stated map.

## Findings

| source | as written | input that shows it | evidently intended | confidence | as-written member | corrected member |
|---|---|---|---|---|---|---|
| src/TreeMap.h:38-43 | The list constructor calls `tree.insert`, which never overwrites, so for a repeated key the first value is kept. `HashMap`'s list constructor (`operator[] =`) keeps the last. | `{(k, a), (k, b)}` with a != b: TreeMap holds (k, a), HashMap holds (k, b). | A later duplicate overwrites an earlier one, as in `HashMap`. | not executed | `TreeMaps.FirstWinsCounterexample` | `TreeMaps.TreeMap.FromListOverwriting` |
| src/HashMap.h:338-347 | `--` scans down with an unsigned `size_t i` while `i >= 0`, which is always true. From `cbegin()` outside bucket 0, past only empty buckets, `i` wraps from 0 to 2^64-1 and `hashTable[i]` reads out of bounds. | Buckets `[[], [(k, v)]]` with the iterator at bucket 1, position 0, i.e. `--cbegin()`. | The scan stops after bucket 0 and reaches the `throw std::out_of_range` at line 349. | not executed | `HashCursors.PrevAsWrittenCounterexample` | `HashCursors.PrevAtBeginFails` |
