# Verified model of a Java data-structures collection

This project is a Dafny model of a teaching collection of data structures
and algorithms written in Java. It covers the following, each with the
properties its code and documentation promise proved about the model:

- ordered sets and maps on binary search trees: a plain BST set, a BST map,
  an AVL tree map and a treap map;
- hash maps: separate chaining and open addressing with linear probing and
  tombstones;
- an unsorted map over a list of entries;
- array- and list-based sets with fail-fast iterators;
- stacks and queues;
- a sentinel doubly linked positional list;
- eight sorting routines;
- an incidence-list sparse graph;
- breadth-first, depth-first and recursive depth-first search;
- union-find and Prim's minimum spanning tree;
- a level-order binary tree printer.

Each source file is one Dafny module, and shared notions get modules of
their own:

- `Outcomes`: Java's `null` as `Option`, thrown exceptions as `Result` errors,
  and Java's `%` and `/`.
- `BinaryTrees`: the tree datatype the four search trees share.
- `SortSpec`: sortedness and rearrangement.
- `SetSpec`: lists without repeats.
- `Hashing`: the prime capacity table and home index.
- `GraphPaths`: adjacency lists and reachability.

The model takes the form of the source:

- Classes whose fields the Java methods update become Dafny classes with
  the same fields and `modifies` frames.
- Fixed-size buffers stay arrays.
- In-place sorts work on arrays.
- Loops stay loops, with the invariants that prove them.
- Each class has a `Valid()` invariant. Each of its methods states the new
  state in terms of a ghost abstraction: `contents`, `elements`, `Keys` and
  the like.

A Java exception becomes an `Err` result that leaves the state unchanged
where the Java code throws before changing anything. `hashCode` is a
function parameter of the hash maps. Keys of ordered structures are
integers.

## Model

| member | source | states |
|---|---|---|
| Outcomes.JavaRem | src/HashTable/ChainingHashMap.java:28-30 | Java's `%` truncates toward zero: the remainder has the sign of the dividend and the size of \|a\| mod b |
| Outcomes.JavaDiv | src/Sorting/HeapSort.java:38 | Java's `/` truncates toward zero: the quotient's size is \|a\| / b and its sign follows `a` |
| SetSpec.SwapLastRemovedMembers | src/Set/ArraySet.java:55-61 | moving the last element into the removed slot keeps the list free of repeats and removes exactly the element at `i` |
| SortSpec.Swap | src/Sorting/HeapSort.java:80-84 | swap exchanges the two cells, changes nothing else and keeps the multiset of the array |
| SortSpec.SwapRearranges | src/Sorting/QuickSort.java:71-75 | a swap inside a range is a rearrangement of that range |
| SortSpec.RearrangedBounds | src/Sorting/QuickSort.java:44-68 | a bound on every element of a range still holds after the range is rearranged |
| SortSpec.FramedRearranged | src/Sorting/MergeSort.java:41-76 | a change confined to a range that keeps the multiset of the whole array rearranges that range |
| Hashing.NextCapacity | src/HashTable/ChainingHashMap.java:50-56 | rehash takes the prime at the advanced index, or twice the capacity plus one once the 23 primes run out |
| Hashing.PrimesMoreThanDouble | src/HashTable/ChainingHashMap.java:12-13 | each prime of the table is more than twice the one before it |
| Hashing.CapacityGrows | src/HashTable/OpenAddressingHashMap.java:33-39 | the capacity is at least 2, and every rehash more than doubles it |
| Hashing.InitialCapacity | src/HashTable/ChainingHashMap.java:21-26 | a fresh table has capacity primes[1] = 5 |
| Hashing.HomeIndex | src/HashTable/ChainingHashMap.java:28-30 | getIndex is a valid bucket index, \|hashCode\| mod capacity, even for a negative hash code |
| Hashing.RehashRestoresLoad | src/HashTable/ChainingHashMap.java:83-86 | after a rehash triggered by one insertion, the load is at most 0.75 again |
| Hashing.NextIndex | src/HashTable/OpenAddressingHashMap.java:75-76 | the probe after cell i wraps around to 0 past the last cell |
| ChainingHashMaps.PrependKeeps | src/HashTable/ChainingHashMap.java:78-83 | prepending a fresh key to its home chain represents the map with that key added, one more element |
| ChainingHashMaps.UnlinkKeeps | src/HashTable/ChainingHashMap.java:99-107 | unlinking a present key's node represents the map without that key, one fewer element |
| ChainingHashMaps.OverwriteKeeps | src/HashTable/ChainingHashMap.java:136-140 | overwriting a present key's value represents the map with that value replaced |
| ChainingHashMaps.BucketMap | src/HashTable/ChainingHashMap.java:28-48 | bucket i holds exactly the keys whose home index is i, each once, with their values |
| ChainingHashMaps.PrefixMap | src/HashTable/ChainingHashMap.java:61-67 | the buckets below i hold exactly the keys whose home index is below i |
| ChainingHashMaps.ChainingHashMap.constructor | src/HashTable/ChainingHashMap.java:21-26 | the empty map, with capacity 5, prime index 1 and no elements |
| ChainingHashMaps.ChainingHashMap.Find | src/HashTable/ChainingHashMap.java:32-48 | a null key throws; otherwise the position of the key's node in its home chain holding its value, or null exactly when the key is absent |
| ChainingHashMaps.ChainingHashMap.FindPrevNode | src/HashTable/ChainingHashMap.java:111-129 | a null or absent key throws; null when the key heads its chain, otherwise the node just before the key's node |
| ChainingHashMaps.ChainingHashMap.Prepend | src/HashTable/ChainingHashMap.java:78-83 | the new node heads its home chain, the map gains the pair, numElements grows by one, and no other bucket changes |
| ChainingHashMaps.ChainingHashMap.Insert | src/HashTable/ChainingHashMap.java:71-88 | a null or duplicate key throws with no change; otherwise the pair is added and counted, and the table is rehashed exactly when 0.75·capacity < numElements |
| ChainingHashMaps.ChainingHashMap.Rehash | src/HashTable/ChainingHashMap.java:50-68 | the next capacity along the prime table, a fresh table, and exactly the same pairs and count |
| ChainingHashMaps.ChainingHashMap.MoveBuckets | src/HashTable/ChainingHashMap.java:61-67 | rehash's outer loop moves every chain of the old table, bucket 0 first |
| ChainingHashMaps.ChainingHashMap.MoveBucket | src/HashTable/ChainingHashMap.java:61-67 | one pass of the outer loop: the chain of bucket i joins the pairs already moved |
| ChainingHashMaps.ChainingHashMap.MoveChain | src/HashTable/ChainingHashMap.java:62-66 | rehash's inner loop moves every node of a chain, head to tail, into the new table |
| ChainingHashMaps.ChainingHashMap.MoveNode | src/HashTable/ChainingHashMap.java:63-65 | one pass of the inner loop: the node joins the pairs already moved |
| ChainingHashMaps.ChainStep | src/HashTable/ChainingHashMap.java:63-65 | the next node of a chain with distinct keys holds a key not yet moved, and moving it adds exactly its pair |
| ChainingHashMaps.ChainingHashMap.Remove | src/HashTable/ChainingHashMap.java:91-109 | a null or absent key throws with no change; otherwise the value is returned, the node is unlinked at the head or after its previous node, other chains are untouched and numElements drops by one |
| ChainingHashMaps.ChainingHashMap.Put | src/HashTable/ChainingHashMap.java:132-141 | a null or absent key throws with no change; otherwise only that key's value changes |
| ChainingHashMaps.ChainingHashMap.Get | src/HashTable/ChainingHashMap.java:144-153 | the value mapped to the key; a null or absent key throws |
| ChainingHashMaps.ChainingHashMap.Has | src/HashTable/ChainingHashMap.java:156-161 | false for null, otherwise whether the key is mapped |
| ChainingHashMaps.ChainingHashMap.Size | src/HashTable/ChainingHashMap.java:164-166 | numElements is the number of keys |
| ChainingHashMaps.ChainingHashMap.Iterator | src/HashTable/ChainingHashMap.java:169-171 | the iteration yields exactly the map's pairs, numElements of them, bucket by bucket and each chain head to tail |
| ChainingHashMaps.ChainingHashMapIterator.constructor | src/HashTable/ChainingHashMap.java:178-182 | a fresh iterator has nothing handed out, and everything in table order remains |
| ChainingHashMaps.ChainingHashMapIterator.HasNext | src/HashTable/ChainingHashMap.java:185-187 | count < numElements exactly when a pair remains |
| ChainingHashMaps.ChainingHashMapIterator.Next | src/HashTable/ChainingHashMap.java:190-203 | throws NoSuchElementException when nothing remains; otherwise it skips empty chain ends and returns the next key in table order |
| OpenAddressingHashMaps.ProbeAdvance | src/HashTable/OpenAddressingHashMap.java:58-59 | one probe step adds the current cell to the path and brings the probe one cell closer to any cell it has not reached |
| OpenAddressingHashMaps.ProbeOrder | src/HashTable/OpenAddressingHashMap.java:52-62 | of two cells, one comes first on a key's probe path |
| OpenAddressingHashMaps.EmptyExists | src/HashTable/OpenAddressingHashMap.java:83-85 | with fewer used cells than cells (as the load bound keeps it) some cell was never used, so every probe stops |
| OpenAddressingHashMaps.EmptyHolds | src/HashTable/OpenAddressingHashMap.java:22-27 | a table of never-used cells represents the empty map |
| OpenAddressingHashMaps.ProbeMiss | src/HashTable/OpenAddressingHashMap.java:54-61 | a probe reaching a never-used cell without meeting a live cell holding the key proves the key absent |
| OpenAddressingHashMaps.ProbeHit | src/HashTable/OpenAddressingHashMap.java:55-57 | a live cell holding the key is that key's only cell and holds its value |
| OpenAddressingHashMaps.PlaceKeeps | src/HashTable/OpenAddressingHashMap.java:71-79 | filling the first never-used cell of a fresh key's probe path represents the map with the key added |
| OpenAddressingHashMaps.TombstoneKeeps | src/HashTable/OpenAddressingHashMap.java:97-98 | a tombstone in place of a present key's cell represents the map without that key |
| OpenAddressingHashMaps.OverwriteKeeps | src/HashTable/OpenAddressingHashMap.java:112 | replacing the value in a present key's cell represents the map with that value replaced |
| OpenAddressingHashMaps.PlaceStep | src/HashTable/OpenAddressingHashMap.java:79-81 | insert's fill keeps the table invariant, with one more element and one more used cell |
| OpenAddressingHashMaps.TombstoneStep | src/HashTable/OpenAddressingHashMap.java:98-99 | remove's tombstone keeps the table invariant, with one element fewer and the same number of used cells |
| OpenAddressingHashMaps.OverwriteStep | src/HashTable/OpenAddressingHashMap.java:112 | put's overwrite keeps the table invariant and both counters |
| OpenAddressingHashMaps.PrefixLive | src/HashTable/OpenAddressingHashMap.java:45-49 | the cells below i hold a key exactly when its cell is below i, and then with its value |
| OpenAddressingHashMaps.LiveMapIsMap | src/HashTable/OpenAddressingHashMap.java:45-49 | the live pairs of the cells are exactly the map, which is what rehash copies |
| OpenAddressingHashMaps.SkipDead | src/HashTable/OpenAddressingHashMap.java:152-154 | a never-used or tombstone cell contributes no key to the iteration |
| OpenAddressingHashMaps.OpenAddressingHashMap.constructor | src/HashTable/OpenAddressingHashMap.java:22-27 | the empty map, with capacity 5, prime index 1 and no used cell |
| OpenAddressingHashMaps.OpenAddressingHashMap.Find | src/HashTable/OpenAddressingHashMap.java:52-62 | the probe returns the index of the live cell holding the key, stepping over tombstones, or -1 exactly when the key is absent |
| OpenAddressingHashMaps.OpenAddressingHashMap.Place | src/HashTable/OpenAddressingHashMap.java:70-81 | a live cell holding the key on the probe path throws with no change; otherwise the pair fills the first never-used cell and both counters grow |
| OpenAddressingHashMaps.OpenAddressingHashMap.Fill | src/HashTable/OpenAddressingHashMap.java:79-81 | the pair takes the never-used cell, the map gains it, and both counters grow by one |
| OpenAddressingHashMaps.OpenAddressingHashMap.Insert | src/HashTable/OpenAddressingHashMap.java:66-86 | a null or duplicate key throws with no change; otherwise the pair is added, and the table is rehashed exactly when 0.75·capacity < numFilledCells |
| OpenAddressingHashMaps.OpenAddressingHashMap.Rehash | src/HashTable/OpenAddressingHashMap.java:33-50 | the next capacity along the prime table, a fresh table, the same pairs and count, and every tombstone gone |
| OpenAddressingHashMaps.OpenAddressingHashMap.Reinitialize | src/HashTable/OpenAddressingHashMap.java:41-44 | no pairs, both counters zero and a fresh table of empty cells of the new capacity |
| OpenAddressingHashMaps.OpenAddressingHashMap.MoveCells | src/HashTable/OpenAddressingHashMap.java:45-49 | rehash's loop reinserts every live pair, and insert neither throws nor rehashes again there |
| OpenAddressingHashMaps.OpenAddressingHashMap.MoveCell | src/HashTable/OpenAddressingHashMap.java:46-48 | one pass of rehash's loop: a live cell's pair joins the pairs already moved |
| OpenAddressingHashMaps.OpenAddressingHashMap.Remove | src/HashTable/OpenAddressingHashMap.java:89-101 | a null or absent key throws with no change; otherwise the value is returned, the cell becomes a tombstone, numElements drops and numFilledCells stays |
| OpenAddressingHashMaps.OpenAddressingHashMap.Put | src/HashTable/OpenAddressingHashMap.java:104-113 | a null or absent key throws with no change; otherwise only that key's value changes |
| OpenAddressingHashMaps.OpenAddressingHashMap.Get | src/HashTable/OpenAddressingHashMap.java:116-125 | the value mapped to the key; a null or absent key throws |
| OpenAddressingHashMaps.OpenAddressingHashMap.Has | src/HashTable/OpenAddressingHashMap.java:128-133 | false for null, otherwise whether the key is mapped |
| OpenAddressingHashMaps.OpenAddressingHashMap.Size | src/HashTable/OpenAddressingHashMap.java:136-138 | numElements is the number of keys |
| OpenAddressingHashMaps.OpenAddressingHashMap.Iterator | src/HashTable/OpenAddressingHashMap.java:141-143 | the iteration yields the keys of the live cells in increasing index order, each key of the map exactly once |
| OpenAddressingHashMaps.OpenAddressingHashMapIterator.constructor | src/HashTable/OpenAddressingHashMap.java:149-155 | the index starts at the first live cell |
| OpenAddressingHashMaps.OpenAddressingHashMapIterator.HasNext | src/HashTable/OpenAddressingHashMap.java:158-160 | currentIndex < capacity exactly when a live cell remains |
| OpenAddressingHashMaps.OpenAddressingHashMapIterator.Next | src/HashTable/OpenAddressingHashMap.java:163-177 | throws NoSuchElementException when no live cell remains; otherwise the next live key, and the index moves to the following live cell |
| ArrayListMaps.EntriesMapKeys | src/Map/ArrayMapUseArrayListForEntries.java:38-48 | a key is mapped exactly when some entry of the list holds it |
| ArrayListMaps.EntriesMapAt | src/Map/ArrayMapUseArrayListForEntries.java:43-46 | with distinct keys, the entry found for a key holds that key's value |
| ArrayListMaps.EntriesMapSize | src/Map/ArrayMapUseArrayListForEntries.java:99-101 | with distinct keys, the list holds one entry per mapped key, so size() counts the keys |
| ArrayListMaps.EntriesMapRemove | src/Map/ArrayMapUseArrayListForEntries.java:74 | taking the entry out of the list removes its key from the map and nothing else |
| ArrayListMaps.EntriesMapUpdate | src/Map/ArrayMapUseArrayListForEntries.java:81 | setting the entry's value changes that key's value and nothing else |
| ArrayListMaps.RenderedShort | src/Map/ArrayMapUseArrayListForEntries.java:113-125 | an empty map prints "{}", a one-entry map "{key: value}" with no separator |
| ArrayListMaps.JoinedAppend | src/Map/ArrayMapUseArrayListForEntries.java:119-121 | ", " goes between consecutive entries only, so two printed runs join with exactly one separator |
| ArrayListMaps.ArrayListMap.constructor | src/Map/ArrayMapUseArrayListForEntries.java:33-35 | an empty map |
| ArrayListMaps.ArrayListMap.Find | src/Map/ArrayMapUseArrayListForEntries.java:38-49 | a null key throws; otherwise the position of the key's entry, or none exactly when the key is unmapped |
| ArrayListMaps.ArrayListMap.FindForSure | src/Map/ArrayMapUseArrayListForEntries.java:52-58 | a null or unmapped key throws; otherwise the entry holding the key |
| ArrayListMaps.ArrayListMap.Insert | src/Map/ArrayMapUseArrayListForEntries.java:61-68 | a null or mapped key throws with no change; otherwise the entry is appended and the map gains the pair |
| ArrayListMaps.ArrayListMap.Remove | src/Map/ArrayMapUseArrayListForEntries.java:71-76 | a null or unmapped key throws with no change; otherwise the entry leaves the list, the others keep their order, and its value is returned |
| ArrayListMaps.ArrayListMap.Put | src/Map/ArrayMapUseArrayListForEntries.java:79-82 | a null or unmapped key throws with no change; otherwise only that key's value changes, in place |
| ArrayListMaps.ArrayListMap.Get | src/Map/ArrayMapUseArrayListForEntries.java:85-88 | the key's value; a null or unmapped key throws |
| ArrayListMaps.ArrayListMap.Has | src/Map/ArrayMapUseArrayListForEntries.java:91-96 | false for null, otherwise whether the key is mapped |
| ArrayListMaps.ArrayListMap.SizeCounts | src/Map/ArrayMapUseArrayListForEntries.java:99-101 | size() is the number of mapped keys |
| ArrayListMaps.ArrayListMap.Iterator | src/Map/ArrayMapUseArrayListForEntries.java:104-110 | a copy of the keys in list order, each mapped key exactly once |
| ArrayListMaps.ArrayListMap.ToString | src/Map/ArrayMapUseArrayListForEntries.java:113-125 | "{", each entry as "key: value" separated by ", ", then "}" |
| ArraySets.ArraySet.constructor | src/Set/ArraySet.java:16-20 | an empty set over a one-slot array, at version 0 |
| ArraySets.ArraySet.Find | src/Set/ArraySet.java:22-29 | the used slot holding the element, or -1 exactly when the set lacks it |
| ArraySets.ArraySet.Has | src/Set/ArraySet.java:64-66 | whether the element is in the set |
| ArraySets.ArraySet.Size | src/Set/ArraySet.java:69-71 | numElements is the number of elements |
| ArraySets.ArraySet.Full | src/Set/ArraySet.java:31-33 | full exactly when every slot is used |
| ArraySets.ArraySet.Grow | src/Set/ArraySet.java:35-39 | a fresh array of twice numElements slots holding the same used prefix |
| ArraySets.ArraySet.Insert | src/Set/ArraySet.java:41-52 | an absent element is appended, a present one changes nothing, the array doubles once full, and the version always moves on |
| ArraySets.ArraySet.Remove | src/Set/ArraySet.java:54-61 | the last element moves into the removed element's slot, an absent element changes nothing, and the version always moves on |
| ArraySets.ArraySet.Union | src/Set/ArraySet.java:73-88 | a new set holding exactly the elements of either set, with the second pass skipped when other is this set |
| ArraySets.ArraySet.Intersect | src/Set/ArraySet.java:90-101 | a new set holding exactly the common elements, all of them when other is this set |
| ArraySets.ArraySet.Subtract | src/Set/ArraySet.java:103-117 | a new set holding exactly the elements other lacks, and none when other is this set |
| ArraySets.SetIterator.constructor | src/Set/ArraySet.java:128-131 | the iterator starts at slot 0 with the set's current version |
| ArraySets.SetIterator.HasNext | src/Set/ArraySet.java:133-143 | throws ConcurrentModificationException once the set changed; otherwise whether a used slot remains |
| ArraySets.SetIterator.Next | src/Set/ArraySet.java:145-152 | throws once the set changed or past the last slot; otherwise the current slot's element, moving one slot on |
| ArraySets.InsertAll | src/Set/ArraySet.java:77-84 | union's for-each loop inserts every element of the iterated set |
| ArraySets.InsertCommon | src/Set/ArraySet.java:94-98 | intersect's for-each loop inserts exactly the iterated elements other has, or all of them when other is the iterated set |
| ArraySets.InsertMissing | src/Set/ArraySet.java:107-115 | subtract's for-each loop inserts exactly the iterated elements other lacks, and none when other is the iterated set |
| ArraySets.InsertNext | src/Set/ArraySet.java:77-79 | one pass of union's loop: next() yields the current element and it joins the new set |
| ArraySets.InsertNextCommon | src/Set/ArraySet.java:94-97 | one pass of intersect's loop |
| ArraySets.InsertNextMissing | src/Set/ArraySet.java:107-114 | one pass of subtract's loop |
| ArraySets.InsertInvalidatesIterator | src/Set/ArraySet.java:51 | an insert moves the version on even for a present element, so an older iterator then throws ConcurrentModificationException |
| LinkedSets.Node.constructor | src/Set/LinkedSet.java:28-30 | a node holding the element, linked to nothing |
| LinkedSets.LinkedSet.constructor | src/Set/LinkedSet.java:36-38 | the implicit constructor: no head, no element, version 0 |
| LinkedSets.LinkedSet.Find | src/Set/LinkedSet.java:40-54 | walking from the head, the first node holding the element, or null exactly when the set lacks it |
| LinkedSets.LinkedSet.Has | src/Set/LinkedSet.java:107-110 | whether the element is in the set |
| LinkedSets.LinkedSet.Size | src/Set/LinkedSet.java:112-115 | numElements is the number of elements |
| LinkedSets.LinkedSet.Prepend | src/Set/LinkedSet.java:56-65 | a new node holding the element becomes the head, in front of the old list |
| LinkedSets.LinkedSet.Insert | src/Set/LinkedSet.java:67-75 | an absent element is prepended and the count and version move on; a present one changes nothing, not even the version |
| LinkedSets.LinkedSet.Around | src/Set/LinkedSet.java:90-105 | in the linked list, the node at i is the head exactly when i is 0, and its links point at its neighbours |
| LinkedSets.LinkedSet.Unlink | src/Set/LinkedSet.java:90-105 | the remove helper points the node's neighbours at each other and moves the head on when the node was the head |
| LinkedSets.LinkedSet.Drop | src/Set/LinkedSet.java:90-105 | once bypassed, the node leaves the list and its element the set |
| LinkedSets.LinkedSet.Remove | src/Set/LinkedSet.java:77-88 | a present element loses its node and the count and version move on; an absent one changes nothing, not even the version |
| LinkedSets.LinkedSet.Union | src/Set/LinkedSet.java:118-134 | a new set holding exactly the elements of either set, with the second pass skipped when other is this set |
| LinkedSets.LinkedSet.Intersect | src/Set/LinkedSet.java:136-147 | a new set holding exactly the common elements, all of them when other is this set |
| LinkedSets.LinkedSet.Subtract | src/Set/LinkedSet.java:149-163 | a new set holding exactly the elements other lacks, and none when other is this set |
| LinkedSets.DropNode | src/Set/LinkedSet.java:90-105 | dropping a node and its element keeps distinct nodes holding the elements |
| LinkedSets.BypassLinks | src/Set/LinkedSet.java:95-104 | once its neighbours point at each other, the list without the node is doubly linked in order with no outer links at its ends |
| LinkedSets.RemovedMembers | src/Set/LinkedSet.java:77-88 | dropping one element of a list without repeats removes exactly that element |
| LinkedSets.SetIterator.constructor | src/Set/LinkedSet.java:193-196 | the iterator starts at the head with the set's current version |
| LinkedSets.SetIterator.HasNext | src/Set/LinkedSet.java:198-209 | throws ConcurrentModificationException once the set changed; otherwise whether a node remains |
| LinkedSets.SetIterator.Next | src/Set/LinkedSet.java:211-220 | throws once the set changed or past the last node; otherwise the current node's element, moving to the next node |
| LinkedSets.InsertAll | src/Set/LinkedSet.java:122-131 | union's for-each loop inserts every element of the iterated set |
| LinkedSets.InsertCommon | src/Set/LinkedSet.java:140-144 | intersect's for-each loop inserts exactly the iterated elements other has, or all of them when other is the iterated set |
| LinkedSets.InsertMissing | src/Set/LinkedSet.java:153-161 | subtract's for-each loop inserts exactly the iterated elements other lacks, and none when other is the iterated set |
| LinkedSets.InsertIfCommon | src/Set/LinkedSet.java:141-143 | the body of intersect's loop |
| LinkedSets.InsertIfMissing | src/Set/LinkedSet.java:154-160 | the body of subtract's loop |
| LinkedSets.InsertInvalidatesIterator | src/Set/LinkedSet.java:72-74 | inserting a new element moves the version on, so an older iterator then throws ConcurrentModificationException |
| LinkedSets.InsertPresentKeepsIterator | src/Set/LinkedSet.java:69-71 | inserting a present element returns early, so an older iterator keeps working |
| ArrayStacks.ArrayStack.constructor | src/Stack/ArrayStack.java:24-28 | an empty stack over an array of capacity 10 |
| ArrayStacks.ArrayStack.IsEmpty | src/Stack/ArrayStack.java:30-33 | empty exactly when there is no element |
| ArrayStacks.ArrayStack.Top | src/Stack/ArrayStack.java:35-41 | the most recently pushed element; EmptyException on an empty stack |
| ArrayStacks.ArrayStack.Pop | src/Stack/ArrayStack.java:43-49 | the most recently pushed element goes, nothing else changes; EmptyException with no change on an empty stack |
| ArrayStacks.ArrayStack.Push | src/Stack/ArrayStack.java:82-88 | the value becomes the top; the array doubles exactly when the push fills it |
| ArrayStacks.ArrayStack.Grow | src/Stack/ArrayStack.java:93-100 | a fresh array of twice the capacity holding the same elements at the same indices |
| ArrayStacks.PushTopPop | src/Stack/ArrayStack.java:35-49 | last in, first out, for every valid stack and value: after a push, top returns the pushed value, pop succeeds, and the stack holds what it held before |
| LinkedStacks.Node.constructor | src/Stack/LinkedStack.java:54-57 | a node holding the element, linked in front of the rest |
| LinkedStacks.LinkedStack.constructor | src/Stack/LinkedStack.java:22-24 | an empty stack |
| LinkedStacks.LinkedStack.IsEmpty | src/Stack/LinkedStack.java:26-29 | head is null exactly when the stack has no element |
| LinkedStacks.LinkedStack.Top | src/Stack/LinkedStack.java:30-36 | the head node's element; EmptyException on an empty stack |
| LinkedStacks.LinkedStack.Pop | src/Stack/LinkedStack.java:38-44 | the head moves to the next node, dropping the top; EmptyException with no change on an empty stack |
| LinkedStacks.LinkedStack.Push | src/Stack/LinkedStack.java:46-52 | a new node holding the element becomes the head, in front of the old stack |
| LinkedStacks.PushTopPop | src/Stack/LinkedStack.java:30-52 | last in, first out, for every valid stack and value: after a push, top returns the pushed element, pop succeeds, and the stack holds what it held before |
| ArrayQueues.ArrayQueue.constructor | src/Queue/ArrayQueue.java:23-29 | an empty queue of capacity 10 with front and back at slot 0 |
| ArrayQueues.ArrayQueue.IsEmpty | src/Queue/ArrayQueue.java:58-61 | empty exactly when there is no element |
| ArrayQueues.ArrayQueue.Enqueue | src/Queue/ArrayQueue.java:31-37 | on a queue that is not full, the value joins the back in slot back, which advances modulo the capacity, and the front is untouched |
| ArrayQueues.ArrayQueue.EnqueueAsWritten | src/Queue/ArrayQueue.java:31-37 | with no capacity test, the value is written into slot back whatever it holds, back advances modulo the capacity and the count grows |
| ArrayQueues.ArrayQueue.Dequeue | src/Queue/ArrayQueue.java:39-48 | front advances modulo the capacity past the oldest element; EmptyException with no change on an empty queue |
| ArrayQueues.Advance | src/Queue/ArrayQueue.java:39-48 | after front moves on by one slot modulo the capacity, the element i places behind it is the one i + 1 places behind the old front |
| ArrayQueues.ArrayQueue.Front | src/Queue/ArrayQueue.java:50-56 | slot front, unless the count is zero and EmptyException is thrown; on a consistent queue that slot is the oldest element |
| ArrayQueues.OverflowOverwritesFront | src/Queue/ArrayQueue.java:23-56 | after ten enqueues of x fill a new queue, an eleventh of y makes front return y although x is still the oldest element |
| LinkedQueues.Node.constructor | src/Queue/LinkedQueue.java:28-31 | a node holding the element with no successor |
| LinkedQueues.LinkedQueue.constructor | src/Queue/LinkedQueue.java:34-38 | an empty queue |
| LinkedQueues.LinkedQueue.IsEmpty | src/Queue/LinkedQueue.java:69-72 | empty exactly when there is no element |
| LinkedQueues.LinkedQueue.Enqueue | src/Queue/LinkedQueue.java:40-50 | the value joins the back, as both head and tail of an empty queue or linked after the tail otherwise |
| LinkedQueues.LinkedQueue.Dequeue | src/Queue/LinkedQueue.java:52-59 | the head moves to the next node, dropping the oldest element; EmptyException with no change on an empty queue |
| LinkedQueues.LinkedQueue.Front | src/Queue/LinkedQueue.java:61-67 | the oldest element; EmptyException on an empty queue |
| BinaryTrees.InorderKeys | src/Map/BinarySearchTreeMap.java:153-177 | the in-order key sequence holds exactly the tree's keys |
| BinaryTrees.InorderAscending | src/Map/BinarySearchTreeMap.java:153-177 | in a search tree the in-order keys strictly increase, so the iterators yield the keys in ascending order |
| BinaryTrees.InsertedLeft | src/Map/BinarySearchTreeMap.java:46-47 | a node whose left subtree gained an entry is a search tree that gained it too |
| BinaryTrees.InsertedRight | src/Map/BinarySearchTreeMap.java:44-45 | the mirror image for the right subtree |
| BinaryTrees.RemovedLeft | src/Map/BinarySearchTreeMap.java:82-83 | a node whose left subtree lost a key is a search tree that lost it too |
| BinaryTrees.RemovedRight | src/Map/BinarySearchTreeMap.java:84-85 | the mirror image for the right subtree |
| BinaryTrees.SplicedOut | src/Map/BinarySearchTreeMap.java:68-74 | a node with an empty subtree is removed by putting its other subtree in its place |
| BinaryTrees.ReplacedByPredecessor | src/SelfBalancingBST/AvlTreeMap.java:149-156 | a node with two subtrees is removed by copying in its left subtree's largest entry and removing that entry from the left subtree |
| BinaryTrees.ReplacedBySuccessor | src/Map/BinarySearchTreeMap.java:75-81 | a node with two subtrees is removed by copying in its right subtree's smallest entry and removing that entry from the right subtree |
| BinaryTrees.ContentsAt | src/Map/BinarySearchTreeMap.java:102-113 | in a search tree a key lies in the subtree its comparison with the node's key points to, with the same value |
| BinaryTrees.RotationKeepsOrder | src/SelfBalancingBST/AvlTreeMap.java:44-62 | a rotation keeps the in-order key sequence, the search-tree order and the map |
| BinaryTrees.FindNode | src/Map/BinarySearchTreeMap.java:98-114 | descending left for smaller and right for larger keys finds the node holding the key, or null exactly when the key is absent |
| BinaryTrees.RightmostNode | src/SelfBalancingBST/AvlTreeMap.java:159-165 | following right children reaches the node with the largest key, which has no right child |
| BinaryTrees.LeftmostNode | src/Map/BinarySearchTreeMap.java:90-96 | following left children reaches the node with the smallest key, which has no left child |
| BinaryTrees.SetValue | src/Map/BinarySearchTreeMap.java:124-127 | overwriting the value of a present key's node changes that key's value only, keeping the shape and key order |
| BinaryTrees.SetValueStep | src/Map/BinarySearchTreeMap.java:124-127 | put follows one search path: below a node it descends only into the side holding the key, keeping the node's key and annotation and the other side |
| BinaryTrees.InorderIterator.constructor | src/Map/BinarySearchTreeMap.java:156-159 | pushing the left spine of the root makes the remaining keys the tree's in-order keys |
| BinaryTrees.InorderIterator.PushLeft | src/Map/BinarySearchTreeMap.java:160-166 | pushing a subtree's left spine puts that subtree's in-order keys in front of the remaining ones |
| BinaryTrees.PushOne | src/Map/BinarySearchTreeMap.java:160-166 | after a node is pushed, the keys of its left subtree followed by the keys the stack yields are the node's in-order keys followed by what the stack yielded before |
| BinaryTrees.InorderIterator.HasNext | src/Map/BinarySearchTreeMap.java:167-170 | the stack is non-empty exactly when keys remain |
| BinaryTrees.InorderIterator.Next | src/Map/BinarySearchTreeMap.java:172-177 | the next key in order, after which the popped node's right subtree is pushed; an empty stack throws EmptyStackException |
| BstMaps.NextKey | src/Map/BinarySearchTreeMap.java:76 | the in-order successor of a key: the smallest larger key, if any |
| BstMaps.InsertAt | src/Map/BinarySearchTreeMap.java:38-52 | the pair becomes a new leaf where the search falls off the tree, the map gains it and the node count grows by one; a present key throws |
| BstMaps.RemoveFrom | src/Map/BinarySearchTreeMap.java:61-88 | the key leaves the search tree and its map; size is decremented once when the node had at most one child, twice when it had two, and the node first holding the key then holds the successor's value |
| BstMaps.RemoveEntry | src/Map/BinarySearchTreeMap.java:61-88 | the recursive remove with the surplus decrement of line 80 dropped: the key leaves the search tree and its map, and the count drops by one exactly when the key was present |
| BstMaps.MinimumHasOneChild | src/Map/BinarySearchTreeMap.java:90-96 | the node with the smallest key has no left child, so removing it decrements once |
| BstMaps.NextKeyAtNode | src/Map/BinarySearchTreeMap.java:76-79 | a two-child node's successor is the smallest key of its right subtree |
| BstMaps.NextKeyLeft | src/Map/BinarySearchTreeMap.java:82-83 | a successor found in the left subtree is the successor in the whole tree |
| BstMaps.BinarySearchTreeMap.constructor | src/Map/BinarySearchTreeMap.java:24-27 | an empty map with size 0 |
| BstMaps.BinarySearchTreeMap.Insert | src/Map/BinarySearchTreeMap.java:29-36 | a null or present key throws with no change; otherwise the pair is added and size grows by one |
| BstMaps.BinarySearchTreeMap.RemoveAsWritten | src/Map/BinarySearchTreeMap.java:54-59 | a null or absent key throws with no change; otherwise the key is gone, and the returned value and the size change are as RemoveFrom states |
| BstMaps.BinarySearchTreeMap.Remove | src/Map/BinarySearchTreeMap.java:54-59 | as intended: a null or absent key throws with no change; otherwise the key's own value is returned, the key is gone and size drops by one, so an exact size stays exact |
| BstMaps.BinarySearchTreeMap.Put | src/Map/BinarySearchTreeMap.java:123-127 | a null or absent key throws with no change; otherwise only that key's value changes |
| BstMaps.BinarySearchTreeMap.Get | src/Map/BinarySearchTreeMap.java:129-133 | the key's value; a null or absent key throws |
| BstMaps.BinarySearchTreeMap.Has | src/Map/BinarySearchTreeMap.java:135-141 | false for null, otherwise whether the key is mapped |
| BstMaps.BinarySearchTreeMap.Size | src/Map/BinarySearchTreeMap.java:143-146 | size is the number of keys; insert, put and the intended remove keep it so, and only a two-child removal as written breaks it |
| BstMaps.BinarySearchTreeMap.Find | src/Map/BinarySearchTreeMap.java:98-114 | null throws; otherwise the node holding the key, or null exactly when the key is absent |
| BstMaps.BinarySearchTreeMap.FindForSure | src/Map/BinarySearchTreeMap.java:116-122 | a null or absent key throws; otherwise the node holding the key |
| BstMaps.TwoChildRemovalAsWritten | src/Map/BinarySearchTreeMap.java:54-88 | on the tree with root 2 and children 1 and 3, removing 2 as written returns 3's value and leaves size 1 while keys 1 and 3 remain |
| BstMaps.BinarySearchTreeMap.Iterator | src/Map/BinarySearchTreeMap.java:148-151 | the keys in ascending order, each mapped key exactly once |
| AvlTrees.ExactHeightsNonNegative | src/SelfBalancingBST/AvlTreeMap.java:249-254 | exact cached heights are never negative, as a new node starts at 0 |
| AvlTrees.RightRotation | src/SelfBalancingBST/AvlTreeMap.java:44-52 | the left child becomes the root, keeping the in-order keys and the map, and both moved nodes get recomputed heights |
| AvlTrees.LeftRotation | src/SelfBalancingBST/AvlTreeMap.java:54-62 | the mirror image of the right rotation |
| AvlTrees.RightLeftRotation | src/SelfBalancingBST/AvlTreeMap.java:69-72 | the right-left double rotation keeps the in-order keys and the map |
| AvlTrees.RightReplaced | src/SelfBalancingBST/AvlTreeMap.java:69-72 | a right child replaced by one with the same keys in the same order, and the same entries, keeps the node's keys, order and map |
| AvlTrees.LeftRightRotation | src/SelfBalancingBST/AvlTreeMap.java:77-80 | the left-right double rotation keeps the in-order keys and the map |
| AvlTrees.LeftReplaced | src/SelfBalancingBST/AvlTreeMap.java:77-80 | a left child replaced by one with the same keys in the same order, and the same entries, keeps the node's keys, order and map |
| AvlTrees.BalanceTree | src/SelfBalancingBST/AvlTreeMap.java:64-83 | the rotation chosen from the cached balance factors keeps the in-order keys and the map, and a balanced node is left alone |
| AvlTrees.ExactGetHeight | src/SelfBalancingBST/AvlTreeMap.java:20-26 | with exact cached heights, getHeight is the true height |
| AvlTrees.RightRotationRepairs | src/SelfBalancingBST/AvlTreeMap.java:75-76 | a single right rotation repairs a node whose left subtree is two taller and does not lean right |
| AvlTrees.LeftRotationRepairs | src/SelfBalancingBST/AvlTreeMap.java:67-68 | a single left rotation repairs a node whose right subtree is two taller and does not lean left |
| AvlTrees.LeftRightRotationRepairs | src/SelfBalancingBST/AvlTreeMap.java:77-80 | the left-right rotation repairs a node whose left subtree is two taller and leans right, and lowers it by one |
| AvlTrees.RightLeftRotationRepairs | src/SelfBalancingBST/AvlTreeMap.java:69-72 | the right-left rotation repairs a node whose right subtree is two taller and leans left, and lowers it by one |
| AvlTrees.BalanceRestoresAvl | src/SelfBalancingBST/AvlTreeMap.java:64-83 | for AVL subtrees differing in height by at most two, balanceTree returns an AVL tree of the node's height or one less |
| AvlTrees.Rebalanced | src/SelfBalancingBST/AvlTreeMap.java:108-112 | recomputing a node's height and rebalancing it when it is taller than 1 keeps the keys and the map |
| AvlTrees.InsertAt | src/SelfBalancingBST/AvlTreeMap.java:96-113 | the pair becomes a new leaf and every node on the path is rebalanced; the map gains the pair; a present key throws |
| AvlTrees.UpdateAndBalanceIsAvl | src/SelfBalancingBST/AvlTreeMap.java:108-111 | recomputing the height and balancing yields an AVL tree when the subtrees are AVL trees differing in height by at most two |
| AvlTrees.InsertKeepsAvl | src/SelfBalancingBST/AvlTreeMap.java:96-113 | insertion keeps an AVL tree an AVL tree and raises its height by at most one |
| AvlTrees.RemovalStepIsAvl | src/SelfBalancingBST/AvlTreeMap.java:135-136 | one step back up a removal path keeps the AVL shape when a subtree lost at most one level |
| AvlTrees.RemoveAt | src/SelfBalancingBST/AvlTreeMap.java:126-138 | the key leaves the search tree and its map; the AVL shape is kept when the removed node had at most one child |
| AvlTrees.RemoveNode | src/SelfBalancingBST/AvlTreeMap.java:141-157 | a node with an empty subtree is replaced by the other, one with two takes its predecessor's entry; the key leaves the map either way |
| AvlTrees.AvlRootIsSettled | src/SelfBalancingBST/AvlTreeMap.java:92-93 | at the root of an AVL tree the height update and balancing of insert change nothing |
| AvlTrees.AvlTreeMap.constructor | src/SelfBalancingBST/AvlTreeMap.java:16-17 | an empty map, which is an AVL tree |
| AvlTrees.AvlTreeMap.Insert | src/SelfBalancingBST/AvlTreeMap.java:85-94 | a null or present key throws with no change; otherwise the pair is added, size grows by one, and an AVL tree stays one |
| AvlTrees.AvlTreeMap.Remove | src/SelfBalancingBST/AvlTreeMap.java:115-122 | a null or absent key throws with no change; otherwise the key's own value is returned, the key is gone and size shrinks by one |
| AvlTrees.AvlTreeMap.Put | src/SelfBalancingBST/AvlTreeMap.java:167-171 | a null or absent key throws with no change; otherwise only that key's value changes, and the AVL shape survives |
| AvlTrees.AvlTreeMap.Get | src/SelfBalancingBST/AvlTreeMap.java:183-187 | the key's value; a null or absent key throws |
| AvlTrees.AvlTreeMap.Has | src/SelfBalancingBST/AvlTreeMap.java:189-195 | false for null, otherwise whether the key is mapped |
| AvlTrees.AvlTreeMap.Size | src/SelfBalancingBST/AvlTreeMap.java:197-200 | size is the number of keys |
| AvlTrees.AvlTreeMap.Find | src/SelfBalancingBST/AvlTreeMap.java:202-219 | null throws; otherwise the node holding the key, or null exactly when the key is absent |
| AvlTrees.AvlTreeMap.FindForSure | src/SelfBalancingBST/AvlTreeMap.java:173-181 | a null or absent key throws; otherwise the node holding the key |
| AvlTrees.AvlTreeMap.Iterator | src/SelfBalancingBST/AvlTreeMap.java:221-224 | the keys in ascending order, each mapped key exactly once |
| AvlTrees.UpdateHeightKeeps | src/SelfBalancingBST/AvlTreeMap.java:36-42 | recomputing a node's height keeps the search tree and its map |
| AvlTrees.InsertAtRootKeepsAvl | src/SelfBalancingBST/AvlTreeMap.java:90-93 | after an insertion into an AVL tree, the root needs no further height update or rotation |
| AvlTrees.SetValueKeepsAvl | src/SelfBalancingBST/AvlTreeMap.java:167-171 | put changes no key and no height, so the AVL shape and height survive it |
| AvlTrees.SetValueKeepsHeightsNonNegative | src/SelfBalancingBST/AvlTreeMap.java:167-171 | put leaves every cached height non-negative |
| Treaps.HeapRootIsLeast | src/SelfBalancingBST/TreapMap.java:13 | in a min-heap-ordered treap the root's priority is the least |
| Treaps.RightRotation | src/SelfBalancingBST/TreapMap.java:41-46 | the left child becomes the root with its priority, keeping the in-order keys, the map and the priorities |
| Treaps.LeftRotation | src/SelfBalancingBST/TreapMap.java:48-53 | the mirror image of the right rotation |
| Treaps.LiftRight | src/SelfBalancingBST/TreapMap.java:78-81 | a right child with a strictly smaller priority is rotated above its parent, keeping keys, map and priorities |
| Treaps.LiftLeft | src/SelfBalancingBST/TreapMap.java:83-86 | a left child with a strictly smaller priority is rotated above its parent, keeping keys, map and priorities |
| Treaps.InsertAt | src/SelfBalancingBST/TreapMap.java:71-91 | the pair with its priority is added where the search falls off the tree and rotated up; the map gains the pair; a present key throws |
| Treaps.InsertedRightWith | src/SelfBalancingBST/TreapMap.java:77-78 | a right subtree that gained the pair and its priority makes the node gain them, staying a search tree |
| Treaps.InsertedLeftWith | src/SelfBalancingBST/TreapMap.java:82-83 | a left subtree that gained the pair and its priority makes the node gain them, staying a search tree |
| Treaps.LiftRightKeepsHeap | src/SelfBalancingBST/TreapMap.java:77-81 | one level of insertion on the right keeps the min-heap order |
| Treaps.LiftLeftKeepsHeap | src/SelfBalancingBST/TreapMap.java:82-86 | one level of insertion on the left keeps the min-heap order |
| Treaps.InsertKeepsHeap | src/SelfBalancingBST/TreapMap.java:55-91 | insertion with any priority keeps a heap-ordered treap heap-ordered |
| Treaps.RemoveNode | src/SelfBalancingBST/TreapMap.java:124-141 | sinking the node out, lifting the child of strictly smaller priority (the right one on a tie), removes exactly its key |
| Treaps.SinkRightStepKeepsHeap | src/SelfBalancingBST/TreapMap.java:133-135 | the sink step that lifts the left child keeps the heap order above the sinking node |
| Treaps.SinkLeftStepKeepsHeap | src/SelfBalancingBST/TreapMap.java:136-139 | the sink step that lifts the right child keeps the heap order above the sinking node |
| Treaps.RemoveNodeKeepsHeap | src/SelfBalancingBST/TreapMap.java:124-141 | sinking out a node whose two subtrees are heaps leaves a heap |
| Treaps.RemoveNodeIgnoresOwnPriority | src/SelfBalancingBST/TreapMap.java:133 | the sink compares only the children's priorities, never the sinking node's own |
| Treaps.RemoveAt | src/SelfBalancingBST/TreapMap.java:112-122 | descending by key to the target and sinking it out removes exactly that key |
| Treaps.RemoveAtKeepsHeap | src/SelfBalancingBST/TreapMap.java:93-122 | removal keeps a heap-ordered treap heap-ordered |
| Treaps.SetPriority | src/SelfBalancingBST/TreapMap.java:103 | the priority overwrite keeps the keys, the map and their order |
| Treaps.RemoveAtIgnoresTargetPriority | src/SelfBalancingBST/TreapMap.java:103-105 | setting the target's priority to Integer.MAX_VALUE before removing it does not change the result |
| Treaps.SetValueKeepsHeap | src/SelfBalancingBST/TreapMap.java:143-147 | put changes no priority, so the heap order survives it |
| Treaps.TreapMap.constructor | src/SelfBalancingBST/TreapMap.java:29-31 | an empty map |
| Treaps.TreapMap.Insert | src/SelfBalancingBST/TreapMap.java:62-69 | a null or present key throws with no change; otherwise the pair is added with the drawn priority, size grows by one and the heap order is kept |
| Treaps.TreapMap.Remove | src/SelfBalancingBST/TreapMap.java:100-108 | a null or absent key throws with no change; otherwise the key's value is returned, the key is gone, size shrinks by one and the heap order is kept |
| Treaps.TreapMap.Put | src/SelfBalancingBST/TreapMap.java:143-147 | a null or absent key throws with no change; otherwise only that key's value changes |
| Treaps.TreapMap.Replace | src/SelfBalancingBST/TreapMap.java:145-146 | the value of a present key becomes the new one; no other pair, no priority and not the size change |
| Treaps.PutAt | src/SelfBalancingBST/TreapMap.java:145-146 | on the tree, the key's value is replaced while the tree stays a search tree and a heap over the same keys |
| Treaps.SetValueKeepsPriorities | src/SelfBalancingBST/TreapMap.java:145-146 | replacing a value changes no priority |
| Treaps.TreapMap.Get | src/SelfBalancingBST/TreapMap.java:159-163 | the key's value; a null or absent key throws |
| Treaps.TreapMap.Has | src/SelfBalancingBST/TreapMap.java:165-171 | false for null, otherwise whether the key is mapped |
| Treaps.TreapMap.Size | src/SelfBalancingBST/TreapMap.java:173-176 | size is the number of keys |
| Treaps.TreapMap.Find | src/SelfBalancingBST/TreapMap.java:178-195 | null throws; otherwise the node holding the key, or null exactly when the key is absent |
| Treaps.TreapMap.FindForSure | src/SelfBalancingBST/TreapMap.java:149-157 | a null or absent key throws; otherwise the node holding the key |
| Treaps.TreapMap.Iterator | src/SelfBalancingBST/TreapMap.java:197-200 | the keys in ascending order, each mapped key exactly once, whatever the priorities |
| BstSets.Leftmost | src/BST/BstOrderedSet.java:125-132 | following left children reaches a node with no left child holding the smallest element |
| BstSets.FindSmallest | src/BST/BstOrderedSet.java:125-132 | the findSmallest loop reaches that leftmost node |
| BstSets.InsertAt | src/BST/BstOrderedSet.java:34-50 | the element becomes a new leaf, counted once, exactly when it was absent; a present element leaves the tree as it was |
| BstSets.Find | src/BST/BstOrderedSet.java:157-169 | the recursive find meets a node holding the element exactly when the search tree holds it |
| BstSets.RemoveFrom | src/BST/BstOrderedSet.java:91-121 | the remove helper as written computes RemoveAsWritten, comparing against the root's data at every level |
| BstSets.RemoveOffPivotChangesNothing | src/BST/BstOrderedSet.java:97-100 | as written, removing an element other than the root's changes nothing, whether or not the set holds it |
| BstSets.RemoveRootWithOneChild | src/BST/BstOrderedSet.java:103-111 | as written, removing the root's element when the root has at most one child leaves that child and counts one removal |
| BstSets.RemoveMissesNonRootElement | src/BST/BstOrderedSet.java:97-100 | as written, removing 1 from the set {1, 2} rooted at 2 leaves the set unchanged |
| BstSets.RemoveTwoChildRootBreaksOrder | src/BST/BstOrderedSet.java:113-117 | as written, removing the two-child root 2 of {1, 2, 3, 4} breaks the order, loses 4 and counts two removals |
| BstSets.RemoveIntended | src/BST/BstOrderedSet.java:91-121 | the corrected removal keeps a search tree, removes exactly the element, and counts one removal exactly when it was present |
| BstSets.RemoveIntendedFrom | src/BST/BstOrderedSet.java:91-121 | the corrected remove helper, with the findSmallest loop, computes RemoveIntended |
| BstSets.TookSuccessor | src/BST/BstOrderedSet.java:114-116 | a two-child node taking over its right subtree's smallest element, which that subtree then loses, removes exactly the node's element |
| BstSets.TraversalsAgree | src/BST/BstOrderedSet.java:238-298 | the post-order, in-order and pre-order traversals list the same elements, each as often, one per node |
| BstSets.TraversalIterator.constructor | src/BST/BstOrderedSet.java:241-243 | an empty queue |
| BstSets.TraversalIterator.FillPostOrder | src/BST/BstOrderedSet.java:247-253 | the queue gains the subtree's elements in post-order: left, right, then the node |
| BstSets.TraversalIterator.FillPreOrder | src/BST/BstOrderedSet.java:278-284 | the queue gains the subtree's elements in pre-order: the node, left, then right |
| BstSets.TraversalIterator.HasNext | src/BST/BstOrderedSet.java:255-258 | whether the queue is non-empty |
| BstSets.TraversalIterator.Next | src/BST/BstOrderedSet.java:260-266 | the head of the queue, which leaves it; NoSuchElementException when it is empty |
| BstSets.BstOrderedSet.constructor | src/BST/BstOrderedSet.java:18-21 | an empty set with count 0 |
| BstSets.BstOrderedSet.Insert | src/BST/BstOrderedSet.java:25-28 | the set gains the element; a present one changes nothing; an absent one is counted as a new leaf |
| BstSets.BstOrderedSet.Remove | src/BST/BstOrderedSet.java:86-89 | corrected: a present element leaves the set and is uncounted once, an absent one changes nothing, and the search tree and count stay exact |
| BstSets.BstOrderedSet.Has | src/BST/BstOrderedSet.java:134-139 | in a search tree, whether the set holds the element |
| BstSets.BstOrderedSet.Size | src/BST/BstOrderedSet.java:185-188 | the count is the number of elements |
| BstSets.BstOrderedSet.Iterator | src/BST/BstOrderedSet.java:190-193 | the elements in ascending order, each once |
| BstSets.BstOrderedSet.PostOrderIterator | src/BST/BstOrderedSet.java:195-197 | the elements in post-order |
| BstSets.BstOrderedSet.PreOrderIterator | src/BST/BstOrderedSet.java:199-201 | the elements in pre-order |
| BstSets.SizeIsKeyCount | src/BST/BstOrderedSet.java:185-188 | in a search tree every node holds a different element, so counting nodes counts elements |
| SortSpec.SortedAppend | src/Sorting/InsertionSort.java:12-22 | appending an element no smaller than the last keeps a sequence ascending |
| SortSpec.SortedJoin | src/Sorting/MergeSort.java:41-76 | two ascending ranges side by side, the first below the second, make one ascending range |
| SortSpec.RearrangedTrans | src/Sorting/QuickSort.java:32-36 | rearranging twice, or rearranging a sub-range, is rearranging |
| SortSpec.RearrangedPrefixBelow | src/Sorting/SelectionSort.java:14-29 | rearranging a prefix that lies below the rest keeps it below and leaves the rest as it was |
| SortSpec.RearrangedWiden | src/Sorting/InsertionSort.java:30-32 | a rearrangement of arr[0..n-1) is a rearrangement of arr[0..n), since arr[n-1] stays put |
| HeapSorts.HeapSort | src/Sorting/HeapSort.java:31-49 | nodes 1..numNodes come out in ascending order as a permutation of the input, and slot 0 is untouched |
| HeapSorts.PopMax | src/Sorting/HeapSort.java:44-48 | one round of the sorting loop: the root, the largest node, goes behind the heap, extending the sorted tail, and the shrunk heap is repaired |
| HeapSorts.BuildExcept | src/Sorting/HeapSort.java:38-40 | with heap order kept from i + 1 on, only node i can be out of order before sinking it |
| HeapSorts.HeapAfterSwap | src/Sorting/HeapSort.java:45-46 | swapping the root with the last node leaves heap order on one node fewer, broken only at the root |
| HeapSorts.SwappedBehind | src/Sorting/HeapSort.java:45-46 | the largest node swapped behind the heap extends the sorted tail and bounds everything left in the heap |
| HeapSorts.Repaired | src/Sorting/HeapSort.java:47 | sinking the root inside the shrunk heap keeps the sorted tail and its bound on the heap |
| HeapSorts.UnmovedSwap | src/Sorting/HeapSort.java:74-76 | a swap of index with its child followed by changes from the child on changes nothing before index |
| HeapSorts.HeapRoot | src/Sorting/HeapSort.java:43 | the root of a max-heap is its largest node |
| HeapSorts.Sink | src/Sorting/HeapSort.java:57-78 | sinking the node restores heap order below it, permutes only the nodes from index to numNodes and keeps the multiset |
| HeapSorts.HeapStops | src/Sorting/HeapSort.java:74 | a node at least as large as its children closes the one gap in heap order, so sinking stops |
| HeapSorts.SwappedExcept | src/Sorting/HeapSort.java:74-76 | swapping a node with its larger child leaves heap order broken only at that child |
| HeapSorts.IndexShift | src/Sorting/HeapSort.java:85-89 | a new array one longer whose slots from 1 on hold the data in order |
| HeapSorts.SortShifted | src/Sorting/HeapSort.java:8-27 | data shifted to slots 1.. and heap sorted comes out in ascending order as a permutation of the data |
| QuickSorts.QuickSort | src/Sorting/QuickSort.java:19-21 | the whole array comes out ascending as a permutation of the input |
| QuickSorts.QuickSortRange | src/Sorting/QuickSort.java:23-37 | arr[left..right) comes out ascending and rearranged, and nothing outside it changes |
| QuickSorts.AfterRight | src/Sorting/QuickSort.java:35-36 | sorting below and then above the pivot, with every element above at least the pivot, sorts the whole range |
| QuickSorts.Partition | src/Sorting/QuickSort.java:39-68 | the returned index holds the old arr[right - 1], everything before it is at most it and everything after at least it, as a rearrangement of the range |
| QuickSorts.PartitionRound | src/Sorting/QuickSort.java:48-61 | one round of the outer loop keeps the markers' invariant and the multiset and makes progress |
| QuickSorts.PlacePivot | src/Sorting/QuickSort.java:63-67 | once the markers cross, moving the pivot into l splits the range around it |
| QuickSortCleans.QuickSortAll | src/Sorting/QuickSort_Clean.java:42 | the call on 0 and arr.length - 1 sorts the whole array as a permutation of it |
| QuickSortCleans.QuickSort | src/Sorting/QuickSort_Clean.java:7-31 | arr[l..r] comes out ascending and rearranged, and nothing outside it changes |
| QuickSortCleans.SidesJoin | src/Sorting/QuickSort_Clean.java:29-30 | sorting arr[l..j] and then arr[j+1..r], the left side at most the pivot value and the right at least it, sorts and rearranges the range |
| QuickSortCleans.SidesRearranged | src/Sorting/QuickSort_Clean.java:16-30 | partitioning arr[l..r] and then sorting both sides rearranges arr[l..r] |
| QuickSortCleans.SplitAt | src/Sorting/QuickSort_Clean.java:16-27 | when the markers cross, arr[l..j] is at most the pivot value, arr[j+1..r] at least it, and l <= j < r |
| QuickSortCleans.Round | src/Sorting/QuickSort_Clean.java:17-26 | one round: both do-while scans stop inside the range, and either the swap leaves the markers' invariant or the markers crossed and the range is split |
| MergeSorts.MergeSort | src/Sorting/MergeSort.java:17-19 | the whole array comes out ascending as a permutation of the input |
| MergeSorts.MergeSortRange | src/Sorting/MergeSort.java:21-33 | arr[left..right) comes out ascending and rearranged, and nothing outside it changes |
| MergeSorts.Merge | src/Sorting/MergeSort.java:35-75 | two ascending halves merged back over arr[left..right) make it ascending and rearranged |
| MergeSorts.CopiedBack | src/Sorting/MergeSort.java:72-74 | copying the merged halves back over arr[left..right) sorts that range and rearranges it |
| MergeSorts.TakeLeft | src/Sorting/MergeSort.java:51-52 | taking the left head when it is at most the right head keeps tmp[0..k) ascending and made of the taken elements |
| MergeSorts.MultisetSetFirst | src/Sorting/MergeSort.java:51-54 | writing arr[hi] at tmp[k] keeps tmp[0..k] made of exactly the elements taken so far, arr[lo..hi] among them |
| MergeSorts.TakeRight | src/Sorting/MergeSort.java:53-54 | taking the right head when it is smaller keeps tmp[0..k) ascending and made of the taken elements |
| MergeSorts.Merged | src/Sorting/MergeSort.java:42-67 | tmp holds both halves merged: ascending, with the multiset of the two halves |
| MergeSorts.MergingDone | src/Sorting/MergeSort.java:62-67 | once both halves are taken, tmp is all of them, ascending |
| MergeSorts.MergeHeads | src/Sorting/MergeSort.java:50-56 | the first loop takes the smaller head, the left one on ties, until one half runs out |
| MergeSorts.TakeLeftStep | src/Sorting/MergeSort.java:52 | tmp[k++] = arr[i++] keeps the merge invariant |
| MergeSorts.TakeRightStep | src/Sorting/MergeSort.java:54 | tmp[k++] = arr[j++] keeps the merge invariant |
| MergeSorts.DrainLeft | src/Sorting/MergeSort.java:62-64 | the rest of the left half goes to tmp, keeping the merge invariant |
| MergeSorts.DrainRight | src/Sorting/MergeSort.java:65-67 | the rest of the right half goes to tmp, keeping the merge invariant |
| SelectionSorts.MinIndex | src/Sorting/SelectionSort.java:15-22 | the index of the first minimum of the range, replacing the candidate only on a strictly smaller element |
| SelectionSorts.SelectionSort | src/Sorting/SelectionSort.java:4-30 | the array comes out ascending as a permutation of the input |
| SelectionSorts.SelectStep | src/Sorting/SelectionSort.java:24-28 | swapping a minimum of arr[i..] into place i keeps arr[0..i] ascending and below everything after it |
| SelectionSorts.SelectionSortRecursive | src/Sorting/SelectionSort.java:32-49 | arr[index..n) comes out ascending and rearranged, and nothing else changes |
| SelectionSorts.SortedBehindMin | src/Sorting/SelectionSort.java:44-48 | with the minimum at index, sorting everything behind it sorts arr[index..n) |
| BubbleSorts.Pass | src/Sorting/BubbleSort.java:14-21 | one pass rearranges the range and carries its largest element to the end; a pass without a swap changes nothing and finds the range sorted |
| BubbleSorts.CarryUp | src/Sorting/BubbleSort.java:15-19 | swapping an out-of-order pair carries the largest element seen so far one place up |
| BubbleSorts.LeaveInPlace | src/Sorting/BubbleSort.java:15-19 | a pair in order leaves the largest element seen so far one place up, and extends an ascending prefix |
| BubbleSorts.BubbleSort | src/Sorting/BubbleSort.java:4-27 | the array comes out ascending as a permutation of the input, also when the loop stops early |
| BubbleSorts.PositiveStops | src/Sorting/BubbleSort.java:29-43 | started at n >= 1, the recursion reaches its base case n == 1 within a number of calls exactly when that number is at least n |
| BubbleSorts.EmptyArrayNeverStops | src/Sorting/BubbleSort.java:29-48 | started at n <= 0, as the call with arr.length on an empty array is, the recursion never reaches its base case |
| BubbleSorts.BubbleSortRecursive | src/Sorting/BubbleSort.java:29-43 | for every n from 0 to the length, arr[0..n) comes out ascending and rearranged, and nothing else changes |
| InsertionSorts.InsertionSort | src/Sorting/InsertionSort.java:4-23 | the array comes out ascending as a permutation of the input |
| InsertionSorts.InsertionSortRecursive | src/Sorting/InsertionSort.java:25-39 | arr[0..n) comes out ascending and rearranged for n >= 0, and a negative n changes nothing |
| InsertionSorts.InsertLast | src/Sorting/InsertionSort.java:32-38 | after the prefix is sorted, shifting the larger elements right and dropping the key in sorts and rearranges arr[0..n) |
| InsertionSorts.InsertPlaced | src/Sorting/InsertionSort.java:34-38 | dropping the key just after the last element at most it, with the larger ones shifted, gives the prefix rearranged and ascending |
| DoublyLinkedLists.Node.constructor | src/DoublyLinkedList/LinkedList.java:212-215 | a node holding the data for its owner list, linked to nothing |
| DoublyLinkedLists.LinkedList.constructor | src/DoublyLinkedList/LinkedList.java:20-26 | an empty list: head and tail sentinels linked to each other and owned by the list |
| DoublyLinkedLists.LinkedList.PlaceOf | src/DoublyLinkedList/LinkedList.java:31-41 | the node of the element at place i is a live position of the list with place i |
| DoublyLinkedLists.LinkedList.Convert | src/DoublyLinkedList/LinkedList.java:31-41 | a position is accepted exactly when it is the node of one of this list's elements; null, foreign and removed positions throw PositionException |
| DoublyLinkedLists.LinkedList.Length | src/DoublyLinkedList/LinkedList.java:43-46 | the number of elements |
| DoublyLinkedLists.LinkedList.IsEmpty | src/DoublyLinkedList/LinkedList.java:48-51 | true exactly when the list holds no element |
| DoublyLinkedLists.LinkedList.InsertFront | src/DoublyLinkedList/LinkedList.java:53-65 | the data becomes the first element, in a fresh live node with place 0; the other elements keep their order |
| DoublyLinkedLists.LinkedList.InsertBack | src/DoublyLinkedList/LinkedList.java:67-79 | the data becomes the last element, in a fresh live node with the last place |
| DoublyLinkedLists.LinkedList.InsertBefore | src/DoublyLinkedList/LinkedList.java:81-95 | the data goes just before the position, whose place moves up by one; an unacceptable position throws and changes nothing |
| DoublyLinkedLists.LinkedList.InsertAfter | src/DoublyLinkedList/LinkedList.java:97-111 | the data goes just after the position; an unacceptable position throws and changes nothing |
| DoublyLinkedLists.LinkedList.AddBetween | src/DoublyLinkedList/LinkedList.java:86-94 | the data goes in a fresh live node between two neighbouring nodes, which becomes the element at that place |
| DoublyLinkedLists.JoinOwner | src/DoublyLinkedList/LinkedList.java:86-94 | a node of the list joining its nodes keeps every node owned by the list |
| DoublyLinkedLists.LinkedList.Neighbours | src/DoublyLinkedList/LinkedList.java:53-65 | a node's prev and next are the nodes just before and after it in the list, and they differ |
| DoublyLinkedLists.LinkedList.Ends | src/DoublyLinkedList/LinkedList.java:20-26 | head's next is the front node and tail's prev the back node |
| DoublyLinkedLists.LinkedList.Remove | src/DoublyLinkedList/LinkedList.java:113-123 | the element at the position leaves the list, the others keep their order, and the position is invalidated; the class invariant keeps every removed node ownerless, so every later use throws; an unacceptable position throws and changes nothing |
| DoublyLinkedLists.LinkedList.RemovedRefused | src/DoublyLinkedList/LinkedList.java:31-41 | a node the list created and has since removed names no owner, so convert refuses it whatever the list has done since |
| DoublyLinkedLists.RemovedStaysRefused | src/DoublyLinkedList/LinkedList.java:31-123 | insert at the back, remove that position, insert at the front: a second remove of the first position throws PositionException and the list holds the front element before the old ones |
| DoublyLinkedLists.LinkedList.Front | src/DoublyLinkedList/LinkedList.java:147-153 | the position with place 0; an empty list throws EmptyException |
| DoublyLinkedLists.LinkedList.Back | src/DoublyLinkedList/LinkedList.java:155-161 | the position with the last place; an empty list throws EmptyException |
| DoublyLinkedLists.LinkedList.RemoveFront | src/DoublyLinkedList/LinkedList.java:125-134 | the first element leaves the list; an empty list throws EmptyException and is unchanged |
| DoublyLinkedLists.LinkedList.RemoveBack | src/DoublyLinkedList/LinkedList.java:136-145 | the last element leaves the list; an empty list throws EmptyException and is unchanged |
| DoublyLinkedLists.LinkedList.SamePlace | src/DoublyLinkedList/LinkedList.java:163-173 | two element nodes are the same node exactly when they have the same place, so first and last compare places |
| DoublyLinkedLists.LinkedList.First | src/DoublyLinkedList/LinkedList.java:163-167 | whether the position has place 0; an unacceptable position throws |
| DoublyLinkedLists.LinkedList.Last | src/DoublyLinkedList/LinkedList.java:169-173 | whether the position has the last place; an unacceptable position throws |
| DoublyLinkedLists.LinkedList.Next | src/DoublyLinkedList/LinkedList.java:175-181 | the position with the next place; the last position and an unacceptable one throw PositionException |
| DoublyLinkedLists.LinkedList.Previous | src/DoublyLinkedList/LinkedList.java:183-189 | the position with the previous place; the first position and an unacceptable one throw PositionException |
| DoublyLinkedLists.LinkedList.Forward | src/DoublyLinkedList/LinkedList.java:191-194 | an iterator that yields the elements front to back |
| DoublyLinkedLists.LinkedList.Backward | src/DoublyLinkedList/LinkedList.java:196-199 | an iterator that yields the elements back to front |
| DoublyLinkedLists.LinkedList.Iterator | src/DoublyLinkedList/LinkedList.java:201-204 | the forward iterator: it yields the elements front to back |
| DoublyLinkedLists.Reversed | src/DoublyLinkedList/LinkedList.java:196-199 | the elements in reverse order, index by index, as a backward walk yields them |
| DoublyLinkedLists.ListIterator.constructor | src/DoublyLinkedList/LinkedList.java:227-234 | the iterator stands on the front node (forward) or the back node (backward) and all elements remain, in its order |
| DoublyLinkedLists.ListIterator.HasNext | src/DoublyLinkedList/LinkedList.java:237-240 | standing on neither sentinel is exactly having an element left |
| DoublyLinkedLists.ListIterator.Next | src/DoublyLinkedList/LinkedList.java:242-250 | as intended: the next remaining element, after which it no longer remains; with none left, NoSuchElementException and no change |
| DoublyLinkedLists.ListIterator.NextAsWritten | src/DoublyLinkedList/LinkedList.java:242-250 | as written: NoSuchElementException exactly while an element remains; with none left, the sentinel's null data |
| DoublyLinkedLists.NextAsWrittenRefusesElement | src/DoublyLinkedList/LinkedList.java:244-246 | on a one-element list, hasNext is true and next as written throws |
| DoublyLinkedLists.Drain | src/DoublyLinkedList/LinkedList.java:237-250 | calling next while hasNext holds yields exactly the remaining elements, in the iterator's order, and leaves none |
| DoublyLinkedLists.ForwardAll | src/DoublyLinkedList/LinkedList.java:191-250 | with next as intended, forward iteration over any list yields every element front first, and one more next throws NoSuchElementException |
| DoublyLinkedLists.BackwardAll | src/DoublyLinkedList/LinkedList.java:196-250 | with next as intended, backward iteration over any list yields every element back first, and one more next throws NoSuchElementException |
| GraphPaths.AddEdge | src/Graph/GraphSearch/BFS.java:30-32 | the destination goes at the end of the source's adjacency list and no other list changes (the same addEdge appears in DFS.java:29-31 and DFSRecursive.java:29-31) |
| GraphPaths.ReachableSelf | src/Graph/GraphSearch/BFS.java:42-43 | the start vertex is reachable from itself, which is why it is explored first |
| GraphPaths.ReachableStep | src/Graph/GraphSearch/BFS.java:51-56 | a neighbour of a reachable vertex is reachable, which is why every vertex a search explores is reachable |
| GraphPaths.ReachableTrans | src/Graph/GraphSearch/DFSRecursive.java:40-44 | reachability composes, so a vertex the recursive call reaches from a neighbour is reachable from the caller's vertex |
| GraphPaths.ClosedHoldsReachable | src/Graph/GraphSearch/BFS.java:45-58 | a set of vertices holding the start and closed under edges holds every reachable vertex: once no explored vertex has an unexplored neighbour, the search has found everything |
| GraphPaths.DistinctJoin | src/Graph/GraphSearch/DFSRecursive.java:40-44 | vertices printed by two calls that share none repeat none together |
| GraphPaths.DistinctBounded | src/Graph/GraphSearch/BFS.java:45-58 | a search over n vertices prints at most n of them, since it repeats none |
| GraphPaths.Unmarked | src/Graph/GraphSearch/BFS.java:36 | the count of unexplored vertices is at most the number of vertices |
| GraphPaths.MarkOne | src/Graph/GraphSearch/BFS.java:53-55 | exploring an unexplored vertex leaves one fewer unexplored, which bounds the searches |
| GraphPaths.MarkMore | src/Graph/GraphSearch/DFSRecursive.java:42-43 | visiting more vertices never leaves more unvisited, which bounds the recursion |
| GraphPaths.SearchBound | src/Graph/GraphSearch/BFS.java:45-58 | the printed and waiting vertices are distinct vertices, so they number at most the vertices |
| GraphPaths.VisitFirst | src/Graph/GraphSearch/BFS.java:47-48 | taking the front of the queue and printing it keeps the search state |
| GraphPaths.VisitLast | src/Graph/GraphSearch/DFS.java:46-47 | popping the top of the stack and printing it keeps the search state |
| GraphPaths.Moved | src/Graph/GraphSearch/BFS.java:47-48 | moving a waiting vertex to the end of the printed ones keeps the search state |
| GraphPaths.ExploreNeighbours | src/Graph/GraphSearch/BFS.java:51-57 | every neighbour of the vertex ends up explored; the unexplored ones are marked and appended to the waiting vertices in list order, keeping the search state |
| GraphPaths.SearchDone | src/Graph/GraphSearch/BFS.java:45-58 | once nothing waits, the printed vertices are exactly those reachable from the start |
| BreadthFirstSearch.Bfs | src/Graph/GraphSearch/BFS.java:35-59 | the printed vertices start with the start vertex, repeat none, and are exactly those reachable from it |
| DepthFirstSearch.Dfs | src/Graph/GraphSearch/DFS.java:34-58 | the printed vertices start with the start vertex, repeat none, and are exactly those reachable from it |
| RecursiveDepthFirstSearch.RecursiveDfs | src/Graph/GraphSearch/DFSRecursive.java:34-46 | the current vertex is printed first; the other printed vertices were unvisited and are reachable from it; visited grows by exactly the printed vertices and is closed under edges from them |
| RecursiveDepthFirstSearch.SearchNeighbours | src/Graph/GraphSearch/DFSRecursive.java:40-45 | the calls on the unvisited neighbours, in list order, print vertices reachable from the current one, and leave every neighbour visited |
| RecursiveDepthFirstSearch.Absorb | src/Graph/GraphSearch/DFSRecursive.java:42-43 | the vertices printed by a call on an unvisited neighbour join those printed so far, still reachable and distinct |
| RecursiveDepthFirstSearch.MarkCount | src/Graph/GraphSearch/DFSRecursive.java:36 | marking the current vertex lowers the count that bounds the recursion |
| RecursiveDepthFirstSearch.SearchFrom | src/Graph/GraphSearch/DFSRecursive.java:24-25 | started from an all-false visited array, the search visits and prints exactly the vertices reachable from the start, each once |
| UnionFinds.Compressed | src/Graph/MST/UnionFind.java:17-19 | pointing a non-root vertex straight at its root keeps the forest, every vertex's root and every class size |
| UnionFinds.MergedConnects | src/Graph/MST/UnionFind.java:23-31 | after a union two vertices are connected exactly when they were before or one lay in each merged class |
| UnionFinds.HungForest | src/Graph/MST/UnionFind.java:24-30 | hanging one root under another keeps the parent array a forest whose roots are the merged roots |
| UnionFinds.HungSized | src/Graph/MST/UnionFind.java:24-30 | the winner's size grows by the loser's and every root's size still counts its class |
| UnionFinds.UnionFind.constructor | src/Graph/MST/UnionFind.java:7-14 | n singletons: every vertex is its own parent and root, with size 1 |
| UnionFinds.UnionFind.FindRoot | src/Graph/MST/UnionFind.java:16-21 | the root of the vertex; path compression repoints vertices only at their roots and changes no vertex's root |
| UnionFinds.UnionFind.Union | src/Graph/MST/UnionFind.java:23-31 | the root of smaller size (root2 on a tie) is hung under the other, whose size grows by the loser's; classes merge and nothing else changes |
| UnionFinds.UnionFind.Hang | src/Graph/MST/UnionFind.java:24-30 | one branch of union: the loser's parent becomes the winner, the winner's size grows by the loser's, and the roots merge |
| UnionFinds.UnionFind.IsConnected | src/Graph/MST/UnionFind.java:33-35 | true exactly when the two vertices have the same root; no root changes |
| Prims.Compare | src/Graph/MST/Edge.java:12-15 | the sign of the comparison is the order of the weights alone |
| Prims.Dests | src/Graph/MST/Prim.java:35 | the vertices a list of edges leads to, one per edge, in order |
| Prims.Targets | src/Graph/MST/Prim.java:9 | the graph's adjacency with weights dropped, list by list |
| Prims.Poll | src/Graph/MST/Prim.java:34 | a lightest queued edge leaves the queue, which keeps every other edge |
| Prims.LightestIndex | src/Graph/MST/Prim.java:34 | the first index of a lightest edge of the queue: no edge is lighter, and every edge before it is heavier |
| Prims.Fresh | src/Graph/MST/Prim.java:47-51 | exactly the edges of the list that lead to an unvisited vertex |
| Prims.Start | src/Graph/MST/Prim.java:27-31 | before the loop the loop invariant holds: nothing printed, the seed edge to 0 queued |
| Prims.Skip | src/Graph/MST/Prim.java:38-40 | dropping an edge to a visited vertex keeps the loop invariant |
| Prims.Visit | src/Graph/MST/Prim.java:42-51 | printing an edge to an unvisited vertex, marking it and queueing its edges to unvisited vertices keeps the loop invariant |
| Prims.Appended | src/Graph/MST/Prim.java:42 | printing one more edge keeps every earlier printed edge and prefix |
| Prims.Finish | src/Graph/MST/Prim.java:33-52 | once the queue is empty the printed vertices are exactly those connected to vertex 0 |
| Prims.Prim.constructor | src/Graph/MST/Prim.java:11-17 | a graph of the given number of vertices, each with an empty edge list |
| Prims.Prim.AddEdge | src/Graph/MST/Prim.java:19-24 | the source's list gains an edge to the destination, then the destination's list one back to the source, both with the weight; nothing else changes |
| Prims.Prim.PrimMst | src/Graph/MST/Prim.java:26-53 | the printed edges start with the seed edge to 0; each later one is a lightest edge from the earlier printed vertices to a new vertex; no vertex is printed twice; the printed vertices are exactly those connected to 0 |
| Prims.Prim.EnqueueUnvisited | src/Graph/MST/Prim.java:47-51 | the edges leading to unvisited vertices join the queue in list order |
| SparseGraphs.VertexNode.constructor | src/Graph/SparseGraph.java:284-289 | a vertex holding the data, with no label and no incident edges |
| SparseGraphs.EdgeNode.constructor | src/Graph/SparseGraph.java:327-332 | an edge between the two ends holding the data, with no label |
| SparseGraphs.SparseGraph.constructor | src/Graph/SparseGraph.java:26-30 | a graph with no vertices and no edges |
| SparseGraphs.SparseGraph.ConvertVertex | src/Graph/SparseGraph.java:32-43 | a vertex position is accepted exactly when this graph owns it; otherwise PositionException |
| SparseGraphs.SparseGraph.ConvertEdge | src/Graph/SparseGraph.java:45-56 | an edge position is accepted exactly when this graph owns it; otherwise PositionException |
| SparseGraphs.SparseGraph.InsertVertex | src/Graph/SparseGraph.java:58-77 | null data or data a vertex already holds is refused with InsertionException and nothing changes; otherwise a fresh unlabelled vertex without edges joins |
| SparseGraphs.SparseGraph.InsertEdge | src/Graph/SparseGraph.java:79-108 | an invalid end throws PositionException; a self-loop or an existing edge between the same ends in the same direction throws InsertionException; otherwise a fresh edge joins the graph and its ends' incidence sets |
| SparseGraphs.SparseGraph.Link | src/Graph/SparseGraph.java:98-106 | a fresh edge from one end to the other joins the graph, the first end's outgoing set and the second end's incoming set |
| SparseGraphs.SparseGraph.RemoveVertex | src/Graph/SparseGraph.java:110-128 | an invalid position throws PositionException, a vertex with an incident edge RemovalException, and nothing changes; otherwise the vertex leaves, is invalidated, and its data is returned |
| SparseGraphs.SparseGraph.RemoveEdge | src/Graph/SparseGraph.java:130-142 | an invalid position throws and nothing changes; otherwise the edge leaves the graph and both incidence sets, is invalidated, and its data is returned |
| SparseGraphs.SparseGraph.Outgoing | src/Graph/SparseGraph.java:156-167 | exactly the graph's edges that start at the vertex; an invalid vertex throws |
| SparseGraphs.SparseGraph.Incoming | src/Graph/SparseGraph.java:169-180 | exactly the graph's edges that end at the vertex; an invalid vertex throws |
| SparseGraphs.SparseGraph.From | src/Graph/SparseGraph.java:182-193 | the vertex the edge starts at, a vertex of the graph having the edge among its outgoing ones; an invalid edge throws |
| SparseGraphs.SparseGraph.To | src/Graph/SparseGraph.java:195-206 | the vertex the edge ends at, a vertex of the graph having the edge among its incoming ones; an invalid edge throws |
| SparseGraphs.SparseGraph.SetVertexLabel | src/Graph/SparseGraph.java:208-220 | a valid vertex gets the label and nothing else changes; an invalid one throws |
| SparseGraphs.SparseGraph.SetEdgeLabel | src/Graph/SparseGraph.java:222-234 | a valid edge gets the label and nothing else changes; an invalid one throws |
| SparseGraphs.SparseGraph.VertexLabel | src/Graph/SparseGraph.java:236-246 | the label last given to a valid vertex, null if none; an invalid vertex throws |
| SparseGraphs.SparseGraph.EdgeLabel | src/Graph/SparseGraph.java:248-258 | the label last given to a valid edge, null if none; an invalid edge throws |
| SparseGraphs.SparseGraph.ClearLabels | src/Graph/SparseGraph.java:259-268 | every vertex and edge loses its label and nothing else changes |
| SparseGraphs.SparseGraph.ClearVertexLabels | src/Graph/SparseGraph.java:261-263 | every vertex loses its label, keeping its owner and edges |
| SparseGraphs.SparseGraph.ClearEdgeLabels | src/Graph/SparseGraph.java:264-266 | every edge loses its label, keeping its owner |
| TreePrinters.Height | src/SelfBalancingBST/BinaryTreePrinter.java:28-29 | the depth of the deepest node, -1 exactly for the empty tree, which prints nothing |
| TreePrinters.Children | src/SelfBalancingBST/BinaryTreePrinter.java:55-72 | the positions queued for the next level are two per position of this one |
| TreePrinters.LevelSize | src/SelfBalancingBST/BinaryTreePrinter.java:32-33 | level i holds 2^i positions, nulls included, so each line lists 2^i tokens |
| TreePrinters.ChildrenAppend | src/SelfBalancingBST/BinaryTreePrinter.java:33-39 | queueing children position by position in order keeps the next level in left-to-right order |
| TreePrinters.ChildrenLevel | src/SelfBalancingBST/BinaryTreePrinter.java:55-72 | queueing the children of every position of level i gives level i + 1 |
| TreePrinters.KidsHaveNode | src/SelfBalancingBST/BinaryTreePrinter.java:56-71 | a position queues a node exactly when it is a node with at least one child |
| TreePrinters.HasNodeAppend | src/SelfBalancingBST/BinaryTreePrinter.java:35-37 | a joined run of positions holds a node exactly when one of its parts does |
| TreePrinters.NilLevel | src/SelfBalancingBST/BinaryTreePrinter.java:65-71 | below an empty position every position is empty |
| TreePrinters.LevelHasNode | src/SelfBalancingBST/BinaryTreePrinter.java:29-43 | level i holds a node exactly when i is at most the height, so printing stops after the deepest level that has a node |
| TreePrinters.SpacedJoined | src/SelfBalancingBST/BinaryTreePrinter.java:38-41 | a space after every token, with the last one deleted, is the tokens separated by single spaces |
| TreePrinters.HandleNextNodeToString | src/SelfBalancingBST/BinaryTreePrinter.java:51-73 | the front position leaves the queue, its text or "null" is appended, its two children or two nulls are queued, and the answer is whether a node was queued |
| TreePrinters.PrintBinaryTree | src/SelfBalancingBST/BinaryTreePrinter.java:23-46 | the output is one line per level from the root to the deepest node, each listing the level's 2^i positions left to right, nodes by their text and empty positions as "null", separated by spaces; an empty tree gives "" |
| TreePrinters.PrintLevel | src/SelfBalancingBST/BinaryTreePrinter.java:30-42 | one pass of the outer loop prints the level's tokens separated by spaces and a line end, queues the next level, and reports whether it holds no node |
| TreePrinters.NextLevel | src/SelfBalancingBST/BinaryTreePrinter.java:29-43 | below level k of a non-empty tree of height at least k, the queue holds level k + 1, which has a node exactly when k + 1 is at most the height, and the output gains level k's line |
| TreePrinters.HandleLevel | src/SelfBalancingBST/BinaryTreePrinter.java:32-39 | the inner loop queues the next level, appends each position's token followed by a space, and reports whether no node was queued |
| TreePrinters.Advance | src/SelfBalancingBST/BinaryTreePrinter.java:33-39 | handling position j of the level removes it from the queue front, queues its children, appends its token and a space, and updates the node test |

## Left out

- Console output, the `main` demonstration drivers and every `System.out` call are not modelled. The vertices that BFS, DFS and recursive DFS print, and the edges Prim prints, are returned as sequences.
- Prims.Prim.PrimMst: the printed line names the polled edge's destination twice, as the code does. The model returns the polled edges and keeps no text.
- BreadthFirstSearch.Bfs: the promise that vertices come out in non-decreasing edge distance from the start is not stated. It needs a theory of shortest walks that the model does not have. The first vertex, the absence of repeats and the exact reachable set are proved.
- Prims.Poll: java.util.PriorityQueue does not say which of several equally light edges leaves first. The model takes the first in queue order, and the contracts only rely on the polled edge being a lightest one.
- Treaps.TreapMap.Insert: priorities come from a static java.util.Random (src/SelfBalancingBST/TreapMap.java:21, 29-39). The model takes them as a parameter of insert. The seeded and random constructors are therefore not modelled.
- AvlTrees.AvlTreeMap.Remove: after a two-child removal the cached heights can be stale, because the node is rebalanced without its height being recomputed (src/SelfBalancingBST/AvlTreeMap.java:129, 155). The class invariant keeps BST order, non-negative heights and the size, but not the AVL balance. Balance is proved to survive insertion and removal of a node with at most one child.
- ArrayQueues.ArrayQueue.Enqueue requires numElements < capacity. The code has no capacity guard and overwrites the front element of a full queue; ArrayQueues.ArrayQueue.EnqueueAsWritten models that and the Findings table records it.
- UnionFinds.UnionFind.Union requires two distinct roots. Union of a root with itself would double its size.
- Prims.Prim.PrimMst requires at least one vertex, because the code starts from vertex 0. The Prim constructor requires a non-negative vertex count, which `new ArrayList<>(vertices)` also demands.
- GraphPaths.AddEdge and Prims.Prim.AddEdge require vertices in range, where Java would throw IndexOutOfBoundsException. Prim's addEdge would then have updated the source's list before throwing.
- GraphPaths.AddEdge: the three identical copies of addEdge in BFS.java, DFS.java and DFSRecursive.java are modelled once.
- Iterators of the hash maps, the tree maps and the BST set walk the structure as it was when the iterator was made. What they do after a later update of the structure is not modelled.
- DoublyLinkedLists.ListIterator.Next: behaviour when the list is changed while an iterator is in use is not modelled, because its contracts assume an unchanged list.
- DoublyLinkedLists.LinkedList.Convert accepts the two sentinels, as the code does, but no operation hands a sentinel out. The position-taking operations therefore require that a position naming this list as its owner is the node of one of its elements. Null, foreign and removed positions are still refused as the code refuses them.
- LinkedSets.LinkedSet.Union, Intersect and Subtract walk the nodes directly instead of through the set's iterator. Elements are visited in the same order.
- SparseGraphs.SparseGraph: labels are of a type parameter rather than Object. The vertices() and edges() views and toString are not modelled. A position naming this graph as its owner is assumed to be one of its vertices or edges. The node that a rejected duplicate insert creates also names the graph as its owner, but it is never handed out.
- ArrayListMaps.ArrayListMap.ToString: the keys' and values' own toString methods are parameters.
- Hash codes are a function parameter standing for hashCode. Key equality is Dafny equality, standing for equals.
- Java's 32-bit int overflow of sizes and counters is not modelled. Integers are unbounded.
- Kruskal.java, ArrayMap.java, JdkHashMap.java, GraphPrinter.java, StreetSearcher.java and DijkstraStreetSearcher.java are not part of this model. They are unfinished, a thin wrapper over a library map, or built on file input, floating point and unordered output.

## Findings

| source | as written | input that shows it | evidently intended | confidence | as-written member | corrected member |
|---|---|---|---|---|---|---|
| src/BST/BstOrderedSet.java:97-100 | the search for the element to remove compares it with the root's data at every level, not with the current node's | removing 1 from the set {1, 2} whose root holds 2 leaves the set unchanged | compare with `node.data`, so that every present element is removed | high, not executed | BstSets.RemoveMissesNonRootElement | BstSets.RemoveIntended |
| src/BST/BstOrderedSet.java:113-117 | a two-child node copies its successor's data and then removes the successor below, still comparing with the now-changed root's data; numElements is decremented once there and once more in the recursive call | removing 2 from {1, 2, 3, 4} with root 2 and right child 4 above 3 breaks the search order, loses 4 and counts two removals | remove only the successor's old node and count the removal once | high, not executed | BstSets.RemoveTwoChildRootBreaksOrder | BstSets.RemoveIntended |
| src/Queue/ArrayQueue.java:31-37 | enqueue writes slot `back` without testing whether the ten-slot buffer is full | ten enqueues of x on a new queue, then one of y: front returns y while x is still the oldest element | refuse the value or grow the array when the queue is full, never overwrite | high, not executed | ArrayQueues.OverflowOverwritesFront | ArrayQueues.ArrayQueue.Enqueue |
| src/Sorting/BubbleSort.java:30 | the base case of bubbleSortRecursive is `n == 1`, and main calls it with `arr.length` (line 48) | an empty array: n goes 0, -1, -2, ... and never meets 1 | stop at `n <= 1`, so an empty array is already sorted | high, not executed | BubbleSorts.EmptyArrayNeverStops | BubbleSorts.BubbleSortRecursive |
| src/Map/BinarySearchTreeMap.java:55-80 | remove captures the node holding the key, but a two-child removal overwrites that node's key and value with the successor's before `node.value` is returned; it also decrements size in the successor's removal and again at line 80 | the tree with root 2 and children 1 and 3: removing 2 returns 3's value and leaves size 1 with two keys | return the key's own value, read before the tree changes, and decrement once | high, not executed | BstMaps.TwoChildRemovalAsWritten | BstMaps.BinarySearchTreeMap.Remove |
| src/DoublyLinkedList/LinkedList.java:244 | `next` throws NoSuchElementException when `hasNext()` is true | a forward iterator over a one-element list reports a next element, and `next` throws | throw only when `hasNext()` is false | high, not executed | DoublyLinkedLists.NextAsWrittenRefusesElement | DoublyLinkedLists.ListIterator.Next |
