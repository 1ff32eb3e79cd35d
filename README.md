# Restaurant management core, verified in Dafny

`daa_project.c++` is a console restaurant-management program. Most of it
is menus, console and CSV I/O, and floating-point business rules. Inside
it are a set of self-contained data structures and algorithms over
integers and strings, and this project models them:

- the AVL customer index (`insertAVL`, the rotations, `searchBST`,
  `inorderBST`);
- the order max-heap on `priority` (`orderHeapifyUp`, `orderHeapifyDown`,
  and the append that order creation performs);
- the two ingredient hash tables:
  - the growing `DynamicInventoryTable`;
  - the fixed 101-slot table behind `simpleHash` and `probeIndex`;
- the delivery graph:
  - the weight matrix and adjacency lists;
  - BFS and DFS;
  - both forms of Dijkstra and both forms of Prim;
  - the nearest-neighbour tour;
- the `Algorithms` namespace: binary search, merge, quick and heap sort,
  Knuth-Morris-Pratt, Rabin-Karp and greedy change;
- the LRU cache, the circular bill queue, the kitchen FIFO, and the
  dining tables with their waitlist.

**Form of the model.** It follows the form of each piece of code:

- Recursive, value-returning code becomes datatypes and functions. This
  covers the AVL tree, the KMP specification, the hash-table
  specification and greedy change.
- Code that changes state step by step becomes methods with loop
  invariants, over arrays or over class fields. This covers:
  - the sorts, which work in place on `array<int>`;
  - the order heap, the bill ring buffer and the waitlist, which live in
    fixed arrays;
  - the two inventory tables;
  - the graph globals (`DeliveryNetwork`);
  - the LRU and kitchen lists.
- Each method is proved against a specification function or predicate.
  Lemmas then prove what the source promises about that specification:
  - sorted permutation;
  - exactly the matches of a naive search;
  - shortest distances;
  - a minimum spanning tree, grown across lightest cuts;
  - a breadth-first order, in which locations appear by hop distance;
  - first in, first out;
  - and so on.

**Effects without a Dafny equivalent.** Where the C++ code prints its
result, the model returns it instead. Where the C++ loop can spin
forever, the model returns `Hangs`. This applies to the triangular probe
loops of both inventory tables.

**Shared modules.** Several modules exist only to support the others:

- `Sorting`: sortedness and permutation facts.
- `Probing`: the triangular probe sequence `h + 1 + 2 + ... + k mod m`.
- `Primes`: divisibility, primality and `nextPrime`.
- `Wrappers`: `Option`.
- `EdgeSets`: spanning trees as sets of undirected edges, their weight,
  and the exchange step behind the cut property.

**Findings.** Verifying the inventory table, the LRU cache and the bill
queue showed defects in the code as written. Each is modelled twice:
- as written, with a concrete input that shows the defect;
- corrected, with the intended property proved.

The classes keep the code as written:
- `DynamicInventoryTable` (`Insert`, `Rehash`, `Retrieve`);
- `BillQueue.DequeueBill`.

The corrected behaviour is modelled beside them:
- `InventoryCorrected` for the growing table;
- `LruCache.LRUCache.Get` for the cache (`LruCache.LRUCache.GetAsWritten`
  is the code as written);
- `BillQueue.BillQueue.DequeueBillChecked` for the bill queue.

See "Findings" below.

## Model

| member | source | states |
|---|---|---|
| AvlIndex.RightRotate | daa_project.c++:1136-1145 | the rotated tree holds the same ids and (id, name) entries, stays a search tree, and its cached heights are exact when the two subtrees' are |
| AvlIndex.LeftRotate | daa_project.c++:1147-1156 | the mirror image of the right rotation: same ids and entries, order kept, cached heights exact |
| AvlIndex.Insert | daa_project.c++:1172-1211 | the result is an AVL tree: ordered by id, every cached height equal to the real height, every balance factor in [-1, 1]. It holds the old ids plus the new one. A new id adds its (id, name) entry. An id already present returns the very same tree, so the stored name is not overwritten. The height grows by at most one |
| AvlIndex.LeftLeft | daa_project.c++:1192-1195 | the left-left case (one right rotation) restores the AVL invariant with the insertion's key set, entries and height bound |
| AvlIndex.RightRight | daa_project.c++:1196-1199 | the right-right case (one left rotation) restores the AVL invariant, with the same guarantees |
| AvlIndex.LeftRight | daa_project.c++:1200-1204 | the left-right case: the left child has a right subtree to rotate, and the double rotation restores the invariant |
| AvlIndex.RightLeft | daa_project.c++:1205-1209 | the right-left case: the right child has a left subtree to rotate, and the double rotation restores the invariant |
| AvlIndex.LeftNoRotation | daa_project.c++:1190-1210 | when inserting on the left leaves the balance factor at most 1, recomputing the height alone keeps the invariant |
| AvlIndex.RightNoRotation | daa_project.c++:1190-1210 | when inserting on the right leaves the balance factor at least -1, recomputing the height alone keeps the invariant |
| AvlIndex.Search | daa_project.c++:1222-1231 | a node found holds the id searched for and an entry of the tree; on an ordered tree a node is found exactly when the id is stored |
| AvlIndex.Inorder | daa_project.c++:1241-1248 | lists each entry of the tree exactly once (length equals node count, same entries), in strictly ascending id order on an ordered tree |
| AvlIndex.NamesUnique | daa_project.c++:1178-1189 | in an ordered tree an id carries one name only |
| AvlIndex.SearchAfterInsert | daa_project.c++:1172-1231 | after an insert, an id is found exactly when it is the inserted one or was found before. The inserted id's name is the old one when the id was present and the new one otherwise. Every other id keeps its name |
| AvlIndex.BuildIndex | daa_project.c++:3541-3551 | inserting customers one by one from an empty index yields an AVL tree whose ids are exactly the customers' ids |
| AvlIndex.BuildIndexKeepsFirst | daa_project.c++:1186-1188 | when customers are inserted in turn, the name found for an id is the name of the first customer inserted with it |
| AvlIndex.RotationScenario | daa_project.c++:1196-1198 | inserting ids 10, 20, 30 in ascending order triggers the single left rotation: 20 becomes the root with leaves 10 and 30 |
| AvlIndex.HeightIsLogarithmic | daa_project.c++:1118-1124 | in a valid AVL tree the node count plus one is at least 2^(height / 2), so the height is logarithmic in the number of customers |
| OrderHeap.Swap | daa_project.c++:666-668 | swapping two entries exchanges them, keeps every other entry and keeps the multiset of orders |
| OrderHeap.OrderHeap.constructor | daa_project.c++:662-664 | an empty heap of capacity 300 |
| OrderHeap.OrderHeap.SwapOrder | daa_project.c++:666-668 | the stored part of the heap becomes the swapped sequence; the slots past `orderHeapSize` are unchanged |
| OrderHeap.OrderHeap.HeapifyUp | daa_project.c++:670-677 | from a heap whose only defect is at `index` and its parent, the loop restores the max-heap property on `priority`. It only swaps, so the multiset of orders is unchanged and so are the slots past the size |
| OrderHeap.OrderHeap.HeapifyDown | daa_project.c++:679-692 | from a heap whose only defects are at `index` and its children, the loop restores the max-heap property. The multiset of orders and the unused slots are unchanged |
| OrderHeap.OrderHeap.Add | daa_project.c++:3584-3585 | appending an order and sifting it up gives a max-heap whose multiset of orders is the old one plus the new order, and whose size is one larger |
| OrderHeap.RootIsMax | daa_project.c++:670-692 | in a max-heap the first entry has the greatest priority |
| Probing.ProbeHome | daa_project.c++:2062-2063 | the first probe is the home slot itself |
| Probing.ProbeAdvance | daa_project.c++:2064-2067 | the step `idx = (idx + step) % size; step++` moves from the k-th probe position (home + 1 + ... + k mod size) to the (k+1)-th |
| Probing.ProbesDistinct | daa_project.c++:2064-2067 | on a prime table size p the first (p + 1) / 2 probe positions are pairwise distinct |
| Probing.FreeSlotWithinReach | daa_project.c++:2064-2067 | on a prime size p, when fewer than (p + 1) / 2 slots are taken, one of the first (p + 1) / 2 probes lands on a free slot |
| Probing.ProbePeriodic | daa_project.c++:2064-2067 | on an odd table size m the probe positions repeat with period m |
| Probing.ProbeMirror | daa_project.c++:2064-2067 | on an odd size m the probes k and m - 1 - k land on the same slot |
| Probing.ReachedSize | daa_project.c++:2064-2067 | on a prime size p, the first n <= (p + 1) / 2 probes reach n different slots |
| Probing.ProbeWithinHalf | daa_project.c++:2064-2067 | on an odd size m every probe, however late, lands on one of the first (m + 1) / 2 positions, so the loop visits at most (m + 1) / 2 slots |
| Primes.TrialDivisionSuffices | daa_project.c++:2041-2048 | a number n >= 2 with no divisor d where 2 <= d and d * d <= n is prime (the test `nextPrime` performs) |
| Primes.PrimeAtLeast | daa_project.c++:2040-2050 | there is a prime at or above every number, so the search of `nextPrime` ends |
| Primes.NextPrime | daa_project.c++:2038-2051 | below 2 the argument comes back unchanged. Otherwise the result is prime, is at least the argument, and no number in between is prime (the least prime at or above it) |
| InventoryTable.Hash | daa_project.c++:2017-2021 | the sum of the character codes modulo the table size is a slot index in [0, size); `simpleHash` at 950-958 is the same with size 101 |
| InventoryTable.FirstStop | daa_project.c++:2064-2067 | the probe number returned stops the loop (free slot or the name) and no earlier probe does; none means none of the probes from `from` to size - 1 stops |
| InventoryTable.FindNoneLoopsForever | daa_project.c++:2064-2067 | on an odd table size, when none of the first `size` probes stops, no probe ever stops: the C++ loop never ends |
| InventoryTable.Find | daa_project.c++:2062-2067 | a slot returned by the probe loop of `insert` and `retrieve` is in the table and stops the loop: it is free or holds the name |
| InventoryTable.ProbeLoop | daa_project.c++:2075-2080 | the probe loop returns the slot where the first stopping probe lands, or reports that it never stops |
| InventoryTable.FindAt | daa_project.c++:976-981 | the first stopping probe found by a loop over probe numbers is the slot `Find` names |
| InventoryTable.Stored | daa_project.c++:2074-2086 | the names a table can retrieve are exactly the names in its used slots |
| InventoryTable.LookupStored | daa_project.c++:2074-2086 | `retrieve` of a stored name returns its item. Of an absent name it returns false, or never returns when no probe stops |
| InventoryTable.Place | daa_project.c++:2062-2071 | the probe-and-write of `insert` keeps the table size whenever it returns |
| InventoryTable.PlaceFindsSelf | daa_project.c++:2062-2071 | after the insert's probe-and-write, the name is found at the same slot and holds the new item |
| InventoryTable.PlaceKeepsOther | daa_project.c++:2062-2071 | the write leaves every other found name at its slot with its item |
| InventoryTable.PlaceNames | daa_project.c++:2062-2071 | the names in used slots after the write are the old ones plus the inserted name |
| InventoryTable.PlaceFresh | daa_project.c++:2068 | the slot found was free (`itemCount++`) exactly when the name was not stored |
| InventoryTable.PlaceStored | daa_project.c++:2062-2071 | after the write every name is still found, and the stored map is the old one with the name mapped to the new item |
| InventoryTable.Reinsert | daa_project.c++:2030-2034 | reinserting the used slots keeps the table size |
| InventoryTable.Resized | daa_project.c++:2027 | `table.resize(newSize)` keeps the old slots in place and appends unused ones |
| InventoryTable.LastCopy | daa_project.c++:2030-2034 | the index of the last used slot holding a name, or -1 |
| InventoryTable.LastCopyView | daa_project.c++:2030-2034 | each name in a used slot mapped to the item of its last copy |
| InventoryTable.ReinsertStep | daa_project.c++:2031-2033 | one round of the reinsertion loop keeps its invariant |
| InventoryTable.ReinsertView | daa_project.c++:2030-2034 | when the reinsertion ends, every name of the old table is found, and its item is the one from the old table's last copy of that name |
| InventoryTable.RehashAsWrittenView | daa_project.c++:2023-2036 | after `rehash` as written, every name is still found, and retrieves the item of its last copy in the old table |
| InventoryTable.UniqueLastCopy | daa_project.c++:2074-2086 | when every name sits in one slot, the last copy of each is the one `retrieve` finds |
| InventoryTable.LeastPrimeFrom | daa_project.c++:2026 | the least prime at or above n: the size `nextPrime(2 * size)` returns for the table |
| InventoryTable.LeastPrimeUnique | daa_project.c++:2038-2051 | the least prime at or above n is unique |
| InventoryTable.FiftyThreeIsPrime | daa_project.c++:2005 | the initial size 53 is prime |
| InventoryTable.InsertAfterGrowth | daa_project.c++:2058-2072 | `insert` is the load check and its rehash, followed by the probe-and-write on the table that results |
| InventoryTable.DynamicInventoryTable.constructor | daa_project.c++:2054-2056 | a table of 53 unused slots, count 0, nothing stored |
| InventoryTable.DynamicInventoryTable.PlaceItem | daa_project.c++:2062-2071 | the probe-and-write of `insert`: the table and count become those of the specification, or the call never returns |
| InventoryTable.DynamicInventoryTable.Rehash | daa_project.c++:2023-2036 | the size becomes the least prime at or above twice the old size, and the state is the as-written rehash of the old table. If it returns, each name retrieves its last copy's item |
| InventoryTable.DynamicInventoryTable.GrowIfLoaded | daa_project.c++:2059-2061 | rehash exactly when `itemCount / currentSize >= 0.7`, otherwise nothing changes |
| InventoryTable.DynamicInventoryTable.Insert | daa_project.c++:2058-2072 | state as the as-written insert specifies. When it returns, the name retrieves the new item and every other name keeps what it retrieved (after a rehash, its last copy's item). Without a rehash the count grows exactly when the name was new |
| InventoryTable.DynamicInventoryTable.Retrieve | daa_project.c++:2074-2086 | returns the stored item of a stored name. For an absent name it returns false, or never returns when no probe stops |
| InventoryTable.DynamicInventoryTable.GetAllItems | daa_project.c++:2088-2096 | the items of the used slots in slot order, one per used slot |
| InventoryTable.DynamicInventoryTable.GetSize | daa_project.c++:2098 | returns `itemCount` |
| InventoryTable.DynamicInventoryTable.GetTableSize | daa_project.c++:2099 | returns `currentSize` |
| InventoryTable.FixedSlots | daa_project.c++:946-948 | the parallel arrays `inventoryTable` and `inventoryUsed` viewed as one slot per index |
| InventoryTable.ProbeIndex | daa_project.c++:972-982 | the probe loop over the 101 slots returns the slot of the first stopping probe, or reports that it never stops |
| InventoryTable.AddInventoryItem | daa_project.c++:993-995 | writes the item at the probed slot and marks it used. Hangs exactly when the probe never stops. When all names were found before, they still are, and the stored map gains the item under its name |
| InventoryTable.FindInventoryItem | daa_project.c++:998-1025 | the lookup of `updateInventoryItem` and `viewInventoryItem`: a slot returned holds the name, and "not found" means the name is not stored |
| InventoryFindings.HomeTable | daa_project.c++:2054-2072 | the 53-slot table holding each given name at its home slot |
| InventoryFindings.FillHomes | daa_project.c++:2058-2072 | inserting up to 38 names with distinct home slots into a fresh table puts each at its home and counts them all |
| InventoryFindings.ProbeHangsBelowThreshold | daa_project.c++:2058-2086 | 27 inserts fill the 27 slots the probe from home 0 can reach, with a load of 27/53 < 0.7, so no rehash. Then both `insert` and `retrieve` of a 28th name with home 0 never return |
| InventoryFindings.PrimeAfter106 | daa_project.c++:2038-2051 | `nextPrime(106)` is 107: the first rehash grows 53 slots to 107 |
| InventoryFindings.SelfReinsert | daa_project.c++:2030-2034 | when each used slot is already the home of its name in the new size, reinsertion finds every name in place and counts none |
| InventoryFindings.RehashKeepsStaleCopy | daa_project.c++:2023-2036 | 38 inserts followed by a 39th trigger the rehash. Afterwards `itemCount` is 2 instead of 39, and a name moved by the rehash has a stale copy at its old slot. Every name is still retrievable |
| InventoryFindings.Insert39Result | daa_project.c++:2058-2072 | the 39th insert on the 38-item table rehashes to 107 slots and leaves `itemCount` at 2 |
| InventoryFindings.Names39Found | daa_project.c++:2074-2086 | after that insert every one of the 39 names still retrieves its item |
| InventoryFindings.UpdateMovedWritesLive | daa_project.c++:2062-2071 | an insert of the moved name writes its live slot 3 only, and counts nothing new |
| InventoryFindings.StaleMovedFind | daa_project.c++:2074-2086 | on such a table the probe for "77" stops at its live copy, slot 3 |
| InventoryFindings.OldItemOnSlot4 | daa_project.c++:2023-2036 | after the 39th insert, slot 4 still holds "77" with its first item |
| InventoryFindings.UpdateLeavesStaleItem | daa_project.c++:2058-2072 | right after the 39th insert, inserting "77" with a new item writes slot 3 only and counts nothing, so `getSize()` still reports 2. `retrieve("77")` returns the new item, while `getAllItems()` lists both the new item and the old one on slot 4 |
| InventoryTable.UsedItemsHas | daa_project.c++:2088-2096 | the item of every used slot is among those `getAllItems` returns |
| InventoryCorrected.PlaceRoom | daa_project.c++:2064-2067 | with fewer than (size + 1) / 2 used slots on a prime size, the probe always stops |
| InventoryCorrected.FreshReinsert | daa_project.c++:2030-2034 | reinserting distinct names into a fresh table never hangs, and counts every name once |
| InventoryCorrected.CountIsNames | daa_project.c++:2068 | in the corrected table the count equals the number of stored names |
| InventoryCorrected.CorrectedRehash | daa_project.c++:2023-2036 | reinserting into fresh slots keeps the invariant and the count, and stores exactly what was stored before |
| InventoryCorrected.CorrectedInsert | daa_project.c++:2058-2072 | always returns. The stored map is the old one with the name mapped to the item. The count grows exactly when the name was new |
| InventoryCorrected.CorrectedRetrieve | daa_project.c++:2074-2086 | never hangs, and returns the stored item of a stored name and false otherwise |
| DeliveryGraph.WithEdge | daa_project.c++:1284-1293 | prepending the two adjacency nodes keeps one list per location |
| DeliveryGraph.WithEdgeDests | daa_project.c++:1284-1293 | after the two prepends, u's list gains v, v's list gains u, and every other list is unchanged |
| DeliveryGraph.WithEdgeKeepsShape | daa_project.c++:1280-1294 | adding an edge keeps every destination a valid location, and keeps the lists symmetric |
| DeliveryGraph.InitialMatrixShape | daa_project.c++:1270-1275 | the initial matrix is symmetric, and zero exactly on the diagonal (99999 elsewhere) |
| DeliveryGraph.AddEdgeKeepsSymmetry | daa_project.c++:1282-1283 | writing w at (u, v) and at (v, u) keeps a symmetric matrix symmetric |
| DeliveryGraph.DeliveryNetwork.constructor | daa_project.c++:1254-1265 | the zero-initialised globals: empty lists, `locationCount` 0 |
| DeliveryGraph.DeliveryNetwork.Matrix | daa_project.c++:1255 | the first n rows and columns of `deliveryGraph`, entry for entry, as an n by n matrix |
| DeliveryGraph.DeliveryNetwork.InitDeliveryGraph | daa_project.c++:1267-1278 | the first `nodes` rows and columns become 0 on the diagonal and 99999 elsewhere, with the rest of the matrix unchanged. The first `nodes` lists become empty and the others are unchanged |
| DeliveryGraph.DeliveryNetwork.AddDeliveryEdge | daa_project.c++:1280-1294 | writes w at (u, v) and (v, u), leaving every other entry alone, and prepends v to u's list and u to v's |
| DeliveryGraph.LeastPair | daa_project.c++:1521-1523 | a non-empty priority queue has a least (distance, location) pair, which `pq.top()` of the min-queue yields |
| Traversal.BfsDelivery | daa_project.c++:1320-1345 | the order printed starts at `start` and lists each location once. Every later location is on the list of an earlier one, and every destination on a listed location's list is listed. The order is breadth-first: each location comes after the location that found it, no earlier location has it on its list, and the finders' positions never go back |
| Traversal.BfsStep | daa_project.c++:1325-1343 | handling the next queued location keeps the queue's state: it starts at `start`, lists each location once, each found by an earlier one, holds every destination of a handled location, and meets the breadth-first conditions |
| Traversal.AllHandled | daa_project.c++:1325-1345 | once the queue is exhausted, the order is a complete traversal from `start` in breadth-first order |
| Traversal.DiscoveryStep | daa_project.c++:1325-1343 | handling the next queued location keeps the breadth-first conditions for every location handled so far |
| Traversal.DiscoveryFound | daa_project.c++:1333-1342 | each queued location was found on the list of a location handled before it |
| Traversal.DiscoveryMonotone | daa_project.c++:1325-1343 | the finders' positions never go back along the queue |
| Traversal.DiscoveryFirst | daa_project.c++:1333-1342 | a location is found by the first handled location that has it on its list |
| Traversal.LevelsNondecreasing | daa_project.c++:1316-1345 | along a breadth-first order the level (steps back to the start through the finders) never decreases |
| Traversal.LevelWalk | daa_project.c++:1316-1345 | each location is reached from `start` by a walk with as many steps as its level |
| Traversal.LevelNoLonger | daa_project.c++:1316-1345 | no walk from `start` to a location has fewer steps than its level |
| Traversal.HopDistance | daa_project.c++:1316-1345 | the level of each location is its hop distance from `start`, so BFS lists locations in order of distance from the source |
| Traversal.EnqueueNeighbours | daa_project.c++:1333-1342 | the inner loop appends the unvisited destinations of the current list. After it, every destination is visited and queued, and each is queued only once. Each newly queued location is on the current list and is recorded as found by the current position |
| Traversal.DfsDeliveryUtil | daa_project.c++:1347-1360 | the locations printed start at u, are distinct, and were unvisited before. They become visited, and every destination on their lists is visited afterwards |
| Traversal.Descend | daa_project.c++:1354-1357 | one round of the DFS loop: an unvisited destination is explored recursively, after which it is visited and the visited set only grew |
| Traversal.DfsDelivery | daa_project.c++:1371-1378 | the same complete traversal property as BFS, from `start` |
| Traversal.TraversalCoversWalks | daa_project.c++:1320-1378 | a complete traversal lists the end of every walk along the lists from `start` |
| Traversal.TraversalReachable | daa_project.c++:1320-1378 | every listed location is the end of such a walk |
| Traversal.TraversalsAgree | daa_project.c++:1320-1378 | any two complete traversals from one start visit the same locations, so BFS and DFS agree up to order |
| ShortestPaths.MinDistance | daa_project.c++:1384-1396 | returns -1 exactly when every location is settled or above 1e9. Otherwise it returns an unsettled location of least distance, the last such one (`<=`) |
| ShortestPaths.LoweredStep | daa_project.c++:1425-1431 | one relaxation keeps each label either unchanged or lowered to the label of u plus the edge from u, and leaves the label of u as it was |
| ShortestPaths.RelaxEdges | daa_project.c++:1425-1431 | the relaxation loop keeps the Dijkstra round invariant: afterwards no edge from u gives a lighter route to any location, and each label either stays or drops to the label of u plus the edge weight. The label of u is unchanged |
| ShortestPaths.Dijkstra | daa_project.c++:1411-1438 | the distances are a shortest-distance labelling: 0 at `src`, never improvable along a non-zero entry, each reached location labelled through an edge, 1e9 for the rest |
| ShortestPaths.ScanEdges | daa_project.c++:1527-1533 | the relaxation loop of the queue version keeps its invariant, and pushes every lowered distance |
| ShortestPaths.DijkstraOptimized | daa_project.c++:1513-1543 | a shortest-distance labelling. Each parent is -1 exactly at `src` and at unreached locations, and otherwise an edge through which the distance is attained |
| ShortestPaths.ShortestIsLightestRoute | daa_project.c++:1411-1438 | with non-negative weights, each distance below 1e9 is the weight of a route from `src`, and no route to that location is lighter |
| ShortestPaths.ShortestIsGreatest | daa_project.c++:1411-1438 | the labelling is the greatest one no edge can improve |
| ShortestPaths.ShortestUnique | daa_project.c++:1513-1543 | two shortest-distance labellings of the same matrix coincide, so both Dijkstras print the same distances |
| SpanningTree.MinKey | daa_project.c++:1444-1456 | returns -1 exactly when every location outside the tree has key 1e9 or more. Otherwise it returns an outside location of least key, the first such one (`<`) |
| SpanningTree.Extend | daa_project.c++:1482-1494 | joining a location of least key keeps the invariant: it hangs from a tree location through an edge of its key, lightest across the cut |
| SpanningTree.RelaxKeys | daa_project.c++:1486-1493 | the key-update loop leaves every outside location's key at most the weight of each tree edge to it |
| SpanningTree.PrimMST | daa_project.c++:1458-1502 | with n > 0, either a Prim tree results or the tree from 0 got stuck with no edge lighter than 1e9 to the rest. On a symmetric matrix the tree is a minimum spanning tree of the locations it joins |
| SpanningTree.RelaxQueued | daa_project.c++:1565-1571 | the key-update loop of the queue version keeps the invariant and pushes every lowered key |
| SpanningTree.PrimMSTOptimized | daa_project.c++:1549-1584 | `parent` and `key` form a Prim tree grown from 0 in join order. Each location hangs from an earlier one by an edge equal to its key, lightest across the cut. Locations never joined keep -1 and 1e9. The printed total is the tree's cost. On a symmetric matrix the tree is a minimum spanning tree of the locations it joins |
| SpanningTree.PrimMinimal | daa_project.c++:1458-1469 | Prim's tree is a spanning tree of the locations it joins, its weight is the tree's cost, and no spanning tree of those locations weighs less |
| SpanningTree.PrimSpans | daa_project.c++:1482-1501 | the tree's edges join distinct joined locations by edges lighter than 1e9, link every joined location to 0, and number one fewer than the locations |
| SpanningTree.PrimExchange | daa_project.c++:1482-1494 | any spanning tree of the joined locations can be traded, one crossing edge at a time, for one no heavier that holds every tree edge |
| SpanningTree.ExchangeStep | daa_project.c++:1484-1492 | the join of the k-th location lets a spanning tree holding the first k - 1 tree edges be traded for one, no heavier, holding the k-th too |
| SpanningTree.CutAt | daa_project.c++:1484-1492 | the k-th location joins by an edge lighter than 1e9 from the locations joined before it, no heavier than any edge leaving them |
| SpanningTree.PrimEdgesNext | daa_project.c++:1486-1492 | the first k tree edges lie among the first k locations, and the next tree edge joins the k-th location to them |
| SpanningTree.PrimEdgesInside | daa_project.c++:1486-1492 | each tree edge joins two different joined locations by an edge lighter than 1e9 |
| SpanningTree.PrimEdgesSize | daa_project.c++:1482-1494 | the first k joins add k - 1 different edges |
| SpanningTree.PrimEdgesLinked | daa_project.c++:1482-1494 | through the tree's edges every joined location is linked to 0 |
| SpanningTree.PrimEdgesAreParentEdges | daa_project.c++:1495-1501 | the tree's edges are exactly the (parent, location) pairs the `parent` array names |
| SpanningTree.NoTwoCycle | daa_project.c++:1486-1492 | no two locations are each other's parent |
| SpanningTree.PrimNoTwoCycles | daa_project.c++:1486-1492 | Prim's parent array has no two locations that are each other's parent |
| SpanningTree.ParentEdgeNew | daa_project.c++:1576-1582 | in a parent array without such pairs, each location's edge to its parent is named by no lower location |
| SpanningTree.TreeCostIsWeight | daa_project.c++:1576-1582 | on a symmetric matrix, with a parent array without such pairs, the printed total is the weight of the parent array's edges |
| SpanningTree.JoinedSize | daa_project.c++:1482-1494 | distinct joined locations are as many as the join order is long |
| EdgeSets.Exchange | daa_project.c++:1458-1469 | a spanning tree without a lightest edge across a cut has a crossing edge, no lighter, whose trade for it leaves a spanning tree |
| EdgeSets.ExchangeKeeping | daa_project.c++:1458-1469 | the same trade keeps every edge inside the cut, adds the lightest edge, and does not add weight |
| EdgeSets.WeightRemove | daa_project.c++:1576-1582 | the weight of an edge set is any one edge's weight plus the weight of the rest |
| EdgeSets.WeightAdd | daa_project.c++:1576-1582 | adding a new edge adds its weight |
| EdgeSets.Reroute | daa_project.c++:1458-1469 | a walk that crosses a traded edge can go round through the new edge instead |
| EdgeSets.SimpleWalk | daa_project.c++:1458-1469 | any walk can be cut down to one that repeats no location, with the same ends |
| SpanningTree.TotalCost | daa_project.c++:1576-1582 | sums the matrix weight of each location to its parent, over the locations with a parent |
| SpanningTree.PrimTreeSpansReach | daa_project.c++:1549-1584 | a location is in the tree exactly when a route of edges lighter than 1e9 leads to it from 0 |
| SpanningTree.StuckMeansUnreachable | daa_project.c++:1482-1494 | when `primMST` stops short, some location is unreachable from 0 by edges lighter than 1e9 |
| SpanningTree.TreeCostIsKeySum | daa_project.c++:1576-1582 | on a symmetric matrix the printed total equals the sum of the keys of the joined locations |
| Tour.Nearest | daa_project.c++:2654-2661 | returns -1 exactly when no unvisited location is below 1e9. Otherwise it returns an unvisited location of least entry below 1e9, the first such one |
| Tour.TspApproximation | daa_project.c++:2645-2672 | the route is a nearest-neighbour path from `start` that stopped only when nothing unvisited was below 1e9, followed by `start`. It has n + 1 entries exactly when it visits every location |
| Tour.NearestPathUnique | daa_project.c++:2653-2667 | the stopped nearest-neighbour path is determined by the matrix and `start` |
| Tour.TourCoversAll | daa_project.c++:2645-2672 | when every entry between distinct locations is below 1e9, the route has n + 1 entries and visits every location |
| DeliveryDemo.DemoEdges | daa_project.c++:3490-3495 | the nine `addDeliveryEdge` calls of the demo produce the demo matrix |
| DeliveryDemo.AddDemoEdge | daa_project.c++:1280-1283 | one demo `addDeliveryEdge` call writes w at (u, v) and (v, u) of the 6 by 6 matrix |
| DeliveryDemo.BuildDemo | daa_project.c++:3490-3495 | building the demo graph leaves exactly that matrix |
| DeliveryDemo.DemoDistances | daa_project.c++:3504 | the shortest distances from 0 on the demo graph are [0, 7, 9, 20, 20, 11] |
| DeliveryDemo.DemoParents | daa_project.c++:3504 | the parents printed are [-1, 0, 0, 2, 5, 2] |
| DeliveryDemo.DemoPath | daa_project.c++:2653-2667 | [0, 1, 2, 5, 4, 3] is the stopped nearest-neighbour path from 0 on the demo graph |
| DeliveryDemo.DemoTour | daa_project.c++:3508 | the demo tour is [0, 1, 2, 5, 4, 3, 0] |
| DeliveryDemo.RouteDemo | daa_project.c++:3490-3508 | running the demo yields those distances, parents and tour |
| Searching.BinarySearch | daa_project.c++:351-359 | an index returned holds the target; on sorted input -1 means the target is absent |
| Searching.MatchesSpec | daa_project.c++:498-510 | the naive specification: all start positions below n where the pattern occurs, each once, ascending |
| Searching.KmpPrefix | daa_project.c++:477-485 | `lps[k]` is the length of the longest proper border of the first k + 1 characters |
| Searching.KmpSearch | daa_project.c++:498-510 | nothing for an empty pattern, otherwise exactly the ascending start positions of every occurrence |
| RabinKarp.WindowMatch | daa_project.c++:541 | the character check reports a match exactly when the window equals the pattern |
| RabinKarp.LeadWeight | daa_project.c++:531-532 | h is base^(m - 1) modulo `mod` |
| RabinKarp.FirstHashes | daa_project.c++:533-537 | p and t are the hashes of the pattern and of the first window, modulo `mod` |
| RabinKarp.Roll | daa_project.c++:545 | the rolling update gives the hash of the next window |
| RabinKarp.MatchSameHash | daa_project.c++:539 | equal windows have equal hashes, so skipping on a hash mismatch loses no match |
| RabinKarp.RabinKarpSearch | daa_project.c++:526-549 | nothing for an empty pattern, otherwise exactly the positions `kmpSearch` reports |
| Change.TruncatedDivision | daa_project.c++:568-569 | C++ `/` and `%`: quotient times divisor plus remainder is the dividend, and the remainder has the dividend's sign and is smaller than the divisor |
| Change.GreedyChange | daa_project.c++:565-572 | `take[i]` is the C++ quotient of what remains before denomination i. The coins' value plus the final remainder is the amount |
| Change.GreedyBounds | daa_project.c++:565-572 | with a non-negative amount and positive denominations, each count is non-negative and what remains after a denomination is below it |
| Change.ExactWithUnit | daa_project.c++:571 | when the last denomination is 1, nothing is left over |
| Change.GreedyNotOptimal | daa_project.c++:563 | coins 4, 3, 1 and amount 6: greedy takes 4 + 1 + 1 (three coins), while 3 + 3 pays with two |
| Sorting.SortedUnique | daa_project.c++:393-464 | two sorted permutations of one multiset are equal, so all three sorts produce the same vector |
| Sorting.Swap | daa_project.c++:403 | exchanges two entries and keeps the others |
| Sorting.SwapPermutes | daa_project.c++:403 | a swap keeps the multiset |
| Sorting.Exchange | daa_project.c++:441 | `swap(a[i], a[j])` on the array |
| MergeSort.MergedSortedPermutation | daa_project.c++:362-371 | merging two sorted runs gives a sorted permutation of both |
| MergeSort.MergeHeads | daa_project.c++:365-368 | the first loop copies the smaller head each time until one run is used up |
| MergeSort.CopyRest | daa_project.c++:369-370 | copies the remaining run |
| MergeSort.Merge | daa_project.c++:362-371 | `a[l..r]` becomes the merge of the two old halves, and nothing outside changes |
| MergeSort.MergeSortRec | daa_project.c++:373-379 | `a[l..r]` becomes a sorted permutation of itself, and nothing outside changes |
| MergeSort.MergeSortAll | daa_project.c++:393-395 | the vector becomes a sorted permutation of itself |
| QuickSort.PartitionScan | daa_project.c++:399-406 | the scan leaves entries at most the pivot before i and greater ones from i, a permutation |
| QuickSort.Partition | daa_project.c++:398-409 | the pivot `a[r]` ends at p with the entries at most it to its left and the greater ones to its right, a permutation of `a[l..r]` with nothing outside changed |
| QuickSort.QuickStep | daa_project.c++:411-417 | sorting both sides of a partition gives a sorted permutation |
| QuickSort.QuickSortRec | daa_project.c++:411-417 | `a[l..r]` becomes a sorted permutation of itself, and nothing outside changes |
| QuickSort.SortSides | daa_project.c++:414-415 | both recursive calls sort their side in place |
| QuickSort.QuickSortAll | daa_project.c++:429-431 | the vector becomes a sorted permutation of itself |
| HeapSort.Heapify | daa_project.c++:434-444 | from a heap of n entries broken only at i, restores the max-heap by swaps, touching nothing outside [i, n) |
| HeapSort.SiftDown | daa_project.c++:440-443 | the swap and recursive call of `heapify` |
| HeapSort.BuildHeap | daa_project.c++:459 | the first loop turns the vector into a max-heap, a permutation of it |
| HeapSort.BelowRoot | daa_project.c++:461 | the root of a max-heap is its largest entry |
| HeapSort.SortDown | daa_project.c++:460-463 | the extraction loop turns a max-heap into a sorted permutation |
| HeapSort.HeapSortAll | daa_project.c++:457-464 | the vector becomes a sorted permutation of itself |
| LruCache.Without | daa_project.c++:301-312 | unlinking a node removes exactly its key from the list, keeping the others distinct and in order |
| LruCache.PutCoherent | daa_project.c++:269-278 | list and map keep the same keys, each once, within the capacity. The size grows by one only for a new key in a cache that is not full |
| LruCache.PutPresent | daa_project.c++:270-271 | `put` of a present key keeps list and map coherent and the size unchanged |
| LruCache.PutEvicting | daa_project.c++:272-275 | `put` of a new key into a full cache evicts the tail, keeping coherence and the size |
| LruCache.PutGrowing | daa_project.c++:276-277 | `put` of a new key into a cache with room keeps coherence and grows the size by one |
| LruCache.PutThenGet | daa_project.c++:269-278 | after `put`, the key is at the head of the list and `get` finds the new value |
| LruCache.PutKeepsOthers | daa_project.c++:272-273 | another key keeps its value. It is dropped exactly when the cache was full of other keys and it was the least recently used |
| LruCache.PutBounded | daa_project.c++:272 | a positive capacity bounds the number of entries, and a full cache stays full |
| LruCache.GetCoherent | daa_project.c++:286-293 | `get` with the evident intent keeps list and map coherent, and moves a present key to the head |
| LruCache.GetTwice | daa_project.c++:286-293 | `get` with the evident intent changes no key's value, so a second `get` still finds the key |
| LruCache.GetAsWrittenForgets | daa_project.c++:286-293 | `get` as written returns the value, but leaves the map without the key, so the next `get` misses and list and map disagree |
| LruCache.GetAfterPutExample | daa_project.c++:269-293 | capacity 2, `put(1, 10)`: as written, `get(1)` then `get(1)` misses; with the fix it finds 10 |
| LruCache.LRUCache.constructor | daa_project.c++:256-261 | an empty list with the given capacity |
| LruCache.LRUCache.Put | daa_project.c++:269-278 | the state becomes the one `put` specifies; the cache stays coherent |
| LruCache.LRUCache.Get | daa_project.c++:286-293 | corrected: returns the value of a present key and moves it to the head, keeping it in the map |
| LruCache.LRUCache.GetAsWritten | daa_project.c++:286-293 | as written: returns the value, relinks the key at the head and erases it from the map |
| BillQueue.RingEnqueue | daa_project.c++:895-897 | writing at the rear slot and advancing it appends the bill to the queued sequence |
| BillQueue.RingDequeue | daa_project.c++:911-913 | the front slot holds the oldest bill, and advancing the front drops it from the sequence |
| BillQueue.BillQueue.constructor | daa_project.c++:852-856 | counters 0 and an empty queue |
| BillQueue.BillQueue.BillIsFull | daa_project.c++:868-871 | true exactly when 300 bills are queued |
| BillQueue.BillQueue.BillIsEmpty | daa_project.c++:873-876 | true exactly when no bill is queued |
| BillQueue.BillQueue.EnqueueBill | daa_project.c++:888-898 | a full queue is left unchanged; otherwise the bill goes in at the rear slot and is appended to the queue |
| BillQueue.BillQueue.DequeueBill | daa_project.c++:909-915 | as written: returns the front slot, advances the front and decrements the size, whatever the size; on a non-empty queue it hands out the oldest bill |
| BillQueue.BillQueue.DequeueBillChecked | daa_project.c++:909-915 | corrected: an empty queue returns nothing and stays unchanged; otherwise the oldest bill comes out |
| BillQueue.DequeueEmptyLosesBill | daa_project.c++:909-915 | as written: dequeue on the initial queue, then enqueue b. The size is back to 0, so `billIsEmpty()` holds with b inside, and the front has moved past b's slot |
| BillQueue.DequeueEmptyKeepsBill | daa_project.c++:909-915 | with the check, the same calls leave b queued, and it is the next bill out |
| Kitchen.KitchenQueue.constructor | daa_project.c++:712-714 | an empty list with counter 0 |
| Kitchen.KitchenQueue.EnqueueKitchen | daa_project.c++:728-747 | a "Queued" order is appended at the tail, and the counter is the list length |
| Kitchen.KitchenQueue.ProcessKitchenOrder | daa_project.c++:761-778 | an empty queue gives nothing; otherwise the head order is taken off, and the counter stays the list length |
| Kitchen.EnqueueAllAppends | daa_project.c++:728-747 | enqueueing orders one by one appends them in order |
| Kitchen.DrainIsQueue | daa_project.c++:761-778 | processing until empty hands out the queued orders in queue order |
| Kitchen.EnqueueThenProcess | daa_project.c++:728-778 | enqueue at the tail and process at the head commute on a non-empty queue |
| Kitchen.FirstInFirstOut | daa_project.c++:728-778 | orders enqueued after a queue are processed after it, in the order they came |
| Waitlist.FirstFit | daa_project.c++:2599-2606 | the first free table with enough seats, or -1 when none has them |
| Waitlist.Seating.constructor | daa_project.c++:822-824 | the zero-initialised globals: an empty waitlist |
| Waitlist.Seating.InitializeTables | daa_project.c++:826-833 | every table free, with 2, 4 and 6 seats in turn |
| Waitlist.LargePartyNeverSeated | daa_project.c++:831 | with that layout a party of more than six never finds a table |
| Waitlist.FirstFitWhenAllFree | daa_project.c++:2599-2606 | in a fresh room a party gets table 0, 1 or 2: the first of the smallest size that seats it |
| Waitlist.Seating.AddToWaitlist | daa_project.c++:2570-2586 | a full waitlist (100) refuses the party. Otherwise the party is appended as "Waiting", with its position as its id |
| Waitlist.Seating.FindAvailableTable | daa_project.c++:2599-2606 | returns the first fit |
| Waitlist.Seating.AssignTableFromWaitlist | daa_project.c++:2608-2626 | seats the first party exactly when it fits a table: that table is taken and the party leaves the front. Otherwise nothing changes, even if a later party would fit |

## Left out

- Console and file I/O, logging, menus and the `display*` functions are left out. Where a modelled function prints its result, it returns it instead: the traversal orders, the distances and parents, the spanning tree and its total, the processed kitchen order. `displayKitchenQueue` is pure output and is left out.
- `addInventoryItem`, `updateInventoryItem` and `viewInventoryItem` read their fields from the console. Only their table reads and writes are modelled (`AddInventoryItem`, `FindInventoryItem`). The field update of `updateInventoryItem` is a plain record write, and is left out.
- Floating-point fields are dropped: the costs of `InventoryItem` and the total of `Order`. The `Bill` amounts are reals, with no rounding. The clock reading of a waitlist entry is a parameter, and the order timestamp is left out.
- Memory management is not modelled: `new`/`delete`, the leaked adjacency nodes of `initDeliveryGraph`, and `~LRUCache`.
- Linked structures are sequences: the LRU list, the kitchen list and the adjacency lists. This means the model does not capture pointer aliasing, or the nodes left behind in `adjList` when `initDeliveryGraph` resets a list.
- The local arrays of Dijkstra, Prim and the tour are sequences, and so is the queue of the optimized forms. The priority queues of the optimized forms are multisets with their least pair, so the tie order among equal pairs is not modelled. The BFS queue and the `visited` arrays remain arrays.
- Helper methods: several loops, and a loop body, are separate methods so that each has its own contract. These are `PartitionScan`, `SortSides`, `SiftDown`, `BuildHeap`, `SortDown`, `MergeHeads`, `CopyRest`, `LeadWeight`, `FirstHashes`, `WindowMatch`, `Exchange`, `GrowIfLoaded`, `PlaceItem`, `ProbeLoop`, `RelaxEdges`, `ScanEdges`, `RelaxKeys`, `RelaxQueued`, `TotalCost`, `Nearest`, `EnqueueNeighbours` and `Descend`. The statements they run are those of the source.
- 32-bit `int` overflow is not modelled; integers are unbounded. The character sum of a hash and `h * base` in Rabin-Karp can overflow in C++ for long names or a large modulus. So can `dist[u] + w`, and `i * i` in `nextPrime`.
- Hash: character codes are taken as non-negative, while a C++ `char` above 127 can be negative on signed-char platforms.
- RabinKarp.RabinKarpSearch: requires `mod > 0` and `base >= 0`. No part of the program calls `rabinKarpSearch`. With `mod` 0 the C++ divides by zero. With a negative `base` the C++ `%` can give negative hashes, which Dafny's `%` never does, so the C++ can miss matches that the model reports. That case is not modelled.
- Change.GreedyChange: requires every denomination to be non-zero (`NonZero`). On a zero denomination the C++ divides by zero, which is undefined behaviour. No part of the program calls `greedyChange`.
- SpanningTree.PrimMST: returns None where `minKey` returns -1. There the C++ writes `mstSet[-1]`, which is undefined behaviour, so the model does not say what the C++ prints then.
- SpanningTree.PrimMST: starts with every `parent` entry -1, while the C++ leaves `parent[]` uninitialised except `parent[0]`. When all n locations join, each location from 1 on gets its parent when it joins, so the two agree. They differ only on the path where `minKey` returns -1, which the model returns None for.
- SpanningTree.PrimMST, SpanningTree.PrimMSTOptimized: minimality is proved on a symmetric matrix. Every matrix the program builds is one (`InitialMatrixShape`, `AddEdgeKeepsSymmetry`). On a matrix that is not symmetric, the model claims only the cut property at each join.
- ShortestPaths.Dijkstra, ShortestPaths.DijkstraOptimized: require non-negative weights, which every edge the program adds has. With negative weights the C++ loops still run, but the model claims nothing about them.
- LruCache.LRUCache.Put: requires a capacity other than 0. With capacity 0, `put` unlinks the head sentinel, whose `prev` is null.
- LruCache.LRUCache.GetAsWritten: the C++ `get` also uses the node after `removeNode` freed it. Only the erased map entry is modelled; the use after free is not.
- OrderHeap.OrderHeap.Add: requires fewer than 300 orders, because the source appends without a capacity check.
- HeapSort.Heapify: has a ghost lower bound `lo`. It marks the part of the array already known to be a heap during the build loop.
- InventoryTable.ProbeIndex, InventoryTable.DynamicInventoryTable.Retrieve, InventoryTable.DynamicInventoryTable.Insert: where the C++ probe loop never ends, these return `None`/`Hangs`. The loop is bounded by the table size. It is proved that when no probe below the size stops, none ever does, on an odd size, which both tables have.

## Findings

| source | as written | input that shows it | evidently intended | confidence | as-written member | corrected member |
|---|---|---|---|---|---|---|
| daa_project.c++:2058-2067 | the rehash test `itemCount / currentSize >= 0.7` allows up to 70% load, but the triangular probe on a prime size reaches only (size + 1) / 2 slots | insert 27 one-character names that fill the 27 slots reachable from home 0 of the 53 slots (load 27/53 < 0.7), then insert or retrieve "55" (home 0): the probe loop never ends | the probe always meets a free slot: grow before half the slots are in use | not executed | InventoryFindings.ProbeHangsBelowThreshold | InventoryCorrected.CorrectedInsert |
| daa_project.c++:2023-2034 | `rehash` resizes the old vector in place, so every old slot keeps its copy, resets `itemCount` and reinserts into that table | "77" and the names with codes 5 to 41 (38 items), then a 39th: afterwards "77" sits in slots 3 and 4 and `itemCount` is 2; an update of "77" then reaches slot 3 only. `getSize()` still reports 2, and `getAllItems()` lists the old item from slot 4 beside the new one | reinsert into a fresh table: the count is the number of names and every item survives unchanged | not executed | InventoryFindings.RehashKeepsStaleCopy | InventoryCorrected.CorrectedRehash |
| daa_project.c++:286-293 | `get` calls `removeNode`, which erases the key from the map and frees the node, then relinks the node at the head | capacity 2, `put(1, 10)`, `get(1)` returns 10, a second `get(1)` returns false | `get` moves the node to the head and keeps the key in the map | not executed | LruCache.GetAsWrittenForgets | LruCache.GetTwice |
| daa_project.c++:909-915 | `dequeueBill` has no empty check: on an empty queue it returns a stale slot and the size goes to -1 | `dequeueBill()` on the initial queue, then `enqueueBill(b)`: the size is 0 again, so `billIsEmpty()` holds with b queued | an empty queue hands out nothing and stays unchanged | not executed | BillQueue.DequeueEmptyLosesBill | BillQueue.DequeueEmptyKeepsBill |
