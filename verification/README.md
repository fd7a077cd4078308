# NSTU lab containers and date validator in Dafny

This project models the container library of NSTU lab 3 in Dafny and proves its contracts. The library exists twice, with the same behaviour:

- a C++ template library: `lab3/src/containers` plus the primitive codec `binary_serialization.h`;
- a Go port for `int` and `string`: `lab3_go/containers`.

The project also models the date validator of lab 4, task 2.

Each container is an immutable datatype, and each operation is a function or a method on it:

- **AVL tree** (`avl.dfy`, `avl_tree.dfy`). A generic `Tree<T>` carries a cached height. The model covers rotations, `rebalance`, insert and delete (in-order successor promotion), search, clear and the move operations. The pre-order binary codec uses 0/1 null markers.
- **Open-addressing hash map** (`hashmap.dfy`, on the slot table of `slots.dfy`). It uses double hashing and fixed capacity, and removal leaves no tombstone. The C++ and Go string codecs are included. The **set** on top of it is `set.dfy`.
- **Cuckoo hash map** (`cuckoo.dfy`). It has two tables, a displacement chain bounded at 500 rounds, and lookups that inspect exactly two slots.
- **C++ linear containers**:
  - dynamic array (`array.dfy`), with the in-place shifting loops as methods on a buffer;
  - linked stack (`stack.dfy`) and linked queue (`queue.dfy`), as sequences of nodes;
  - singly linked list (`singlelist.dfy`), which is shared with Go.
- **Go linear containers**:
  - dynamic array (`go_array.dfy`) and slice-backed stack (`go_stack.dfy`), with their whole buffers;
  - circular-buffer queue (`go_queue.dfy`), as the slice plus `head`, `tail` and `size`.
- **Doubly linked list** (`doublelist.dfy`, C++ and Go). It is an arena of nodes with `prev`/`next` pointers. The invariant `Linked(l, ids)` ties the pointer structure to a sequence of node ids, so forward and backward traversals can be stated.
- **Primitive codecs** (`bytes.dfy`, `streams.dfy`):
  - the C++ little-endian `uint32`, the one-byte bool, `size_t` truncated to 32 bits, and length-prefixed strings;
  - Go `int32` values and strings;
  - the count-then-elements container formats.
- **Printing** (`text.dfy`). Go's `Print` methods are built from `fmt.Sprintf("%d", …)` of each element, a separator and brackets.
- **Dates** (`dates.dfy`). The model covers the leap-year rule, the month table, the sequential filter of invalid dates, and the chunk arithmetic of the multi-threaded filter. The order in which the workers append their results is a parameter.

Hash functions (`std::hash`, FNV-1a) are parameters (`hash: K -> nat`, or the hash value `h`). A failed C++ `throw` or a Go `error` is an `Err` of the `Result` type in `wrappers.dfy`.

## Model

| member | source | states |
|---|---|---|
| Bytes.U32RoundTrip | NSTU-lab3/lab3/src/binary_serialization.h:12-38 | reading a u32 back after writing it gives the same value and leaves the following bytes |
| Bytes.U32DecodeEncode | NSTU-lab3/lab3/src/binary_serialization.h:12-38 | any four bytes read as a u32 and written again give the same bytes |
| Bytes.SizeRoundTrip | NSTU-lab3/lab3/src/binary_serialization.h:16-44 | a `size_t` is read back modulo 2^32, and exactly when it is below 2^32 it is read back unchanged |
| Bytes.EncodeBool | NSTU-lab3/lab3/src/binary_serialization.h:21-24 | a bool is written as one byte: 1 for true, 0 for false |
| Bytes.DecodeBool | NSTU-lab3/lab3/src/binary_serialization.h:46-50 | any nonzero byte reads as true; an empty stream reads nothing |
| Bytes.BoolRoundTrip | NSTU-lab3/lab3/src/binary_serialization.h:21-50 | a written bool reads back as itself |
| Bytes.EncodeString | NSTU-lab3/lab3/src/binary_serialization.h:27-31 | a string is a 32-bit length followed by exactly that many raw bytes, with no terminator |
| Bytes.DecodeString | NSTU-lab3/lab3/src/binary_serialization.h:53-58 | the bytes read are exactly as many as the length prefix says, taken from right after it |
| Bytes.StringRoundTrip | NSTU-lab3/lab3/src/binary_serialization.h:27-58 | a string shorter than 2^32 bytes reads back unchanged, and a longer one reads back truncated to its length modulo 2^32 |
| Bytes.ToInt32 | NSTU-lab3/lab3_go/containers/array.go:120-132 | Go's `int32(x)` conversion is congruent to x modulo 2^32 and is the identity inside the int32 range |
| Bytes.I32RoundTrip | NSTU-lab3/lab3_go/containers/array.go:120-153 | an int32 written little-endian reads back as `int32(x)`, which equals x exactly when x is in range |
| Bytes.GoStringRoundTrip | NSTU-lab3/lab3_go/containers/hashmap.go:146-209 | a Go string with an int32 length prefix reads back unchanged |
| Streams.StringsRoundTrip | NSTU-lab3/lab3/src/containers/array.cpp:105-136 | n length-prefixed strings read back as the same n strings |
| Streams.SaveStrings | NSTU-lab3/lab3/src/containers/array.cpp:105-118 | the C++ container format is a u32 count (the size modulo 2^32) followed by the strings |
| Streams.SaveLoadStrings | NSTU-lab3/lab3/src/containers/array.cpp:105-136 | a saved sequence of strings loads back as the same sequence, with the rest of the stream left |
| Streams.ReadInt32s | NSTU-lab3/lab3_go/containers/array.go:135-153 | reading n int32 values either succeeds with exactly n values or fails with fewer |
| Streams.Int32sRoundTrip | NSTU-lab3/lab3_go/containers/array.go:120-153 | written int32 values read back as their int32 conversions |
| Streams.GoLoadInts | NSTU-lab3/lab3_go/containers/array.go:135-153 | a stream shorter than the count fails with nothing read; a non-positive count reads no values |
| Streams.GoSaveLoadInts | NSTU-lab3/lab3_go/containers/array.go:120-153 | Go's count-then-values format reads back the same values when they fit in int32 |
| Text.Natural | NSTU-lab3/lab3_go/containers/array.go:96-109 | `fmt.Sprintf("%d")` of a natural number is a non-empty string of digits with no leading zero |
| Text.NaturalValue | NSTU-lab3/lab3_go/containers/array.go:96-109 | the digits printed for n denote n |
| Text.DecimalRoundTrip | NSTU-lab3/lab3_go/containers/array.go:96-109 | parsing the decimal text of any integer, sign included, gives the integer back |
| Text.BracketedEmpty | NSTU-lab3/lab3_go/containers/array.go:96-109 | bracketed output is `[]` exactly for no elements, and `[x]` for one element |
| Text.Render | NSTU-lab3/lab3_go/containers/array.go:96-109 | the `Print` loop, which writes a separator before every element but the first and the element's `%d` text, then closes the bracket, builds exactly the bracketed list |
| Seqs.RemoveFirstSplices | NSTU-lab3/lab3/src/containers/singlelist.cpp:38-62 | removing the first occurrence of v cuts out exactly the element at v's first index |
| Seqs.ReverseReverse | NSTU-lab3/lab3/src/containers/stack.cpp:82-127 | reversing twice gives the sequence back, which is why the stack's bottom-to-top file reloads by pushing |
| Slots.EntriesOfUpdate | NSTU-lab3/lab3/src/containers/hashmap.cpp:53-92 | writing one slot changes the count of used slots by exactly what that slot gains or loses |
| Slots.EntriesMembership | NSTU-lab3/lab3/src/containers/hashmap.cpp:125-145 | a pair is among the saved entries exactly when some slot holds it |
| Slots.ClearedHasNoEntries | NSTU-lab3/lab3/src/containers/hashmap.cpp:94-100 | a table whose slots are all free saves no entries |
| Avl.CachedHeightIsDepth | NSTU-lab3/lab3/src/containers/avl.cpp:22-37 | where every node's cached height obeys the update rule, it equals the subtree's depth; an empty subtree has height 0 |
| Avl.BstIffAscending | NSTU-lab3/lab3/src/containers/avl.cpp:149-174 | the search-tree ordering holds exactly when the in-order traversal is strictly ascending |
| Avl.BstSizeIsCardinality | NSTU-lab3/lab3/src/containers/avl.cpp:90-107 | in a search tree the node count equals the number of distinct values |
| Avl.UpdateHeight | NSTU-lab3/lab3/src/containers/avl.cpp:32-37 | `updateHeight` sets the height to 1 + the larger child height and changes nothing else |
| Avl.RotateRight | NSTU-lab3/lab3/src/containers/avl.cpp:39-51 | the left child becomes the root with the old root on its right; the in-order sequence, the values and the size are unchanged, and the two moved nodes get correct heights |
| Avl.RotateLeft | NSTU-lab3/lab3/src/containers/avl.cpp:53-65 | the mirror image of the right rotation, with the same preserved quantities |
| Avl.RotateRightKeepsBst | NSTU-lab3/lab3/src/containers/avl.cpp:39-51 | a right rotation of a search tree is a search tree |
| Avl.RotateLeftKeepsBst | NSTU-lab3/lab3/src/containers/avl.cpp:53-65 | a left rotation of a search tree is a search tree |
| Avl.Rebalance | NSTU-lab3/lab3/src/containers/avl.cpp:67-88 | rebalancing keeps the in-order sequence, values, size and correct heights, and leaves a node with balance in -1..1 untouched |
| Avl.RebalanceKeepsBst | NSTU-lab3/lab3/src/containers/avl.cpp:67-88 | rebalancing a search tree gives a search tree |
| Avl.LeftRightCase | NSTU-lab3/lab3/src/containers/avl.cpp:73-77 | a left-heavy node with a right-leaning left child is balanced by the double rotation, at the left child's height |
| Avl.RightLeftCase | NSTU-lab3/lab3/src/containers/avl.cpp:80-84 | the mirror double rotation balances a right-heavy node with a left-leaning right child |
| Avl.RebalanceRestoresBalance | NSTU-lab3/lab3/src/containers/avl.cpp:67-88 | a node with balanced children and balance in -2..2 is balanced after rebalancing, and its height grows by at most one over the taller child |
| Avl.SearchFindsElements | NSTU-lab3/lab3/src/containers/avl.cpp:149-158 | in a search tree, `searchNode` finds v exactly when v is stored |
| Avl.Search | NSTU-lab3/lab3/src/containers/avl.cpp:149-158 | in any tree, `searchNode` answers true only for a stored value |
| Avl.InsertNode | NSTU-lab3/lab3/src/containers/avl.cpp:90-107 | insertion adds v to the value set; the node count grows by one exactly when v was absent, and heights stay correct |
| Avl.InsertKeepsBst | NSTU-lab3/lab3/src/containers/avl.cpp:90-107 | insertion keeps the search-tree ordering |
| Avl.InsertKeepsAvl | NSTU-lab3/lab3/src/containers/avl.cpp:90-107 | insertion keeps every balance factor in {-1,0,1}, and the height grows by at most one |
| Avl.FindMin | NSTU-lab3/lab3/src/containers/avl.cpp:109-115 | the leftmost value is stored in the tree and, in a search tree, is no larger than any stored value |
| Avl.DeleteNode | NSTU-lab3/lab3/src/containers/avl.cpp:117-147 | deletion lowers the node count by one exactly when it reports a removal, which happens only for a stored value |
| Avl.DeleteKeepsBst | NSTU-lab3/lab3/src/containers/avl.cpp:117-147 | deletion keeps the ordering, removes exactly v from the value set, and reports a removal exactly when v was stored |
| Avl.DeleteSuccessorKeepsBst | NSTU-lab3/lab3/src/containers/avl.cpp:129-141 | a node with two children takes the right subtree's minimum, which is then deleted from that subtree; the result is ordered and lacks only the old value |
| Avl.DeleteKeepsBalance | NSTU-lab3/lab3/src/containers/avl.cpp:117-147 | deletion keeps every balance factor in {-1,0,1}, and the height drops by at most one |
| Avl.InsertPresentIdle | NSTU-lab3/lab3/src/containers/avl.cpp:100-101 | inserting a value already in a balanced tree returns the same tree and reports no insertion |
| Avl.DeleteAbsentIdle | NSTU-lab3/lab3/src/containers/avl.cpp:117-118 | deleting an absent value, even from an empty tree, returns the same balanced tree |
| Avl.DuplicateInsertMayRotate | NSTU-lab3/lab3/src/containers/avl.cpp:100-106 | a duplicate insert still rebalances on the way up: on an unbalanced chain it rotates even though no value is added |
| AvlTrees.Insert | NSTU-lab3/lab3/src/containers/avl.cpp:176-179 | `insert` adds v, and `count` grows (as a `size_t`) only when v was absent |
| AvlTrees.Remove | NSTU-lab3/lab3/src/containers/avl.cpp:117-147 | in a search tree `remove` takes out exactly v, keeps the search order, and lowers `count` (modulo 2^64) exactly when v was stored |
| AvlTrees.ContainsIffElement | NSTU-lab3/lab3/src/containers/avl.cpp:186-189 | `search` is true exactly for stored values |
| AvlTrees.InsertValid | NSTU-lab3/lab3/src/containers/avl.cpp:176-179 | insert keeps the tree an AVL search tree with a matching count, makes `search` true for v, and grows the size by one exactly for a new value |
| AvlTrees.RemoveValid | NSTU-lab3/lab3/src/containers/avl.cpp:181-184 | remove keeps the invariant, removes exactly v, and shrinks the size by one exactly when v was stored |
| AvlTrees.InsertDuplicateUnchanged | NSTU-lab3/lab3/src/containers/avl.cpp:100-101 | inserting a stored value changes nothing |
| AvlTrees.RemoveAbsentUnchanged | NSTU-lab3/lab3/src/containers/avl.cpp:117-118 | removing an absent value changes nothing |
| AvlTrees.ClearEmpties | NSTU-lab3/lab3/src/containers/avl.cpp:191-211 | after `clear` the root is null, the size and height are 0, `empty()` is true, and clearing again changes nothing |
| AvlTrees.EmptyIffSizeZero | NSTU-lab3/lab3/src/containers/avl.cpp:198-206 | `empty()` agrees with `size() == 0` |
| AvlTrees.ValidInorderAscending | NSTU-lab3/lab3/src/containers/avl.cpp:168-174 | a valid tree's in-order traversal is strictly ascending and has `count` values |
| AvlTrees.MoveAssign | NSTU-lab3/lab3/src/containers/trees.h:48-56 | move assignment hands the source's root and count to the destination and empties the source; self-assignment changes nothing |
| AvlTrees.MoveConstruct | NSTU-lab3/lab3/src/containers/trees.h:43-46 | move construction takes root and count and leaves the source with a null root and count 0 |
| AvlTrees.MovesKeepValid | NSTU-lab3/lab3/src/containers/trees.h:43-56 | both moves leave two valid trees, the moved-to one with the same values and the moved-from one empty |
| AvlTrees.EncodeNode | NSTU-lab3/lab3/src/containers/avl.cpp:313-327 | a subtree is written pre-order, and its first byte is 0 exactly for a null subtree |
| AvlTrees.DecodeNode | NSTU-lab3/lab3/src/containers/avl.cpp:329-348 | a decoded subtree always has correct heights, which are recomputed and never read from the stream |
| AvlTrees.NodeRoundTrip | NSTU-lab3/lab3/src/containers/avl.cpp:313-348 | decoding an encoded subtree rebuilds its exact shape and values, with heights recomputed |
| AvlTrees.AnyNonzeroMarkerIsNode | NSTU-lab3/lab3/src/containers/avl.cpp:333-336 | any nonzero marker byte, not just 1, is read as a node |
| AvlTrees.SaveLoadRoundTrip | NSTU-lab3/lab3/src/containers/avl.cpp:350-363 | loading a saved tree gives the same shape, values and count when the count is below 2^32 |
| AvlTrees.SaveTruncatesCount | NSTU-lab3/lab3/src/containers/avl.cpp:350-354 | the count is written as a u32, so a larger one comes back reduced modulo 2^32 |
| AvlTrees.LoadTrustsCount | NSTU-lab3/lab3/src/containers/avl.cpp:357-363 | the loader takes the stored count as is: a count of 5 before an empty tree loads as an invalid tree |
| AvlTrees.IntTreeRoundTrip | NSTU-lab3/lab3/src/containers/avl.cpp:350-363 | the round trip for an `int` tree with 4-byte values |
| AvlTrees.TextTreeRoundTrip | NSTU-lab3/lab3/src/containers/avl.cpp:245-310 | the round trip for the string specialisation with length-prefixed values |
| AvlTrees.Clear | NSTU-lab3/lab3/src/containers/avl.cpp:191-196 | after `clear` no value is stored and the count is 0 |
| AvlTrees.SizeCountsValues | NSTU-lab3/lab3/src/containers/avl.cpp:198-201 | in a valid tree `size()` (`AvlTrees.SizeOf`) is the number of distinct stored values |
| AvlTrees.IsEmpty | NSTU-lab3/lab3/src/containers/avl.cpp:203-206 | `empty()`, a null-root test, is true exactly when no value is stored |
| AvlTrees.HeightOf | NSTU-lab3/lab3/src/containers/avl.cpp:208-210 | `height()`, the root's cached height, is the length of the longest root-to-leaf path |
| AvlTrees.Save | NSTU-lab3/lab3/src/containers/avl.cpp:350-354 | the file is the count as a u32, a truncated `size_t`, followed by the pre-order encoding of the root |
| AvlTrees.Load | NSTU-lab3/lab3/src/containers/avl.cpp:357-363 | a loaded tree has correct cached heights, and its count is the first four bytes read as a u32, as stored |
| HashMaps.GoNewEmpty | NSTU-lab3/lab3_go/containers/hashmap.go:27-37 | a non-positive capacity becomes 101; all slots start free with count 0 |
| HashMaps.Hash2 | NSTU-lab3/lab3/src/containers/hashmap.cpp:28-33 | the probe step is in 1..capacity-1, with a remainder of 0 mapped to 1 |
| HashMaps.FindFrom | NSTU-lab3/lab3/src/containers/hashmap.cpp:35-51 | probing h1 + i*h2 stops at the first slot holding the key or the first free slot, every slot before it passes, and it is exhausted after `capacity` probes |
| HashMaps.FindIndex | NSTU-lab3/lab3_go/containers/hashmap.go:57-73 | the probing loop returns (true, index) for the key, (false, index) for a free slot, and (false, -1) when exhausted |
| HashMaps.Put | NSTU-lab3/lab3/src/containers/hashmap.cpp:53-66 | "full" exactly when count ≥ capacity or probing is exhausted; otherwise only the probed slot changes, and count grows only for a new key |
| HashMaps.PutThenGet | NSTU-lab3/lab3/src/containers/hashmap.cpp:53-75 | after a successful put, get of that key returns the new value |
| HashMaps.Get | NSTU-lab3/lab3/src/containers/hashmap.cpp:68-75 | get succeeds exactly when probing finds the key, and otherwise fails as not found (or full when exhausted) |
| HashMaps.GoGet | NSTU-lab3/lab3_go/containers/hashmap.go:95-102 | Go's Get agrees with the C++ get on success and reports every failure as not found |
| HashMaps.Contains | NSTU-lab3/lab3/src/containers/hashmap.cpp:77-81 | `contains` agrees with `findIndex` |
| HashMaps.GoContains | NSTU-lab3/lab3_go/containers/hashmap.go:104-108 | Go's Contains is true exactly when Get succeeds |
| HashMaps.Remove | NSTU-lab3/lab3/src/containers/hashmap.cpp:83-92 | remove reports true and lowers the count exactly when the key was found; otherwise the map is unchanged |
| HashMaps.GoRemove | NSTU-lab3/lab3_go/containers/hashmap.go:110-119 | the same for Go's Remove, which never throws |
| HashMaps.RemoveAt | NSTU-lab3/lab3/src/containers/hashmap.cpp:86-89 | removal frees only the found slot and leaves no tombstone |
| HashMaps.Clear | NSTU-lab3/lab3/src/containers/hashmap.cpp:94-100 | clear frees every slot and sets the count to 0, keeping the capacity |
| HashMaps.FindIffStored | NSTU-lab3/lab3/src/containers/hashmap.cpp:35-51 | in a map built by puts, probing finds a key exactly when some slot stores it, and finds that very slot |
| HashMaps.PutKeepsReachable | NSTU-lab3/lab3/src/containers/hashmap.cpp:53-66 | a put keeps every stored key findable, adds k to the keys, and leaves every other key's get unchanged |
| HashMaps.RemoveDropsKey | NSTU-lab3/lab3/src/containers/hashmap.cpp:83-92 | remove reports true exactly for a stored key and drops exactly that key from the table |
| HashMaps.RemoveCanHideKey | NSTU-lab3/lab3/src/containers/hashmap.cpp:83-92 | without tombstones, removing a key can make a colliding key that is still stored unreachable |
| HashMaps.HiddenKeyStoredTwice | NSTU-lab3/lab3/src/containers/hashmap.cpp:53-66 | a put of that hidden key then stores it a second time |
| HashMaps.ExhaustedMeansFull | NSTU-lab3/lab3/src/containers/hashmap.cpp:35-51 | when every probe sequence covers the table, exhausted probing means every slot is used |
| HashMaps.FullMeansExhausted | NSTU-lab3/lab3/src/containers/hashmap.cpp:35-51 | a full table exhausts the probe for an absent key |
| HashMaps.SaveLoadRoundTrip | NSTU-lab3/lab3/src/containers/hashmap.cpp:125-171 | loading a saved map, in which probing finds every stored key, into one of the same capacity preserves size and every key's get answer |
| HashMaps.GoLoad | NSTU-lab3/lab3_go/containers/hashmap.go:174-209 | a non-positive stored count loads an empty map |
| HashMaps.GoSaveLoadRoundTrip | NSTU-lab3/lab3_go/containers/hashmap.go:146-209 | the same round trip through Go's int32 format |
| HashMaps.SaveLoadRevealsHiddenKey | NSTU-lab3/lab3/src/containers/hashmap.cpp:125-171 | after a remove has hidden a stored key, saving and loading the map makes `get` find that key again |
| HashMaps.IsEmpty | NSTU-lab3/lab3/src/containers/hashmap.cpp:107-110 | in a well-formed map, `empty()` holds exactly when every slot is free |
| HashMaps.Size | NSTU-lab3/lab3/src/containers/hashmap.cpp:102-104 | in a well-formed map `size()` is the number of occupied slots, the pairs a save writes, and at most the capacity |
| HashMaps.Save | NSTU-lab3/lab3/src/containers/hashmap.cpp:125-144 | the file starts with the count as a little-endian u32, truncated mod 2^32 |
| HashMaps.Load | NSTU-lab3/lab3/src/containers/hashmap.cpp:147-170 | a successful load keeps the capacity of the map loaded into |
| HashMaps.GoSave | NSTU-lab3/lab3_go/containers/hashmap.go:146-171 | the file starts with the count as a little-endian int32 |
| Cuckoo.GoNewEmpty | NSTU-lab3/lab3_go/containers/cuckoo.go:28-38 | a non-positive capacity becomes 101, both tables have that length, every slot is free and the count is 0 |
| Cuckoo.Hash1 | NSTU-lab3/lab3/src/containers/cuckoo.cpp:20-24 | `hash1` is an index below capacity |
| Cuckoo.Hash2 | NSTU-lab3/lab3/src/containers/cuckoo.cpp:26-30 | `hash2` is an index below capacity |
| Cuckoo.Lookup | NSTU-lab3/lab3/src/containers/cuckoo.cpp:96-107 | a lookup answers only from `table1[hash1]` or `table2[hash2]` |
| Cuckoo.LookupIffStored | NSTU-lab3/lab3/src/containers/cuckoo.cpp:96-116 | when every key sits in one of its two slots, lookup finds exactly the stored keys |
| Cuckoo.InsertInternal | NSTU-lab3/lab3/src/containers/cuckoo.cpp:32-70 | the tables keep their shape, and once the iteration count reaches 500 the call fails with the tables untouched |
| Cuckoo.InsertInternalSpec | NSTU-lab3/lab3/src/containers/cuckoo.cpp:32-70 | placement keeps every key in one of its slots. On success the new pair is stored and the other pairs are kept. On failure exactly one displaced key is lost, and the used-slot count reflects that |
| Cuckoo.Put | NSTU-lab3/lab3/src/containers/cuckoo.cpp:73-93 | "full" exactly when count ≥ 2·capacity, with nothing changed; count grows only when a new key is placed |
| Cuckoo.PutExisting | NSTU-lab3/lab3/src/containers/cuckoo.cpp:78-88 | put of a stored key updates it in place and keeps the count |
| Cuckoo.PutNew | NSTU-lab3/lab3/src/containers/cuckoo.cpp:90-92 | put of a new key that succeeds stores it and raises the count by one |
| Cuckoo.PutThenGet | NSTU-lab3/lab3_go/containers/cuckoo.go:103-143 | after a successful put, get returns the new value |
| Cuckoo.Get | NSTU-lab3/lab3/src/containers/cuckoo.cpp:96-107 | get fails as not found unless one of the two slots holds the key |
| Cuckoo.GetIffStored | NSTU-lab3/lab3/src/containers/cuckoo.cpp:96-116 | get and contains succeed exactly for stored keys |
| Cuckoo.Contains | NSTU-lab3/lab3/src/containers/cuckoo.cpp:110-116 | contains agrees with get |
| Cuckoo.Remove | NSTU-lab3/lab3/src/containers/cuckoo.cpp:119-134 | remove reports true exactly when contains does, and leaves the map unchanged otherwise |
| Cuckoo.RemoveSpec | NSTU-lab3/lab3/src/containers/cuckoo.cpp:119-134 | remove lowers the count exactly when the key was stored, and afterwards only that key's lookup changes, to absent |
| Cuckoo.ClearValid | NSTU-lab3/lab3/src/containers/cuckoo.cpp:137-145 | after clear the size is 0 and contains is false for every key |
| Cuckoo.Clear | NSTU-lab3/lab3/src/containers/cuckoo.cpp:137-145 | clear keeps both tables' lengths, stores no key and sets the count to 0 |
| Cuckoo.SizeMeans | NSTU-lab3/lab3/src/containers/cuckoo.cpp:148-156 | in a valid map `size()` (`Cuckoo.Size`) counts the occupied slots of both tables, and `empty()` is true exactly when no key is stored |
| Cuckoo.IsEmpty | NSTU-lab3/lab3/src/containers/cuckoo.cpp:153-156 | when the count matches the occupied slots of both tables, `empty()` is true exactly when no key is stored |
| Sets.AddSpec | NSTU-lab3/lab3/src/containers/set.cpp:10-13 | add inserts x into the members and grows the size only for a new value |
| Sets.Add | NSTU-lab3/lab3/src/containers/set.cpp:10-13 | add fails with "full" exactly when the map's put does |
| Sets.ContainsIffMember | NSTU-lab3/lab3/src/containers/set.cpp:15-18 | contains is true exactly for members, and for a non-member with room it is false |
| Sets.RemoveSpec | NSTU-lab3/lab3/src/containers/set.cpp:20-23 | remove reports true exactly for a member, removes it and shrinks the size by one; otherwise nothing changes |
| Sets.ClearSpec | NSTU-lab3/lab3/src/containers/set.cpp:25-38 | after clear the set is empty and contains nothing |
| Sets.IsEmpty | NSTU-lab3/lab3/src/containers/set.cpp:35-38 | `empty()` is true exactly when there are no members |
| Sets.GoAddSpec | NSTU-lab3/lab3_go/containers/set.go:16-18 | Go's Add propagates the map's "full" error, and otherwise adds x and grows the size only for a new value |
| Sets.GoContainsIffMember | NSTU-lab3/lab3_go/containers/set.go:21-23 | Contains is true exactly for members |
| Sets.GoRemoveSpec | NSTU-lab3/lab3_go/containers/set.go:26-28 | Remove reports true exactly for a member, removes it and shrinks the size |
| Sets.GoClearSpec | NSTU-lab3/lab3_go/containers/set.go:31-33 | after Clear the size is 0 and Contains is false |
| Sets.Size | NSTU-lab3/lab3/src/containers/set.cpp:30-32 | `size()` is the number of occupied slots of the underlying map |
| Sets.GoSize | NSTU-lab3/lab3_go/containers/set.go:36-38 | Size is the number of occupied slots of the underlying map |
| Sets.GoContainsElem | NSTU-lab3/lab3_go/containers/set.go:21-23 | Contains is true exactly when the map's Get finds x |
| Sets.Contains | NSTU-lab3/lab3/src/containers/set.cpp:15-18 | contains fails only as the map's does, and otherwise answers whether get finds x |
| Sets.Remove | NSTU-lab3/lab3/src/containers/set.cpp:20-23 | remove fails exactly when probing is exhausted; otherwise it reports whether get finds x, lowers the size by one exactly then, and otherwise changes nothing |
| Sets.Clear | NSTU-lab3/lab3/src/containers/set.cpp:25-28 | clear leaves no members and size 0 |
| Sets.GoAdd | NSTU-lab3/lab3_go/containers/set.go:16-18 | Add fails, always with "full", exactly when the map's Put does |
| Sets.GoRemoveElem | NSTU-lab3/lab3_go/containers/set.go:26-28 | Remove reports whether Get finds x, lowers the size by one exactly then, and otherwise changes nothing |
| Sets.GoClear | NSTU-lab3/lab3_go/containers/set.go:31-33 | Clear leaves no members and size 0 |
| Arrays.PushAsWritten | NSTU-lab3/lab3/src/containers/array.cpp:19-36 | `push` as written succeeds, appending, exactly when the capacity is nonzero |
| Arrays.ZeroCapacityPushOverflows | NSTU-lab3/lab3/src/containers/linear.h:18-32 | an array made with capacity 0 overflows its buffer on the first push |
| Arrays.Grow | NSTU-lab3/lab3/src/containers/array.cpp:19-28 | growth always makes room, and doubles from capacity 1 up |
| Arrays.Push | NSTU-lab3/lab3/src/containers/array.cpp:30-36 | push appends at index `length`, keeps earlier elements, and doubles a full positive capacity |
| Arrays.PushAgrees | NSTU-lab3/lab3/src/containers/array.cpp:19-36 | for positive capacity the corrected push is the push as written |
| Arrays.Get | NSTU-lab3/lab3/src/containers/array.cpp:38-44 | get fails out of range exactly for index ≥ length, and otherwise returns that element |
| Arrays.InsertAsWritten | NSTU-lab3/lab3/src/containers/array.cpp:46-59 | `insert` as written rejects an index past `length`, and otherwise overflows exactly when the capacity is 0 |
| Arrays.ZeroCapacityInsertOverflows | NSTU-lab3/lab3/src/containers/linear.h:41-45 | an array made with capacity 0, or left behind by a move, overflows on its first insert or push |
| Arrays.InsertAgrees | NSTU-lab3/lab3/src/containers/array.cpp:46-59 | for positive capacity the corrected insert is the insert as written |
| Arrays.Insert | NSTU-lab3/lab3/src/containers/array.cpp:46-59 | insert accepts 0..length, places v at the index and shifts later elements right by one, growing a full buffer by the corrected growth |
| Arrays.Remove | NSTU-lab3/lab3/src/containers/array.cpp:61-70 | remove rejects index ≥ length, and otherwise shifts later elements left, keeping their order |
| Arrays.Replace | NSTU-lab3/lab3/src/containers/array.cpp:72-78 | replace changes only the indexed slot and keeps the size |
| Arrays.Clear | NSTU-lab3/lab3/src/containers/array.cpp:80-83 | clear sets the length to 0 and keeps the capacity |
| Arrays.IsEmpty | NSTU-lab3/lab3/src/containers/array.cpp:85-93 | `empty()` is true exactly when there are no elements |
| Arrays.Size | NSTU-lab3/lab3/src/containers/array.cpp:86-88 | `size()` is the number of stored elements |
| Arrays.InsertRemoveInverse | NSTU-lab3/lab3/src/containers/array.cpp:46-70 | remove at an index undoes insert there, and get there reads the inserted value |
| Arrays.PushIsInsertAtEnd | NSTU-lab3/lab3/src/containers/array.cpp:30-59 | push is insert at index `length` |
| Arrays.ShiftInsert | NSTU-lab3/lab3/src/containers/array.cpp:52-58 | the right-shifting loop puts v at the index with later elements one place right, leaving the rest of the buffer alone |
| Arrays.ShiftRemove | NSTU-lab3/lab3/src/containers/array.cpp:65-69 | the left-shifting loop closes the gap and leaves the rest of the buffer alone |
| Arrays.CopyPrefix | NSTU-lab3/lab3/src/containers/array.cpp:22-25 | the copy loop of `resize` copies exactly the first `length` slots |
| Arrays.MoveConstruct | NSTU-lab3/lab3/src/containers/linear.h:41-45 | move construction leaves the source empty with capacity 0 |
| Arrays.MoveAssign | NSTU-lab3/lab3/src/containers/linear.h:47-58 | move assignment takes over the source and empties it; self-assignment changes nothing |
| Arrays.SaveLoadRoundTrip | NSTU-lab3/lab3/src/containers/array.cpp:105-136 | loading a saved string array gives the same elements in the same order |
| Arrays.Save | NSTU-lab3/lab3/src/containers/array.cpp:107-118 | the file holds at least the 4-byte count and a 4-byte length prefix per element |
| Arrays.Load | NSTU-lab3/lab3/src/containers/array.cpp:121-136 | a successful load leaves a valid array whose capacity is at least the old one |
| Stacks.Push | NSTU-lab3/lab3/src/containers/stack.cpp:21-27 | push puts v on top and raises the size by one |
| Stacks.Pop | NSTU-lab3/lab3/src/containers/stack.cpp:29-40 | pop fails on an empty stack, and otherwise returns the top and lowers the size by one |
| Stacks.Peek | NSTU-lab3/lab3/src/containers/stack.cpp:42-48 | peek fails exactly when pop does, and returns the value pop would, with the stack unchanged |
| Stacks.EmptyIffSizeZero | NSTU-lab3/lab3/src/containers/stack.cpp:60-68 | `empty()` agrees with `size() == 0` |
| Stacks.Size | NSTU-lab3/lab3/src/containers/stack.cpp:61-63 | in a valid stack `size()`, the `length` field, is the number of nodes |
| Stacks.IsEmpty | NSTU-lab3/lab3/src/containers/stack.cpp:66-68 | `empty()` is true exactly when there are no nodes, and on a valid stack exactly when `size() == 0` |
| Stacks.PushPop | NSTU-lab3/lab3/src/containers/stack.cpp:21-48 | pop undoes push and returns the pushed value, which peek also shows |
| Stacks.Lifo | NSTU-lab3/lab3/src/containers/stack.cpp:21-40 | values pushed in turn pop off in reverse order |
| Stacks.MoveAssign | NSTU-lab3/lab3/src/containers/linear.h:246-254 | move assignment takes over the source and empties it; self-assignment changes nothing |
| Stacks.SaveLoadRoundTrip | NSTU-lab3/lab3/src/containers/stack.cpp:82-127 | the file written bottom to top reloads, by pushing in file order, to the same stack |
| Stacks.Clear | NSTU-lab3/lab3/src/containers/stack.cpp:51-58 | clear leaves a valid empty stack |
| Stacks.MoveConstruct | NSTU-lab3/lab3/src/containers/linear.h:241-244 | the new stack takes the source's nodes and length, and the source is left valid and empty |
| Stacks.Save | NSTU-lab3/lab3/src/containers/stack.cpp:84-103 | the file holds a count and a length prefix per element; for a valid stack it is the count followed by the strings from bottom to top |
| Stacks.Load | NSTU-lab3/lab3/src/containers/stack.cpp:106-127 | a successful load leaves a valid stack |
| Queues.Enqueue | NSTU-lab3/lab3/src/containers/queue.cpp:20-30 | enqueue appends at the rear and raises the size by one |
| Queues.Dequeue | NSTU-lab3/lab3/src/containers/queue.cpp:32-46 | dequeue fails on an empty queue, and otherwise returns the front; dequeuing the last element clears `rear` |
| Queues.Peek | NSTU-lab3/lab3/src/containers/queue.cpp:48-54 | peek fails exactly when dequeue does, and returns the front, with the queue unchanged |
| Queues.Size | NSTU-lab3/lab3/src/containers/queue.cpp:68-70 | in a valid queue `size()`, the `length` field, is the number of nodes |
| Queues.IsEmpty | NSTU-lab3/lab3/src/containers/queue.cpp:73-75 | `empty()` is true exactly when there are no nodes, and on a valid queue exactly when `size() == 0` |
| Queues.DequeueLastThenEnqueue | NSTU-lab3/lab3/src/containers/queue.cpp:23-42 | after the last element is dequeued, the next enqueue gives a valid single-element queue |
| Queues.Fifo | NSTU-lab3/lab3/src/containers/queue.cpp:20-46 | values enqueued come out after the existing ones, in the order they went in |
| Queues.MoveAssign | NSTU-lab3/lab3/src/containers/linear.h:413-424 | move assignment takes over the source and empties it; self-assignment changes nothing |
| Queues.SaveLoadRoundTrip | NSTU-lab3/lab3/src/containers/queue.cpp:89-122 | loading a saved queue gives the same queue, front to rear |
| Queues.Clear | NSTU-lab3/lab3/src/containers/queue.cpp:57-65 | clear leaves a valid empty queue |
| Queues.MoveConstruct | NSTU-lab3/lab3/src/containers/linear.h:407-411 | the new queue takes the source's nodes and length, and the source is left valid and empty |
| Queues.Save | NSTU-lab3/lab3/src/containers/queue.cpp:91-104 | the file holds a count and a length prefix per element; for a valid queue it is the count followed by the strings from front to rear |
| Queues.Load | NSTU-lab3/lab3/src/containers/queue.cpp:107-122 | a successful load leaves a valid queue |
| SingleLists.AddHead | NSTU-lab3/lab3/src/containers/singlelist.cpp:15-21 | addHead prepends and raises the length by one |
| SingleLists.AddTail | NSTU-lab3/lab3/src/containers/singlelist.cpp:23-36 | addTail appends after the last node, or becomes the head of an empty list |
| SingleLists.Remove | NSTU-lab3/lab3/src/containers/singlelist.cpp:38-62 | remove reports true exactly when v is present, cuts out only its first occurrence and lowers the length; otherwise the list is unchanged |
| SingleLists.RemoveOneCopy | NSTU-lab3/lab3_go/containers/singlelist.go:52-73 | remove takes away exactly one copy of v, and every other value keeps its count |
| SingleLists.Contains | NSTU-lab3/lab3/src/containers/singlelist.cpp:64-74 | the walk from head answers true exactly when some node holds v |
| SingleLists.Clear | NSTU-lab3/lab3/src/containers/singlelist.cpp:76-84 | clear leaves no nodes and length 0 |
| SingleLists.Size | NSTU-lab3/lab3/src/containers/singlelist.cpp:87-89 | in a valid list `size()`, the `length` field, is the number of nodes |
| SingleLists.IsEmpty | NSTU-lab3/lab3/src/containers/singlelist.cpp:91-94 | `empty()` is true exactly when head is null, and on a valid list exactly when `size() == 0` |
| SingleLists.Print | NSTU-lab3/lab3_go/containers/singlelist.go:99-117 | Print lists the values from the head, each as `%d`, joined by " -> " in brackets, and gives `[]` exactly for an empty list |
| SingleLists.SaveLoadRoundTrip | NSTU-lab3/lab3_go/containers/singlelist.go:120-152 | loading a saved list, which uses AddTail, gives the same list and the same Print |
| SingleLists.Save | NSTU-lab3/lab3_go/containers/singlelist.go:120-133 | the file is 4 bytes per value after a 4-byte count; for a valid list it is the int32 count followed by the values from the head |
| SingleLists.Load | NSTU-lab3/lab3_go/containers/singlelist.go:136-152 | the result is always a valid list, the only error is a short read, and a stream under four bytes leaves the list empty with an error |
| DoubleLists.EmptyLinked | NSTU-lab3/lab3_go/containers/doublelist.go:23-29 | a new list is linked with no nodes |
| DoubleLists.AddHeadLinked | NSTU-lab3/lab3/src/containers/doublelist.cpp:15-26 | addHead links the new node before the old head, also setting tail on an empty list; the list stays doubly linked with v in front |
| DoubleLists.AddTailLinked | NSTU-lab3/lab3/src/containers/doublelist.cpp:28-39 | addTail is the mirror image, with v at the back |
| DoubleLists.SeekLinked | NSTU-lab3/lab3_go/containers/doublelist.go:58-68 | the search walk from the k-th node stops at the first node at or after k holding v |
| DoubleLists.Unlink | NSTU-lab3/lab3/src/containers/doublelist.cpp:46-58 | unlinking removes the node and lowers the length by one |
| DoubleLists.UnlinkLinked | NSTU-lab3/lab3/src/containers/doublelist.cpp:46-58 | unlinking the k-th node relinks its neighbours and moves head or tail at the ends, leaving a linked list without that node |
| DoubleLists.RemoveSpec | NSTU-lab3/lab3/src/containers/doublelist.cpp:41-63 | remove reports true exactly when v is present; then the first occurrence alone is cut out and the length drops by one; otherwise the list is unchanged |
| DoubleLists.Clear | NSTU-lab3/lab3/src/containers/doublelist.cpp:65-74 | clear nulls head and tail and zeroes the length |
| DoubleLists.Size | NSTU-lab3/lab3/src/containers/doublelist.cpp:76-79 | the length is the number of linked nodes |
| DoubleLists.IsEmpty | NSTU-lab3/lab3/src/containers/doublelist.cpp:81-84 | `empty()` is true exactly when no node is linked |
| DoubleLists.Traversals | NSTU-lab3/lab3/src/containers/doublelist.cpp:16-63 | forward traversal from head visits the linked nodes, `length` of them, and backward traversal from tail is its reverse |
| DoubleLists.Contains | NSTU-lab3/lab3_go/containers/doublelist.go:84-93 | Contains is true exactly when some node holds v |
| DoubleLists.Print | NSTU-lab3/lab3_go/containers/doublelist.go:108-126 | Print lists the values of the linked nodes from the head, each as `%d`, joined by " <-> " in brackets, and gives `[]` exactly for an empty list |
| DoubleLists.Save | NSTU-lab3/lab3_go/containers/doublelist.go:129-142 | SaveToBinary writes the count and the values from head to tail |
| DoubleLists.AddAllLinked | NSTU-lab3/lab3_go/containers/doublelist.go:145-161 | adding values at the tail one by one keeps the list linked, with the values appended |
| DoubleLists.SaveLoadRoundTrip | NSTU-lab3/lab3_go/containers/doublelist.go:129-161 | loading a saved list gives a linked list with the same values in the same order |
| DoubleLists.AddHead | NSTU-lab3/lab3/src/containers/doublelist.cpp:15-26 | addHead raises the length by one and makes the freshly allocated node the head |
| DoubleLists.AddTail | NSTU-lab3/lab3/src/containers/doublelist.cpp:28-39 | addTail raises the length by one and makes the freshly allocated node the tail |
| DoubleLists.Remove | NSTU-lab3/lab3/src/containers/doublelist.cpp:41-63 | when remove reports false the list is unchanged, and when it reports true the length drops by one |
| DoubleLists.Load | NSTU-lab3/lab3_go/containers/doublelist.go:145-161 | the loaded list always has every pointer inside the heap, and the only error is a short read |
| GoArrays.NewArray | NSTU-lab3/lab3_go/containers/array.go:18-27 | a non-positive capacity becomes 10, and the array starts empty |
| GoArrays.Resize | NSTU-lab3/lab3_go/containers/array.go:112-117 | resize keeps the elements at the front of a zero-filled slice of the new capacity |
| GoArrays.ResizeInPlace | NSTU-lab3/lab3_go/containers/array.go:112-117 | the `copy` into a fresh slice gives that same slice |
| GoArrays.Push | NSTU-lab3/lab3_go/containers/array.go:30-36 | Push appends, doubling the capacity first when full |
| GoArrays.Get | NSTU-lab3/lab3_go/containers/array.go:39-44 | Get errs exactly for an index < 0 or ≥ length, and otherwise returns that element |
| GoArrays.Insert | NSTU-lab3/lab3_go/containers/array.go:47-61 | Insert accepts 0..length, places v there and shifts later elements right; other indices err |
| GoArrays.InsertInPlace | NSTU-lab3/lab3_go/containers/array.go:47-61 | the shifting loop computes the same array, buffer and all |
| GoArrays.Remove | NSTU-lab3/lab3_go/containers/array.go:64-74 | Remove errs out of range, and otherwise shifts later elements left |
| GoArrays.RemoveInPlace | NSTU-lab3/lab3_go/containers/array.go:64-74 | the shifting loop computes the same array, stale last slot included |
| GoArrays.Replace | NSTU-lab3/lab3_go/containers/array.go:77-83 | Replace errs out of range, and otherwise changes only the indexed element |
| GoArrays.Clear | NSTU-lab3/lab3_go/containers/array.go:91-93 | Clear empties the array and keeps the buffer |
| GoArrays.InsertRemoveInverse | NSTU-lab3/lab3_go/containers/array.go:47-74 | Remove at an index undoes Insert there |
| GoArrays.PushIsInsertAtEnd | NSTU-lab3/lab3_go/containers/array.go:30-61 | Push is Insert at index `length`, buffer and all |
| GoArrays.Print | NSTU-lab3/lab3_go/containers/array.go:96-109 | Print lists the elements in index order, each as `%d`, joined by ", " in brackets, and gives `[]` exactly when empty |
| GoArrays.Save | NSTU-lab3/lab3_go/containers/array.go:120-132 | SaveToBinary writes the int32 length and then the elements |
| GoArrays.Load | NSTU-lab3/lab3_go/containers/array.go:135-153 | LoadFromBinary clears, then pushes the values read, and reports an error exactly when a read fails |
| GoArrays.SaveLoadRoundTrip | NSTU-lab3/lab3_go/containers/array.go:120-153 | loading a saved array gives the same elements and the same Print |
| GoArrays.Size | NSTU-lab3/lab3_go/containers/array.go:86-88 | Size is the number of elements in the array's live prefix |
| GoStacks.NewStack | NSTU-lab3/lab3_go/containers/stack.go:18-27 | a non-positive capacity becomes 10, and the stack starts with size 0 |
| GoStacks.Push | NSTU-lab3/lab3_go/containers/stack.go:30-36 | Push puts v on top, doubling the capacity when top+1 reaches it |
| GoStacks.Pop | NSTU-lab3/lab3_go/containers/stack.go:39-46 | Pop errs "stack is empty" exactly when the stack is empty, and otherwise returns the top |
| GoStacks.Peek | NSTU-lab3/lab3_go/containers/stack.go:49-54 | Peek returns what Pop would, with the stack unchanged |
| GoStacks.Size | NSTU-lab3/lab3_go/containers/stack.go:57-59 | Size is top+1, the number of elements |
| GoStacks.Clear | NSTU-lab3/lab3_go/containers/stack.go:62-64 | Clear empties the stack and keeps the buffer |
| GoStacks.PushPop | NSTU-lab3/lab3_go/containers/stack.go:30-46 | Pop undoes Push and returns the pushed value |
| GoStacks.DrainIsReversed | NSTU-lab3/lab3_go/containers/stack.go:39-46 | popping until empty gives the elements top first |
| GoStacks.Lifo | NSTU-lab3/lab3_go/containers/stack.go:30-46 | pushed values come off in reverse order, before the stack's own elements |
| GoStacks.Print | NSTU-lab3/lab3_go/containers/stack.go:67-80 | Print lists the elements bottom to top, each as `%d`, joined by ", " in brackets, and gives `[]` exactly when empty |
| GoStacks.Save | NSTU-lab3/lab3_go/containers/stack.go:91-102 | SaveToBinary writes the size and the elements bottom to top |
| GoStacks.Load | NSTU-lab3/lab3_go/containers/stack.go:105-121 | LoadFromBinary clears and pushes the values in file order, and reports an error exactly when a read fails |
| GoStacks.SaveLoadRoundTrip | NSTU-lab3/lab3_go/containers/stack.go:91-121 | loading a saved stack gives the same elements, and so the same pops |
| GoQueues.WalkIsElements | NSTU-lab3/lab3_go/containers/queue.go:75-104 | stepping `idx = (idx+1) % capacity` `size` times from head reads the elements front first |
| GoQueues.NewQueue | NSTU-lab3/lab3_go/containers/queue.go:20-31 | a non-positive capacity becomes 10, and the queue starts valid and empty |
| GoQueues.Resize | NSTU-lab3/lab3_go/containers/queue.go:93-104 | resize copies the elements in FIFO order to indices 0..size-1 and sets head 0, tail size, keeping the ring invariant |
| GoQueues.ResizeInPlace | NSTU-lab3/lab3_go/containers/queue.go:93-104 | the copy loop around the ring builds that same slice |
| GoQueues.Enqueue | NSTU-lab3/lab3_go/containers/queue.go:34-41 | Enqueue appends v at the back, doubling the capacity first when full, and keeps tail == (head+size) mod capacity |
| GoQueues.Dequeue | NSTU-lab3/lab3_go/containers/queue.go:44-52 | Dequeue errs exactly on an empty queue, and otherwise returns the front and advances head around the ring |
| GoQueues.Peek | NSTU-lab3/lab3_go/containers/queue.go:55-60 | Peek returns what Dequeue would, with the queue unchanged |
| GoQueues.Clear | NSTU-lab3/lab3_go/containers/queue.go:68-72 | Clear empties the queue and keeps the buffer |
| GoQueues.Fifo | NSTU-lab3/lab3_go/containers/queue.go:34-52 | enqueued values come out after the queue's own, in order, across wrap-around and growth |
| GoQueues.Print | NSTU-lab3/lab3_go/containers/queue.go:75-90 | Print walks the ring and lists the elements front first, `[]` when empty |
| GoQueues.Save | NSTU-lab3/lab3_go/containers/queue.go:107-119 | SaveToBinary writes the size and the elements in FIFO order |
| GoQueues.Load | NSTU-lab3/lab3_go/containers/queue.go:122-138 | LoadFromBinary clears and enqueues the values read, and reports an error exactly when a read fails |
| GoQueues.SaveLoadRoundTrip | NSTU-lab3/lab3_go/containers/queue.go:107-138 | loading a saved queue gives the same elements and the same dequeues, wherever the ring started |
| GoQueues.Size | NSTU-lab3/lab3_go/containers/queue.go:63-65 | Size is the number of elements on the ring walk from head |
| Dates.ValidDateMeans | NSTU-lab4/src/task2_dates.hpp:26-41 | `is_valid_date` (`Dates.IsValidDate`): a date is valid exactly when the year is in 1..9999, the month in 1..12 and the day in 1..that month's Gregorian length |
| Dates.YearLength | NSTU-lab4/src/task2_dates.hpp:30-34 | the month table adds up to 366 days in a leap year and 365 otherwise |
| Dates.LeapCycle | NSTU-lab4/src/task2_dates.hpp:21-23 | the leap-year rule repeats every 400 years |
| Dates.LeapYearAsWritten | NSTU-lab4/src/task2_dates.hpp:21-23 | `is_leap_year` evaluated with C++'s truncating `%` (`Dates.CppRem`) agrees with the rule for every year, negative ones included |
| Dates.LeapDay | NSTU-lab4/src/task2_dates.hpp:21-38 | 29 February is valid exactly in leap years from 1 to 9999 |
| Dates.InvalidMeans | NSTU-lab4/src/task2_dates.hpp:62-72 | the filter keeps exactly the invalid dates |
| Dates.InvalidAppend | NSTU-lab4/src/task2_dates.hpp:62-72 | filtering a concatenation is concatenating the filtered parts, so input order is kept |
| Dates.FilterRange | NSTU-lab4/src/task2_dates.hpp:75-90 | the worker's loop over [start, end) collects the invalid dates of that range, in order |
| Dates.ValidateSingleThread | NSTU-lab4/src/task2_dates.hpp:62-72 | the single-threaded check returns the invalid dates in input order |
| Dates.ChunksPartition | NSTU-lab4/src/task2_dates.hpp:98-103 | for at least one thread, the chunk ranges `[Dates.ChunkStart, Dates.ChunkEnd)` start at 0, each ends where the next starts, and the last ends at the size, covering every index once |
| Dates.MultiThreadInOrder | NSTU-lab4/src/task2_dates.hpp:93-113 | if the workers append in index order, the multi-threaded result is the single-threaded one |
| Dates.MultiThreadSameDates | NSTU-lab4/src/task2_dates.hpp:93-113 | whatever order the workers append in, the result has the same invalid dates, each as often, and so the same count |
| Dates.ValidateMultiThread | NSTU-lab4/src/task2_dates.hpp:93-113 | a negative thread count gives no dates; otherwise the result holds exactly the invalid dates, each as often as in the input, whatever order the workers append in |

## Left out

- I/O and threads are not modelled:
  - the REPL and its commands;
  - file opening and text-stream printing of the C++ containers;
  - JSON (`ToJSON`/`FromJSON`);
  - random date generation, timing and the speed-up figure.
  - The threads of the date validator are represented only by the order in which their results are appended.
- C++ readers never detect a short stream. A decoder that runs out returns `None` ("value indeterminate"); no error is raised.
- The generic C++ codecs copy raw bytes of a POD value. Only an abstract fixed-width value codec and the string codec are modelled.
- The generic C++ `HashMap` and `Set` are instantiated with abstract key and value types.
- `HashMaps.Load`, `HashMaps.GoLoad`: on a failed read they return only the error, not the partly filled map the source leaves behind.
- `HashMaps.SaveLoadRoundTrip`, `HashMaps.GoSaveLoadRoundTrip`: stated only when every probe sequence covers the table (true for a prime capacity such as 101). With other capacities, the replay in slot order can exhaust a probe sequence.
- `HashMaps.SaveLoadRoundTrip`, `HashMaps.GoSaveLoadRoundTrip`: also stated only for a `Reachable` map, one where probing for every stored key finds it. A `remove` leaves no tombstone, so it can hide a colliding key (`HashMaps.RemoveCanHideKey`). Saving and loading such a map changes answers: the hidden key becomes findable again (`HashMaps.SaveLoadRevealsHiddenKey`), and a key stored twice (`HashMaps.HiddenKeyStoredTwice`) is reloaded once, so the size drops.
- The probing of `HashMaps` needs at least 2 slots, because `hash2` divides by `capacity - 1`. A `HashMap` of capacity 0 or 1 and a `CuckooHashMap` of capacity 0 are outside the model.
- `AvlTrees.Insert`, `AvlTrees.Remove`: `count` is a 64-bit `size_t` that wraps (`Bytes.Inc`/`Bytes.Dec`); the tree itself is unbounded.
- `AvlTrees.TextTreeRoundTrip`: string values have the `Text` type, shorter than 2^32 bytes. A longer string is written with its length truncated modulo 2^32 and reads back cut short (`Bytes.StringRoundTrip`), which breaks the round trip.
- The tree lemmas are stated for `int` values. The codec lemmas are generic over the value codec.
- `Stacks.Push`, `Queues.Enqueue`, `SingleLists.AddHead`, `DoubleLists.AddHead`: the C++ `length` counter is an unbounded integer, so `size_t` overflow is not modelled.
- Go `int` is unbounded here. Only the `int32` conversions of the codecs are explicit (`Bytes.ToInt32`, `Streams.Wrap32`).
- `DoubleLists` node addresses are abstract ids allocated from a counter:
  - Walks are bounded by `length` (fuel), which the `Linked` invariant shows is enough.
  - C++ `delete` and Go's garbage collection are both "the node leaves the heap". The Go `Remove` does not free anything, but nothing can reach the node afterwards.
- Go structs built as zero values rather than by `New...` (capacity 0) are not modelled: every Go model starts from its constructor.
- `Arrays.Load`, `Arrays.SaveLoadRoundTrip`: loading goes through the corrected `Arrays.Push`. Loading at least one string into a moved-from array (capacity 0) overflows in the source, as for `push` (`Arrays.ZeroCapacityInsertOverflows`).
- `SingleList` and `DoubleList` declare no move constructor or move assignment, so there is none to model. The array, stack, queue and tree moves are modelled.
- `Dates.ValidateMultiThread` requires a nonzero thread count: the source divides the input size by it. A negative count starts no workers and gives no dates, as the source's loop does.
- A C++ `contains` on a set whose probing runs through a full table throws "full" rather than answering false. `Sets.ContainsIffMember` states this case as it is, so no contract promises `false` there.

## Findings

| source | as written | input that shows it | evidently intended | confidence | as-written member | corrected member |
|---|---|---|---|---|---|---|
| NSTU-lab3/lab3/src/containers/array.cpp:19-36 | `resize` sets `capacity *= 2` and `push` then stores at `data[length]` | `Array<T> a(0); a.push(x);`, or a push into a moved-from array, which `loadFromBinary` also does: the capacity stays 0 and the store is past the end of a zero-length buffer (`Arrays.ZeroCapacityPushOverflows`) | growth must always make room, for example capacity 0 → 1 (`Arrays.Grow`; `Arrays.PushAgrees` shows the two agree for positive capacity) | not executed | Arrays.PushAsWritten | Arrays.Push |
| NSTU-lab3/lab3/src/containers/array.cpp:46-59 | `insert` calls the same doubling `resize` when full, then writes `data[length]` first | `Array<T> a(0); a.insert(0, x);`, or `insert` into a moved-from array, which has capacity 0: the write is past the end of a zero-length buffer (`Arrays.ZeroCapacityInsertOverflows`) | the same always-room growth (`Arrays.Grow`; `Arrays.InsertAgrees` shows the two agree for positive capacity) | not executed | Arrays.InsertAsWritten | Arrays.Insert |
