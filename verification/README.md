# Verified models of the contract development toolkit

Dafny models of the parts of the toolkit's contract library whose correctness is not plain from
reading one function, with proofs of what they are for. `dafny verify dfyconfig.toml` checks all of it.

| part | files |
|---|---|
| `multi_index`, a cached table over host tables | HostTables, MultiIndex, MultiIndexRuns, IndexWalks |
| `memory_manager`, malloc, free and realloc over linear memory | BlockChain, FreeRuns, Ram, HeapLemmas, Growth, Heap, Manager, GrowthExamples |
| `to_key`, an order-preserving encoding | KeyEncoding, KeyOrder, KeyLaws, KeyStream |
| 128-bit integers to and from floating point | Ieee754, FloatConversion, FloatToInteger |
| `rope`, flattened by a loop that keeps its path in the nodes | Rope |
| SHA-256 and `xmd_sh256` | Fips180, WordBits, Sha256Constants, Sha256Abc, Sha256, Xmd |
| names, `fixed_bytes`, `write_decimal`, base64 | Base32, Names, FixedBytes, Decimal, Base64 |
| common ground | Wrappers, Bytes |

## The main results

- **multi_index.** `MultiIndexRuns.Run` executes any program of emplace, modify, erase, find, bounds,
  iterator steps and comparisons and `available_primary_key`, over any number of iterators, on the
  object with its item cache, lazily found index handles, cached next key and host tables. It shows the
  same rows, answers and keys, aborts at the same operation and leaves the same rows as the program on a
  plain map whose orders are derived from its rows. The invariant
  `MultiIndex.Valid` says why: at most one cached item per key, equal to its stored row and carrying
  its live handle, and every index table holding exactly the derived entries, although `modify` skips
  indices whose key bytes are unchanged. An iterator that was left on an erased row is `Dangling`, and
  programs that use one are outside the theorem.
- **memory_manager.** In every state that malloc, free and realloc reach, as long as no realloc overruns
  (`GrowthOverruns`, below), headers and payloads tile each heap up to its offset, payloads in use are pairwise disjoint, and no call changes the bytes of a
  payload it was not given. malloc ends, uses at most two slots, and returns null only when memory is
  exhausted and no heap has a large enough run of free blocks; once memory is exhausted, exactly then.
  Where a request is served is determined as well (`Served`, `Searched`): behind the allocated part of the
  active heap if it fits there, without growth; otherwise after as few pages as it needs; and when those are
  refused, in the lowest large enough run of freed blocks.
- **to_key.** For every type built from the covered ones and all its values, keys are in lexicographic
  order exactly when values are in order, and no key is a proper prefix of another. The bytes themselves are
  tied down by what the keys of different types have in common (KeyLaws).
- **Conversions.** Every 128-bit integer becomes the nearest double, ties to even. Every number that is not
  a NaN becomes its truncation, clamped, except that `___fixdfti` fails at exponent 127 (below).
- **rope.** The loop of `c_str` ends and writes the recursive flattening, also when nodes are shared.
- **SHA-256, xmd_sh256.** The digest after any splitting into updates is the one of FIPS 180-4, and
  `xmd_sh256` writes `expand_message_xmd` of section 5.3.1 of RFC 9380. The definitions of the standard are
  pinned down apart from the code: each digit of a sigma is a sum of digits, the constants are roots of the first
  primes, and the digest of "abc" is the published one.
- **Names, write_decimal, base64.** The accepted strings are exactly those that are names but for dots at
  their end (`AcceptsExactly`); the decimal text is the only canonical one that reads back (`OnlyText`); an
  encoding has exactly the characters and pads of RFC 4648 (`EncodedForm`), and exactly the strings of good
  chunks are decoded (`DecodesExactly`).

## Where the code differs from what it promises

- **Growing `realloc`** (malloc.cpp:328, 472). The merge loop is bounded by the end of the heap and not by
  `_offset`, and the guard in front of it wraps around when the size exceeds the address of the heap's end.
  `Memory.ReallocInPlace` proves the exact condition, `GrowthOverruns`: the chain stays intact if and only
  if it is false. `GrowthExamples` has a call for each of the two cases.
- **Shrinking `realloc`** (malloc.cpp:334-342) writes a header behind the new size but never changes the
  block's own size, so nothing is given back. The chain stays intact.
- **`___fixdfti`** (fixdfti.c:31) saturates from exponent 128 on instead of 127. `FixSignedCorrect` proves that
  it converts correctly if and only if the exponent is not 127 or the number is exactly -2^127. So the signed
  conversions undo each other, as far as a double can hold the integer, if and only if it is below
  2^127 - 2^73 (`SignedRoundTrip`); `LargestWraps` shows that 2^127 - 1 comes back as -2^127.
- **`available_primary_key`** (multi_index.hpp:1366-1383). The key 2^64-1 is also the tag of a next key that was
  never asked for. Storing it before the first call makes that call, and every later one, refuse, even if
  the row has been erased by then. `Stored` and the exact contract of `AvailablePrimaryKey` say so.
- **`to_key_optional(const bool*)`** (key_utils.hpp:118-127) cannot be selected, because its first template
  parameter is not deducible. The generic overload is used for bools; its order is right as well.
- **`rope::at`** (rope.hpp:122-128) looks at `stop` only in concat nodes. It is right because a right child is
  never a string node, which `Ok` states and every constructor keeps.

## Model

| member | source | states |
|---|---|---|
| `HostTables.StoreKeeps` | libraries/eosiolib/capi/eosio/db.h:32-46 | storing gives the row a handle above all in use, after which the next one is higher, and changes no other row, handle or position |
| `HostTables.UpdateKeeps` | libraries/eosiolib/capi/eosio/db.h:48-65 | updating keeps every handle and the next one, and changes one row and its position |
| `HostTables.RemoveKeeps` | libraries/eosiolib/capi/eosio/db.h:67-82 | removing takes away one row and its handle and no other, and frees no handle for use again |
| `HostTables.LowerBound` | libraries/eosiolib/capi/eosio/db.h:277-290 | the first row at or behind a position, or that there is none |
| `HostTables.Previous` | libraries/eosiolib/capi/eosio/db.h:127-143 | the last row before a position, or that there is none |
| `HostTables.LastRow` | libraries/eosiolib/capi/eosio/db.h:127-143 | the row before the end iterator, or that the table is empty |
| `MultiIndexModel.MultiIndex.constructor` | libraries/eosiolib/contracts/eosio/multi_index.hpp:892-895 | an object without cached items over tables whose indices fit their rows is valid |
| `MultiIndexModel.MultiIndex.ItemUnique` | libraries/eosiolib/contracts/eosio/multi_index.hpp:478-488 | two cached items are one object exactly when their keys are equal, so comparing item pointers compares keys |
| `MultiIndexModel.MultiIndex.ItemRow` | libraries/eosiolib/contracts/eosio/multi_index.hpp:465-476 | a cached item is its stored row, with the live handle, and knows no index handle but the right one |
| `MultiIndexModel.MultiIndex.LoadObject` | libraries/eosiolib/contracts/eosio/multi_index.hpp:801-842 | the cached item of a handle or a new one, without a second item for one key |
| `MultiIndexModel.MultiIndex.FindCached` | libraries/eosiolib/contracts/eosio/multi_index.hpp:1819-1823 | the item of a key in the cache, or that no item has it |
| `MultiIndexModel.MultiIndex.Find` | libraries/eosiolib/contracts/eosio/multi_index.hpp:1818-1831 | the end exactly when the key is not in the table, otherwise an item with the stored row |
| `MultiIndexModel.MultiIndex.LowerBoundOf` | libraries/eosiolib/contracts/eosio/multi_index.hpp:1281-1287 | the first row whose key is not below the given one |
| `MultiIndexModel.MultiIndex.UpperBoundOf` | libraries/eosiolib/contracts/eosio/multi_index.hpp:1327-1333 | the first row whose key is above the given one |
| `MultiIndexModel.MultiIndex.Next` | libraries/eosiolib/contracts/eosio/multi_index.hpp:961-971 | aborts at the end; otherwise the next key in order, or the end when there is none |
| `MultiIndexModel.MultiIndex.Prev` | libraries/eosiolib/contracts/eosio/multi_index.hpp:972-988 | the key before, or the last one from the end; aborts exactly at the first row and on an empty table |
| `MultiIndexModel.MultiIndex.SetHandle` | libraries/eosiolib/contracts/eosio/multi_index.hpp:544-549 | remembering a found index handle keeps the cache right |
| `MultiIndexModel.MultiIndex.Handle` | libraries/eosiolib/contracts/eosio/multi_index.hpp:542-549 | the handle of an item's own entry in an index, known or looked up |
| `MultiIndexModel.MultiIndex.EntryItem` | libraries/eosiolib/contracts/eosio/multi_index.hpp:554-559 | the item of an entry found in an index |
| `MultiIndexModel.MultiIndex.IndexLowerBound` | libraries/eosiolib/contracts/eosio/multi_index.hpp:675-688 | the first row, by (secondary, primary), whose key is not below the given one |
| `MultiIndexModel.MultiIndex.IndexUpperBound` | libraries/eosiolib/contracts/eosio/multi_index.hpp:693-706 | the first row whose key is above the given one |
| `MultiIndexModel.MultiIndex.IndexFind` | libraries/eosiolib/contracts/eosio/multi_index.hpp:625-634 | the row of smallest primary key among those of an equal secondary key, or that no row has it |
| `MultiIndexModel.MultiIndex.IndexNext` | libraries/eosiolib/contracts/eosio/multi_index.hpp:537-562 | the next row by (secondary, primary), or the end |
| `MultiIndexModel.MultiIndex.IndexPrev` | libraries/eosiolib/contracts/eosio/multi_index.hpp:564-592 | the row before by (secondary, primary), or the last one from the end; aborts when there is none |
| `MultiIndexModel.MultiIndex.IndexBegin` | libraries/eosiolib/contracts/eosio/multi_index.hpp:606-610 | the first row of the index, or the end of an empty table |
| `MultiIndexModel.MultiIndex.Begin` | libraries/eosiolib/contracts/eosio/multi_index.hpp:1023-1025 | the row of smallest key, or the end of an empty table |
| `MultiIndexModel.IndexStore` | libraries/eosiolib/contracts/eosio/multi_index.hpp:1600-1604 | storing a row's entry keeps an index equal to the one derived from the rows |
| `MultiIndexModel.IndexUpdate` | libraries/eosiolib/contracts/eosio/multi_index.hpp:1738-1752 | so does updating it, and so does leaving it alone when rank and bytes are unchanged |
| `MultiIndexModel.IndexRemove` | libraries/eosiolib/contracts/eosio/multi_index.hpp:1953-1963 | so does removing it with its row |
| `MultiIndexModel.KeyRuleRaised` | libraries/eosiolib/contracts/eosio/multi_index.hpp:1597-1598 | the comparison and the cap keep the cached next key one above the largest key of those since the first call, or at the tag once they reach 2^64-3 |
| `MultiIndexModel.MultiIndex.StoreEntries` | libraries/eosiolib/contracts/eosio/multi_index.hpp:1600-1604 | every index gets exactly the entry of the new row, and the handles returned are those of the entries |
| `MultiIndexModel.MultiIndex.RaiseNextKey` | libraries/eosiolib/contracts/eosio/multi_index.hpp:1597-1598 | the cached next key keeps its promise when a key is emplaced or modified |
| `MultiIndexModel.MultiIndex.EmplaceHost` | libraries/eosiolib/contracts/eosio/multi_index.hpp:1585-1604 | the host tables after emplace fit the rows with the new one |
| `MultiIndexModel.MultiIndex.EmplaceCached` | libraries/eosiolib/contracts/eosio/multi_index.hpp:1577-1612 | the new item is appended to the cache, and cache and tables stay right |
| `MultiIndexModel.MultiIndex.Emplace` | libraries/eosiolib/contracts/eosio/multi_index.hpp:1572-1614 | aborts exactly on another contract's table or a key in use; otherwise adds exactly this row |
| `MultiIndexModel.MultiIndex.UpdateEntries` | libraries/eosiolib/contracts/eosio/multi_index.hpp:1738-1752 | after a modification every index fits the rows, although keys with unchanged bytes are skipped and handles looked up when needed |
| `MultiIndexModel.MultiIndex.ModifyHost` | libraries/eosiolib/contracts/eosio/multi_index.hpp:1725-1752 | the host tables after modify fit the rows with the changed one |
| `MultiIndexModel.MultiIndex.ModifyCached` | libraries/eosiolib/contracts/eosio/multi_index.hpp:1721-1752 | the row and its item change in place, and cache and tables stay right |
| `MultiIndexModel.MultiIndex.Modify` | libraries/eosiolib/contracts/eosio/multi_index.hpp:1705-1753 | aborts exactly for a foreign row, a foreign table or a changed key; otherwise replaces exactly this row, in place |
| `MultiIndexModel.MultiIndex.RemoveEntries` | libraries/eosiolib/contracts/eosio/multi_index.hpp:1953-1963 | every index loses exactly the entry of the row |
| `MultiIndexModel.MultiIndex.EraseHost` | libraries/eosiolib/contracts/eosio/multi_index.hpp:1951-1963 | the host tables after erase fit the rows without the erased one |
| `MultiIndexModel.MultiIndex.EraseCached` | libraries/eosiolib/contracts/eosio/multi_index.hpp:1951-1965 | the row and its item are gone, and nothing else is |
| `MultiIndexModel.MultiIndex.Erase` | libraries/eosiolib/contracts/eosio/multi_index.hpp:1937-1966 | aborts exactly for a foreign row or table; otherwise removes exactly this row and its item |
| `MultiIndexModel.MultiIndex.EraseAt` | libraries/eosiolib/contracts/eosio/multi_index.hpp:1894-1903 | erases the row of an iterator and returns the next one, still valid |
| `MultiIndexModel.MultiIndex.IndexEraseAt` | libraries/eosiolib/contracts/eosio/multi_index.hpp:740-749 | the same through an index, in its order |
| `MultiIndexModel.MultiIndex.LargestKey` | libraries/eosiolib/contracts/eosio/multi_index.hpp:1369-1373 | the row before the end has the largest key |
| `MultiIndexModel.MultiIndex.AvailablePrimaryKey` | libraries/eosiolib/contracts/eosio/multi_index.hpp:1366-1383 | 0 or one above the largest of the keys in the table at the first call and those stored since, so above all of them and of the table; refused if and only if one of them is at least 2^64-3 |
| `MultiIndexRuns.MovePrimary` | libraries/eosiolib/contracts/eosio/multi_index.hpp:1281-1333 | every search in the table ends where it ends on the plain map |
| `MultiIndexRuns.StepPrimary` | libraries/eosiolib/contracts/eosio/multi_index.hpp:961-988 | every step over the table ends where it ends on the plain map |
| `MultiIndexRuns.MoveIndex` | libraries/eosiolib/contracts/eosio/multi_index.hpp:625-706 | every search in an index ends where it ends on the plain map |
| `MultiIndexRuns.StepIndex` | libraries/eosiolib/contracts/eosio/multi_index.hpp:537-592 | every step over an index ends where it ends on the plain map |
| `MultiIndexRuns.SamePlace` | libraries/eosiolib/contracts/eosio/multi_index.hpp:515-520 | iterators, which compare item pointers, are equal exactly when they stand at one place of the plain map |
| `MultiIndexRuns.ExecNextKey` | libraries/eosiolib/contracts/eosio/multi_index.hpp:1366-1383 | the next key is the one of the plain map, and is refused where that one has none |
| `MultiIndexRuns.Exec` | libraries/eosiolib/contracts/eosio/multi_index.hpp:537-1966 | one operation shows, aborts and changes what it does on the plain map, for all iterators at once |
| `MultiIndexRuns.Run` | libraries/eosiolib/contracts/eosio/multi_index.hpp:537-1966 | whole runs do, whatever the cache holds at the start |
| `MultiIndexRuns.FirstMeaning` | libraries/eosiolib/capi/eosio/db.h:277-290 | the plain map's search is the least position at or behind another, and none only if there is none |
| `MultiIndexRuns.BeforeMeaning` | libraries/eosiolib/capi/eosio/db.h:240-249 | the plain map's step back is refused exactly where no row is before, and otherwise reaches the last one before |
| `MultiIndexRuns.NextKeyMeaning` | libraries/eosiolib/contracts/eosio/multi_index.hpp:1366-1383 | the plain map has a next key unless its keys reach 2^64-3 |
| `MultiIndexRuns.PrevUndoesNext` | libraries/eosiolib/contracts/eosio/multi_index.hpp:537-592 | in any order of positions, the step back undoes the step forward, also at the end |
| `MultiIndexRuns.NextUndoesPrev` | libraries/eosiolib/contracts/eosio/multi_index.hpp:537-592 | and the step forward undoes every allowed step back |
| `MultiIndexRuns.NextPrev` | libraries/eosiolib/contracts/eosio/multi_index.hpp:961-988 | ++ and then -- brings an iterator of the object back to its item, over the table and over every index |
| `MultiIndexRuns.PrevNext` | libraries/eosiolib/contracts/eosio/multi_index.hpp:564-592 | so does -- and then ++, from rows and from the end; -- is refused exactly where no row is before |
| `IndexWalks.Walk` | libraries/eosiolib/contracts/eosio/multi_index.hpp:537-562 | a walk from begin ends after every row exactly once, in the order of the table, or by (secondary, primary) in an index |
| `IndexWalks.EraseVia` | libraries/eosiolib/contracts/eosio/multi_index.hpp:1894-1903 | `it = erase(it)` removes one row and moves to the next, through the table or an index |
| `IndexWalks.EraseOne` | libraries/eosiolib/contracts/eosio/multi_index.hpp:740-749 | erasing at the lower bound of a range brings the next row of the range to it |
| `IndexWalks.IndexEraseRange` | libraries/eosiolib/contracts/eosio/multi_index.hpp:740-749 | erasing from one lower bound of an index to another removes exactly the rows with keys of the range |
| `IndexWalks.EraseRange` | libraries/eosiolib/contracts/eosio/multi_index.hpp:1894-1903 | the same for a range of primary keys |
| `BlockChain.ReadBack` | libraries/eosiolib/malloc.cpp:422-428 | a header that was written reads back, and no byte outside it changes |
| `BlockChain.WordIsLittleEndian` | libraries/eosiolib/malloc.cpp:422-428 | a header's word has its lowest byte first |
| `BlockChain.TilingUnique` | libraries/eosiolib/malloc.cpp:413-420 | memory determines the chain of blocks that tiles it |
| `BlockChain.TiledReplace` | libraries/eosiolib/malloc.cpp:485-494 | replacing blocks by others of the same span keeps the tiling |
| `BlockChain.LiveInside` | libraries/eosiolib/malloc.cpp:263-268 | a payload in use lies behind its header and inside the chain |
| `BlockChain.LiveDisjoint` | libraries/eosiolib/malloc.cpp:275-287 | payloads of a chain are disjoint, with a header between them |
| `FreeRuns.GatherStops` | libraries/eosiolib/malloc.cpp:471-480 | the merge loop takes free blocks only, goes on as long as it does not have enough, and stops when it has or meets a used block or the end |
| `FreeRuns.MergedSpan` | libraries/eosiolib/malloc.cpp:485-494 | combining and splitting conserve bytes |
| `FreeRuns.GatherSized` | libraries/eosiolib/malloc.cpp:489-491 | the size congruence leaves room for the header of a remainder, so that its size does not underflow |
| `FreeRuns.FirstFitConserves` | libraries/eosiolib/malloc.cpp:289-312 | the search conserves the bytes of the heap, found or not |
| `FreeRuns.FirstFitFinds` | libraries/eosiolib/malloc.cpp:289-312 | it finds a place exactly when some maximal run of free blocks is large enough, and then the lowest such run |
| `FreeRuns.FirstFitLive` | libraries/eosiolib/malloc.cpp:289-312 | it adds exactly the payload it returns to those in use |
| `FreeRuns.NotFoundNoRun` | libraries/eosiolib/malloc.cpp:289-312 | a failed search, which merges on its way, leaves no large enough run |
| `LinearMemory.Ram.SetSize` | libraries/eosiolib/malloc.cpp:422-428 | a header gets a new size and keeps its state |
| `LinearMemory.Ram.MarkAlloc` | libraries/eosiolib/malloc.cpp:440-443 | a header is marked as in use and keeps its size |
| `LinearMemory.Ram.MarkFree` | libraries/eosiolib/malloc.cpp:445-448 | a header is marked as free and keeps its size |
| `LinearMemory.Ram.GatherLoop` | libraries/eosiolib/malloc.cpp:471-480 | the loop over memory computes what the free blocks of the chain add up to |
| `LinearMemory.Ram.MergeContiguous` | libraries/eosiolib/malloc.cpp:465-497 | the merged and split blocks tile the bytes of the merged ones, and success means the needed size |
| `HeapModel.CoalesceStep` | libraries/eosiolib/malloc.cpp:297-305 | merging free blocks in a heap keeps its tiling, its payloads and their bytes |
| `MemoryHeap.Memory.Init` | libraries/eosiolib/malloc.cpp:252-256 | a fresh heap over zeroed memory is valid |
| `MemoryHeap.Memory.IsInHeap` | libraries/eosiolib/malloc.cpp:263-268 | the test for a heap's addresses, which every payload in use passes |
| `MemoryHeap.Memory.Malloc` | libraries/eosiolib/malloc.cpp:275-287 | null exactly when the heap's end would be passed; otherwise one new block, and no payload in use changes |
| `MemoryHeap.Memory.MallocFromFreed` | libraries/eosiolib/malloc.cpp:289-312 | aborts exactly when the heap is not completely allocated; otherwise is the first-fit search |
| `MemoryHeap.Memory.Free` | libraries/eosiolib/malloc.cpp:362-366 | takes exactly this payload out of use |
| `MemoryHeap.Memory.CleanupRemaining` | libraries/eosiolib/malloc.cpp:368-378 | completes the heap with one free block, which has room for its header |
| `MemoryHeap.Memory.ExpandMemory` | libraries/eosiolib/malloc.cpp:380-388 | takes in memory exactly when it lies right behind the heap |
| `MemoryHeap.Memory.ReallocInPlace` | libraries/eosiolib/malloc.cpp:314-360 | growth succeeds if and only if the heap has the bytes and no payload in use is in their way, or it overruns; unless it overruns, the heap stays valid, the payload has its old or its new size and keeps its bytes, and all others keep theirs; if it overruns, no chain tiles the heap any more |
| `MemoryHeap.Memory.Shrink` | libraries/eosiolib/malloc.cpp:334-342 | shrinking changes no block |
| `MemoryHeap.Memory.GrowLast` | libraries/eosiolib/malloc.cpp:344-350 | the last payload grows into unallocated memory |
| `MemoryHeap.Memory.GrowByMerging` | libraries/eosiolib/malloc.cpp:354-359 | the payload takes in free blocks behind it, if and only if the heap has the bytes and no payload in use is in their way, or nothing changes |
| `MemoryHeap.Memory.OverrunMeaning` | libraries/eosiolib/malloc.cpp:468-480 | overrunning in terms of payloads and of blocks is the same |
| `GrowthModel.MergeFinds` | libraries/eosiolib/malloc.cpp:468-483 | the merge loop finds enough if and only if the heap has the bytes and no payload in use is in their way |
| `GrowthModel.MergeLeaves` | libraries/eosiolib/malloc.cpp:471-483 | the merge loop leaves the chain exactly when only free blocks are behind and they are too few |
| `GrowthExamples.GrowPastFreedNeighbour` | libraries/eosiolib/malloc.cpp:472-480 | a call whose merging leaves the allocated part |
| `GrowthExamples.GrowPastAddressSpace` | libraries/eosiolib/malloc.cpp:328-350 | a call whose guard wraps around |
| `ManagerModel.AdjustToMemBlock` | libraries/eosiolib/malloc.cpp:233-240 | the least size above the request that makes header and payload a multiple of eight |
| `ManagerModel.ServedAtOnce` | libraries/eosiolib/malloc.cpp:144-151 | a request that the active heap can hold is put behind its allocated part, and no page is asked for |
| `ManagerModel.ServedFromGrowth` | libraries/eosiolib/malloc.cpp:79-116 | when pages were granted, the payload lies behind the old allocated part or, if memory had grown otherwise, at its old end, and it reaches into the last page |
| `ManagerModel.GrownOnce` | libraries/eosiolib/malloc.cpp:98-115 | asking for pages one by one leaves what asking for all of them at once would: one longer heap, or a cleaned heap and a new one |
| `ManagerModel.MemoryManager.FirstPlace` | libraries/eosiolib/malloc.cpp:136-141 | the first request goes to the start of the static buffer if its block fits there |
| `ManagerModel.MemoryManager.Sbrk` | libraries/eosiolib/malloc.cpp:20-54 | hands out the bytes behind those handed out before, rounded to eight, with as few new zeroed pages as they need; refusal changes nothing and means that the bytes are not there |
| `ManagerModel.MemoryManager.SbrkPages` | libraries/eosiolib/malloc.cpp:84-95 | for whole pages, the bytes at the end of memory |
| `ManagerModel.MemoryManager.NextActiveHeap` | libraries/eosiolib/malloc.cpp:79-116 | one page more for an active heap, which is the old one if it ended with memory and a new one at the old end otherwise, or every heap completely allocated and no more growth |
| `ManagerModel.MemoryManager.UseNewMemory` | libraries/eosiolib/malloc.cpp:103-115 | the new page belongs to the active heap if it lies right behind it; otherwise that heap is cleaned up and the page starts the next one |
| `ManagerModel.MemoryManager.MallocFromSlot` | libraries/eosiolib/malloc.cpp:160-163 | on a complete heap, null exactly when there is no large enough run of free blocks, and otherwise the start of the lowest one |
| `ManagerModel.MemoryManager.MallocFromAnySlot` | libraries/eosiolib/malloc.cpp:154-169 | the round through the heaps ends, gives null exactly when none has a large enough run, and otherwise the lowest run of the first slot, from the last successful one on, that has one; this slot is where the next search begins |
| `ManagerModel.MemoryManager.MallocOrGrow` | libraries/eosiolib/malloc.cpp:144-151 | a place in the active heap after as few pages as the request needs, none if it fits at once; or null when a page is refused, with that heap completed |
| `ManagerModel.MemoryManager.Malloc` | libraries/eosiolib/malloc.cpp:117-172 | a new payload of the adjusted size at the place that `Served` and `Searched` determine, without growth if the active heap can hold it; or null, which means that memory is exhausted and no heap has a large enough run; no payload in use changes |
| `ManagerModel.MemoryManager.FindHeap` | libraries/eosiolib/malloc.cpp:222-230 | the search for the heap of a payload finds the one it is in |
| `ManagerModel.MemoryManager.Free` | libraries/eosiolib/malloc.cpp:217-231 | takes exactly this payload out of use and changes no payload's bytes |
| `ManagerModel.MemoryManager.Move` | libraries/eosiolib/malloc.cpp:203-215 | a new payload, where malloc puts it, with the old bytes instead of the old one, or nothing when memory is exhausted and no heap has a large enough run |
| `ManagerModel.MemoryManager.TryInPlace` | libraries/eosiolib/malloc.cpp:186-201 | the payload is resized where it is, with all bytes kept, or nothing changes; it stays if and only if it does not grow, or its heap has the bytes with no payload in use in their way, or the growth overruns |
| `ManagerModel.MemoryManager.Realloc` | libraries/eosiolib/malloc.cpp:174-215 | stays in place if and only if the payload does not grow, or its heap has the bytes with no payload in use in their way, or the growth overruns, and is otherwise served where malloc would; unless growth overruns, the payload has exactly the adjusted size, or its old one when it was to shrink, keeps its first bytes, and all others keep all of theirs; null changes nothing and means that memory is exhausted and no heap has a large enough run |
| `ManagerModel.MemoryManager.WritePayload` | libraries/eosiolib/malloc.cpp:207-210 | a program that writes inside its payloads keeps the manager valid |
| `ManagerModel.MemoryManager.PayloadsAreDisjoint` | libraries/eosiolib/malloc.cpp:117-231 | payloads in use are pairwise disjoint and inside memory, across heaps |
| `KeyOrder.KeyOrderTheorem` | libraries/eosiolib/core/eosio/key_utils.hpp:76-98 | for all types and values: keys are lexicographically ordered exactly as values, and none is a proper prefix of another |
| `KeyOrder.KeyAgrees` | libraries/eosiolib/core/eosio/key_utils.hpp:97-324 | two keys are equal, or differ at a byte of both that decides as the values do |
| `KeyOrder.BiasedIsOffset` | libraries/eosiolib/core/eosio/key_utils.hpp:310-314 | subtracting the minimum modulo the width counts the values from the smallest up |
| `KeyOrder.FloatToKeyOrder` | libraries/eosiolib/core/eosio/key_utils.hpp:287-299 | the integer made from a number's bits is ordered as the numbers are, with both zeros equal |
| `KeyOrder.StringAgrees` | libraries/eosiolib/core/eosio/key_utils.hpp:266-275 | escaped and terminated strings decide as the strings do |
| `KeyOrder.VarKeyOrder` | libraries/eosiolib/core/eosio/key_utils.hpp:179-206 | shorter and longer encodings of integers are ordered as the integers are |
| `KeyOrder.OptionalAgrees` | libraries/eosiolib/core/eosio/key_utils.hpp:129-150 | a missing value comes before every other one, also for one-byte types |
| `KeyOrder.TupleAgrees` | libraries/eosiolib/core/eosio/key_utils.hpp:100-111 | tuples, pairs and reflected structs decide component by component |
| `KeyOrder.ArrayAgrees` | libraries/eosiolib/core/eosio/key_utils.hpp:113-116 | arrays decide element by element |
| `KeyOrder.RangeAgrees` | libraries/eosiolib/core/eosio/key_utils.hpp:158-172 | ranges and maps decide lexicographically, the shorter first |
| `KeyOrder.VariantAgrees` | libraries/eosiolib/core/eosio/key_utils.hpp:255-259 | variants decide by alternative and then by value |
| `KeyLaws.IntegerRange` | libraries/eosiolib/core/eosio/key_utils.hpp:310-314 | which integers a type of n bytes holds, with and without a sign |
| `KeyLaws.IntegerKey` | libraries/eosiolib/core/eosio/key_utils.hpp:310-314 | the key of an integer is, as a big-endian number of its size, its distance from the smallest value |
| `KeyLaws.BoolKey` | libraries/eosiolib/core/eosio/key_utils.hpp:282-285 | the key of a bool is that of the byte 0 or 1 |
| `KeyLaws.FloatKey` | libraries/eosiolib/core/eosio/key_utils.hpp:301-309 | the key of a floating-point number is that of the unsigned integer that float_to_key makes of it |
| `KeyLaws.FloatExample` | libraries/eosiolib/core/eosio/key_utils.hpp:287-299 | the integers of 1.0, -1.0 and both zeros |
| `KeyLaws.SomeKeyIsPair` | libraries/eosiolib/core/eosio/key_utils.hpp:142-146 | a present value of a wide type has the key of the pair of true and the value |
| `KeyLaws.NoneKeyIsFalse` | libraries/eosiolib/core/eosio/key_utils.hpp:147-149 | an absent one has the key of false |
| `KeyLaws.OneByteOptionalKey` | libraries/eosiolib/core/eosio/key_utils.hpp:130-141 | of a one-byte type, a present value is escaped as a character of a string, and an absent one ends the string |
| `KeyLaws.StringKey` | libraries/eosiolib/core/eosio/key_utils.hpp:266-275 | the key of a string is that of its characters as a range |
| `KeyLaws.RangeKeyIsArray` | libraries/eosiolib/core/eosio/key_utils.hpp:158-162 | the key of a range is that of the array of its elements as optionals, ended by an absent one |
| `KeyLaws.ArrayKeyConcat` | libraries/eosiolib/core/eosio/key_utils.hpp:113-116 | the key of an array is the keys of its parts, one behind the other |
| `KeyLaws.ArrayKeySingle` | libraries/eosiolib/core/eosio/key_utils.hpp:113-116 | and that of one element is the element's key |
| `KeyLaws.TupleKeyConcat` | libraries/eosiolib/core/eosio/key_utils.hpp:100-106 | so it is for tuples |
| `KeyLaws.PairKey` | libraries/eosiolib/core/eosio/key_utils.hpp:152-156 | and pairs |
| `KeyLaws.VarKeyNumber` | libraries/eosiolib/core/eosio/key_utils.hpp:188-206 | a variable-length integer has as few bytes as it needs, and they are its big-endian number with the marks 0, 0x80, 0xC0, 0xE0 or 0xF0 at the top |
| `KeyLaws.VariantKeyIsPair` | libraries/eosiolib/core/eosio/key_utils.hpp:255-259 | a variant with fewer than 128 alternatives has the key of the pair of a byte and the value |
| `KeyLaws.VectorExample` | libraries/eosiolib/core/eosio/key_utils.hpp:158-162 | the ten bytes of the vector of the 64-bit number 7 |
| `KeyLaws.StringExample` | libraries/eosiolib/core/eosio/key_utils.hpp:266-275 | the bytes of a string with a zero in it |
| `KeyStream.StringToKey` | libraries/eosiolib/core/eosio/key_utils.hpp:266-275 | writes exactly the key of the string, if there is room |
| `KeyStream.VarUint32ToKey` | libraries/eosiolib/core/eosio/key_utils.hpp:188-206 | writes exactly the encoding of the integer |
| `KeyStream.ToKey` | libraries/eosiolib/core/eosio/key_utils.hpp:301-324 | writes exactly the key of the value, and fails exactly when the stream has no room |
| `KeyStream.SomeToKey` | libraries/eosiolib/core/eosio/key_utils.hpp:129-150 | the same for a present optional, through a one-byte stream for one-byte types |
| `KeyStream.TupleToKey` | libraries/eosiolib/core/eosio/key_utils.hpp:100-106 | the same for tuples |
| `KeyStream.ArrayToKey` | libraries/eosiolib/core/eosio/key_utils.hpp:113-116 | the same for arrays |
| `KeyStream.RangeToKey` | libraries/eosiolib/core/eosio/key_utils.hpp:158-162 | the same for ranges |
| `KeyStream.ConvertToKey` | libraries/eosiolib/core/eosio/key_utils.hpp:326-335 | the counting pass sizes the buffer exactly, the second pass fills it, and the key ends up behind what was there |
| `FloatConversion.Clzti2Correct` | libraries/rt/int_t.h:45-52 | leading zeros and significant digits make up 128 |
| `FloatConversion.RoundToMantissa` | libraries/rt/floattidf.c:33-72 | shift, sticky bit, rounding and renormalising round half to even, with the carry into a new digit |
| `FloatConversion.RoundingStep` | libraries/rt/floattidf.c:57-59 | or-ing P into R, adding one and dropping two digits rounds half to even |
| `FloatConversion.NeighbourIsNearest` | libraries/rt/floattidf.c:66-78 | of two neighbouring doubles the nearer one, or the even one, is nearest among all |
| `FloatConversion.FloatUnTiDf` | libraries/rt/floatuntidf.c:26-76 | the nearest double, ties to even, for every unsigned 128-bit integer |
| `FloatConversion.FloatTiDf` | libraries/rt/floattidf.c:26-79 | the nearest double, ties to even, for every signed one, the most negative included |
| `FloatToInteger.FixUnsignedCorrect` | libraries/rt/fixunsdfti.c:15-37 | truncation clamped to [0, 2^128-1] for every number that is not a NaN, in every format with a bias of at least 127, double and quad among them |
| `FloatToInteger.ShiftIsIntegralPart` | libraries/rt/fixunstfti.c:34-39 | shifting the significand right or left by the exponent gives the integral part, in any format |
| `FloatToInteger.FixSignedCorrect` | libraries/rt/fixdfti.c:16-41 | truncation clamped to the signed range if and only if the exponent is not 127 or the number is -2^127 |
| `FloatToInteger.RoundTrip` | libraries/rt/fixunsdfti.c:15-37 | converting back the nearest double of an integer of at most 53 significant digits gives the integer |
| `FloatToInteger.ThereAndBack` | libraries/rt/floatuntidf.c:26-76 | otherwise the result is within half the spacing of doubles there |
| `FloatToInteger.AbsNearest` | libraries/rt/floattidf.c:31-32 | rounding commutes with the sign |
| `FloatToInteger.SignedRoundTrip` | libraries/rt/fixdfti.c:16-41 | the signed conversions undo each other, exactly up to 53 digits and else within half the spacing, if and only if the integer is below 2^127 - 2^73; from there on the result is -2^127 |
| `FloatToInteger.SignedThereAndBack` | libraries/rt/floattidf.c:26-79 | both signed conversions in a row |
| `FloatToInteger.LargestWraps` | libraries/rt/fixdfti.c:31-39 | 2^127 - 1 comes back as -2^127 |
| `RopeModel.Rope.constructor` | libraries/eosiolib/core/eosio/rope.hpp:140-143 | a rope with the given text |
| `RopeModel.Rope.Append` | libraries/eosiolib/core/eosio/rope.hpp:150-155 | the text gets the string behind it |
| `RopeModel.Rope.AppendRope` | libraries/eosiolib/core/eosio/rope.hpp:165-168 | the text gets the other rope's text behind it, also for a rope appended to itself, and the other rope keeps its own |
| `RopeModel.Rope.At` | libraries/eosiolib/core/eosio/rope.hpp:157-163 | the character at an index below the length |
| `RopeModel.AtNode` | libraries/eosiolib/core/eosio/rope.hpp:111-131 | found below the node, or passed over by exactly its text |
| `RopeModel.Descend` | libraries/eosiolib/core/eosio/rope.hpp:55-68 | a step down records the parent and keeps the way back of all open nodes |
| `RopeModel.TurnDown` | libraries/eosiolib/core/eosio/rope.hpp:54-80 | one turn on the way down keeps what remains to be written equal to the unwritten text, and brings the end nearer |
| `RopeModel.TurnUp` | libraries/eosiolib/core/eosio/rope.hpp:81-96 | so does one turn on the way up |
| `RopeModel.FlattenInto` | libraries/eosiolib/core/eosio/rope.hpp:46-98 | the loop ends and fills the buffer with the flattening, for shared nodes too |
| `RopeModel.Rope.CStr` | libraries/eosiolib/core/eosio/rope.hpp:217-225 | the text and a terminating zero; the rope is unchanged |
| `WordBits.SmallSigma0Digit` | libraries/eosiolib/core/eosio/crypto_bls_ext.hpp:96-98 | each binary digit is the sum, modulo 2, of the digits 7 and 18 places higher, cyclically, and of the one 3 places higher, if there is one |
| `WordBits.SmallSigma1Digit` | libraries/eosiolib/core/eosio/crypto_bls_ext.hpp:99-101 | the same with 17, 19 and 10 |
| `WordBits.BigSigma0Digit` | libraries/eosiolib/core/eosio/crypto_bls_ext.hpp:122 | the same with 2, 13 and 22, all cyclic |
| `WordBits.BigSigma1Digit` | libraries/eosiolib/core/eosio/crypto_bls_ext.hpp:126 | the same with 6, 11 and 25 |
| `WordBits.ChTakes` | libraries/eosiolib/core/eosio/crypto_bls_ext.hpp:90-92 | where the bits of the first word are set, those of the second are taken, and elsewhere those of the third |
| `WordBits.MajTakes` | libraries/eosiolib/core/eosio/crypto_bls_ext.hpp:93-95 | where two words agree, their bits are taken, and where they differ, those of the third; in any order |
| `Sha256Constants.PrimesAre` | libraries/eosiolib/core/eosio/crypto_bls_ext.hpp:68-85 | the primes behind the constants are primes, in ascending order |
| `Sha256Constants.PrimesComplete` | libraries/eosiolib/core/eosio/crypto_bls_ext.hpp:68-85 | and no prime up to 311 is missing |
| `Sha256Constants.RoundConstantIsCubeRoot` | libraries/eosiolib/core/eosio/crypto_bls_ext.hpp:68-85 | each round constant is the first 32 bits of the fractional part of the cube root of its prime |
| `Sha256Constants.CubeRootUnique` | libraries/eosiolib/core/eosio/crypto_bls_ext.hpp:68-85 | which determines it |
| `Sha256Constants.InitialHashIsSquareRoot` | libraries/eosiolib/core/eosio/crypto_bls_ext.hpp:18-25 | each word of the initial hash value is that of the square root |
| `Fips180.WordBytes` | libraries/eosiolib/core/eosio/crypto_bls_ext.hpp:106-109 | the bytes that make a word come back from it |
| `Fips180.LengthIsBigEndian` | libraries/eosiolib/core/eosio/crypto_bls_ext.hpp:161-169 | the eight bytes of the length are its big-endian number |
| `Sha256Abc.DigestOfAbc` | libraries/eosiolib/core/eosio/crypto_bls_ext.hpp:102-180 | the digest of "abc" is the published one, ba7816bf to f20015ad |
| `Sha256Model.SigmasAgree` | libraries/eosiolib/core/eosio/crypto_bls_ext.hpp:87-101 | the code's shifts and ors are the rotations of section 3.2 of FIPS 180-4, and so its functions are those of section 4.1.2 |
| `Sha256Model.ChooseIsCh` | libraries/eosiolib/core/eosio/crypto_bls_ext.hpp:90-92 | so is its choice |
| `Sha256Model.MajorityIsMaj` | libraries/eosiolib/core/eosio/crypto_bls_ext.hpp:93-95 | the shorter majority is the one of section 4.1.2 of FIPS 180-4 |
| `Sha256Model.SumOrder` | libraries/eosiolib/core/eosio/crypto_bls_ext.hpp:128 | the order of the additions does not matter |
| `Sha256Model.OneRound` | libraries/eosiolib/core/eosio/crypto_bls_ext.hpp:120-139 | one turn in place is one round of section 6.2.2 of FIPS 180-4 |
| `Sha256Model.Schedule` | libraries/eosiolib/core/eosio/crypto_bls_ext.hpp:106-114 | the message schedule of a block |
| `Sha256Model.Sha256.constructor` | libraries/eosiolib/core/eosio/crypto_bls_ext.hpp:17-26 | the hash of nothing yet |
| `Sha256Model.Sha256.Transform` | libraries/eosiolib/core/eosio/crypto_bls_ext.hpp:102-145 | the compression of the buffered block |
| `Sha256Model.Sha256.UpdateByte` | libraries/eosiolib/core/eosio/crypto_bls_ext.hpp:28-37 | one byte more, with full blocks hashed and the rest buffered |
| `Sha256Model.Sha256.Update` | libraries/eosiolib/core/eosio/crypto_bls_ext.hpp:27-38 | the message gets the bytes behind it |
| `Fips180.ZeroCountLeast` | libraries/eosiolib/core/eosio/crypto_bls_ext.hpp:147-153 | the zeros of the padding are as few as section 5.1.1 of FIPS 180-4 asks for |
| `Sha256Model.PaddedOnce` | libraries/eosiolib/core/eosio/crypto_bls_ext.hpp:146-171 | the last block of section 5.1.1 of FIPS 180-4 when the length fits |
| `Sha256Model.PaddedTwice` | libraries/eosiolib/core/eosio/crypto_bls_ext.hpp:155-158 | the last two when it does not |
| `Sha256Model.Sha256.Pad` | libraries/eosiolib/core/eosio/crypto_bls_ext.hpp:146-171 | the state after all blocks of the padded message |
| `Sha256Model.Revert` | libraries/eosiolib/core/eosio/crypto_bls_ext.hpp:172-180 | the bytes of the state's words, most significant first |
| `Sha256Model.Sha256.Digest` | libraries/eosiolib/core/eosio/crypto_bls_ext.hpp:45-58 | the SHA-256 of everything given, however it was split |
| `XmdModel.FirstHash` | libraries/eosiolib/core/eosio/crypto_bls_ext.hpp:383-399 | b_0 of section 5.3.1 of RFC 9380 |
| `XmdModel.NextHash` | libraries/eosiolib/core/eosio/crypto_bls_ext.hpp:402-409 | combining in place, numbering and hashing |
| `XmdModel.ChainStep` | libraries/eosiolib/core/eosio/crypto_bls_ext.hpp:400-404 | starting from zeros, what a turn hashes is the next b_i |
| `XmdModel.ZerosAreOneBlock` | libraries/eosiolib/core/eosio/crypto_bls_ext.hpp:379-394 | the zeros in front of the message are one block of the hash |
| `XmdModel.MsgPrimeParts` | libraries/eosiolib/core/eosio/crypto_bls_ext.hpp:385-398 | where the message, the length as a big-endian number, the zero, the tag and its length are in what b_0 hashes |
| `XmdModel.LinkMessageParts` | libraries/eosiolib/core/eosio/crypto_bls_ext.hpp:406-409 | where the block, its number, the tag and its length are in what every later block hashes |
| `XmdModel.ChainBlocks` | libraries/eosiolib/core/eosio/crypto_bls_ext.hpp:400-410 | the first block hashes b_0, and every further one b_0 combined with the block before |
| `XmdModel.XorDigit` | libraries/eosiolib/core/eosio/crypto_bls_ext.hpp:403 | combining adds the binary digits of bytes modulo 2 |
| `XmdModel.UniformAt` | libraries/eosiolib/core/eosio/crypto_bls_ext.hpp:413 | the i-th 32 bytes are the i-th block |
| `XmdModel.XmdSha256` | libraries/eosiolib/core/eosio/crypto_bls_ext.hpp:370-414 | nothing for lengths out of range; otherwise expand_message_xmd truncated to the length, and no byte behind it |
| `NameModel.FromString` | libraries/eosiolib/core/eosio/name.hpp:77-100 | the name of a string, or which of the three refusals applies: too long, a character that has no value, or a thirteenth one above j |
| `NameModel.Length` | libraries/eosiolib/core/eosio/name.hpp:124-139 | the length of the name's string |
| `NameModel.WriteAsString` | libraries/eosiolib/core/eosio/name.hpp:230-249 | the end of the string, which is written exactly when wanted and fitting, and nothing else is |
| `NameModel.RoundTrip` | libraries/eosiolib/core/eosio/name.hpp:256-260 | the constructor undoes to_string for every name |
| `NameModel.AcceptsExactly` | libraries/eosiolib/core/eosio/name.hpp:77-100 | a string is accepted with a name exactly if it has at most 13 characters and is, without the dots at its end, the string of this name |
| `NameModel.Examples` | tests/unit/name_tests.cpp:48-52 | two names by value; a dot at the end changes nothing |
| `NameModel.NameOrder` | libraries/eosiolib/core/eosio/name.hpp:296-298 | names are ordered exactly as their strings |
| `NameModel.CharmapValue` | libraries/eosiolib/core/eosio/name.hpp:108-119 | the character of a digit has that digit as its value, in the library and in the tools |
| `NameModel.CharmapIs` | libraries/eosiolib/core/eosio/name.hpp:231 | the characters by ranges |
| `NameModel.ValueCharmap` | libraries/eosiolib/core/eosio/name.hpp:108-119 | a character that has a value is the character of that value |
| `NameModel.StringToName` | tools/include/eosio/utils.hpp:29-46 | the digits of the string's symbols |
| `NameModel.SymbolsOfName` | tools/include/eosio/utils.hpp:21-46 | the tools read a name's string as the library does |
| `NameModel.ValidateName` | tools/include/eosio/utils.hpp:48-78 | accepts exactly the strings of names, and then tools and library agree on the name |
| `FixedBytesModel.SetFromBytes` | libraries/eosiolib/core/eosio/fixed_bytes.hpp:62-90 | the words of the bytes, a partial last word included |
| `FixedBytesModel.WordOfBytes` | libraries/eosiolib/core/eosio/fixed_bytes.hpp:62-90 | a word is the big-endian number of its bytes, moved to the top when the bytes end in it |
| `FixedBytesModel.ExtractAsBytes` | libraries/eosiolib/core/eosio/fixed_bytes.hpp:220-244 | the bytes of the words |
| `FixedBytesModel.RoundTrip` | libraries/eosiolib/core/eosio/fixed_bytes.hpp:220-244 | extracting undoes packing for every size |
| `FixedBytesModel.FixedBytesOrder` | libraries/eosiolib/core/eosio/fixed_bytes.hpp:311-349 | words are equal and ordered exactly as the bytes lexicographically |
| `DecimalModel.CountDigits` | libraries/eosiolib/eosiolib.cpp:113-116 | the number of decimal digits, none for zero |
| `DecimalModel.Layout` | libraries/eosiolib/eosiolib.cpp:118-134 | where point and sign go, and how much room is needed |
| `DecimalModel.WriteFraction` | libraries/eosiolib/eosiolib.cpp:139-146 | exactly the digits behind the point, with zeros in front |
| `DecimalModel.WriteDecimal` | libraries/eosiolib/eosiolib.cpp:112-158 | the end of the text, the same in a dry run; the text is written exactly when wanted and fitting, and nothing else is |
| `DecimalModel.ReadsBack` | libraries/eosiolib/eosiolib.cpp:112-158 | the text reads back as sign, number and places |
| `DecimalModel.OnlyText` | libraries/eosiolib/eosiolib.cpp:112-158 | the text is the only one without superfluous zeros in front, with a digit in front of the point and one behind it, that reads back as sign, number and places |
| `DecimalModel.CountInFront` | libraries/eosiolib/eosiolib.cpp:118-127 | how many digits stand in front of the point: one zero, or as many as the whole part has |
| `DecimalModel.Examples` | libraries/eosiolib/eosiolib.cpp:112-158 | 0.05, -123.45 and 0 |
| `Base64Model.PosOfCharOf` | libraries/eosiolib/base64.cpp:5-49 | the character of a position has that position, in both alphabets, and is neither a pad nor a line break |
| `Base64Model.CharOfPos` | libraries/eosiolib/base64.cpp:5-49 | a character that has a position is the character of that position |
| `Base64Model.AlphabetIs` | libraries/eosiolib/base64.cpp:61-69 | the alphabets by ranges |
| `Base64Model.LastCharacters` | libraries/eosiolib/base64.cpp:61-69 | the characters 62 and 63 of both alphabets |
| `Base64Model.HasPosition` | libraries/eosiolib/base64.cpp:5-49 | exactly the characters of the alphabet have a position |
| `Base64Model.Base64Encode` | libraries/eosiolib/base64.cpp:51-112 | the encoding of sections 4 and 5 of RFC 4648 |
| `Base64Model.Base64Decode` | libraries/eosiolib/base64.cpp:114-186 | the bytes of the chunks, or an abort |
| `Base64Model.Base64DecodeLines` | libraries/eosiolib/base64.cpp:117-124 | the same without the line breaks |
| `Base64Model.RoundTrip` | libraries/eosiolib/base64.cpp:114-186 | decoding undoes encoding for all bytes in both alphabets |
| `Base64Model.EncodedLength` | libraries/eosiolib/base64.cpp:53 | a padded encoding has 4 * ceil(n / 3) characters |
| `Base64Model.EncodedForm` | libraries/eosiolib/base64.cpp:85-108 | one character of the alphabet for six bits begun, and then exactly the pads that fill the last group, none in the url alphabet |
| `Base64Model.Vectors` | libraries/eosiolib/base64.cpp:51-112 | test vectors of section 10 of RFC 4648 and the last characters of both alphabets |
| `Base64Model.DecodesExactly` | libraries/eosiolib/base64.cpp:141-185 | a string is decoded exactly if each chunk has from two to four characters of the alphabet, up to its end or a pad |
| `Base64Model.ChunkValue` | libraries/eosiolib/base64.cpp:155-182 | the bytes of a chunk are those of the number of its digits, as many as they fill |
| `Base64Model.UnbrokenParts` | libraries/eosiolib/base64.cpp:117-124 | line breaks are removed character by character |
| `Base64Model.UnbrokenCharacter` | libraries/eosiolib/base64.cpp:117-124 | and nothing but line feeds |

## Left out

- Two live multi_index objects on one table, references to erased rows, RAM payers and billing: outside the contract of a single object.
- The host aborts a store under a primary key that is in use: this is assumed of `db_store_i64`, whose description does not say it.
- Serialization of rows: a row is stored and read as a value, so that writing and reading a row is assumed to round trip.
- The secondary key types: a key is a rank in its order and an image of its bytes, and equal images are required to have equal ranks. NaN keys, which the host refuses, have no rank.
- `require_find`, `get`, `iterator_to` and the reverse iterators of multi_index: find and steps with another message or a check in front.
- calloc, the 64-bit native build, double frees and requests of 2^31 bytes and more: preconditions of the allocator model.
- The refusal of sbrk is recognised (malloc.cpp:96); on a 32-bit target the comparison depends on how the pointer is widened.
- The pointer check in realloc_in_place (malloc.cpp:322-326) is not modelled: it cannot fail for a payload in use.
- `to_key_varint32`: disabled by a static assertion in the source. NaNs have no place in the order and are excluded.
- Signalling, exceptions and rounding modes of floating point: the conversions work on bit patterns.
- Construction of a rope node in two steps (malloc of the node, then `right`): the model sets both children at once, and `append<N>`, which counts the terminator, is left out.
- size_t overflow in rope lengths and in offsets of buffers: lengths are unbounded.
- BLS group operations, pairing and everything of crypto_bls_ext.hpp behind xmd_sh256: the library it calls is not part of this model.
- `|`, `&` and shifts are modelled as arithmetic wherever they only put fields together or take them apart; the bitwise functions of SHA-256 and the xor of xmd_sh256 go through 32-bit and 8-bit vectors.
- A negative `in_len` or `dst_len` of xmd_sh256: both are lengths of byte strings here.
- `fixed_bytes` from words of more than one byte and from fewer bytes than its size; `name::suffix` and `name::prefix`.
- Pointer overflow in write_as_string and write_decimal (`begin + n < begin`): buffers are arrays and ends are indices in them.
- Code generation, the ABI tools, the host calls behind the C API and the Python tooling.
