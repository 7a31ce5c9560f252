# Chunk allocator and forward list, modelled in Dafny

This project models the sequential core of a small C++ library:

- **The chunk allocator** (`src/chunk_allocator.h`). It hands out one-cell allocations from a pool of fixed-size blocks.
  - Each block (`node_manager`) owns `Size * 8` cells and `Size` bytes ("banks") of occupancy bits. Bit `j` of bank `i` marks cell `8*i + j` as used.
  - The allocator keeps its blocks in order of creation. It claims a cell from the newest block that has room, and appends a new block when none has.
  - A request for more than one cell throws `std::invalid_argument`.
  - A freed cell finds its block through the `manager` back-pointer of its node.
  - A strategy (NONE, LIFO, FIFO) would remove a block that reports itself empty.
- **The singly linked list** (`src/linked_list.h`). Its nodes `{value, next}` live in cells of its own allocator instance. The list has `push_front`, `insert_after`, `front`, `begin`/`end`/`empty`, iterators and a destructor that hands every node back.
- **The demo helpers** (`src/app_lib.h`): `factorial`, and the two `fill_cntr` overloads. One fills a list, the other fills a map with `i ↦ i!`.
- **The client scenarios** of `tests/test.cpp`, stated against the model as methods whose postconditions are proved.

Modules, one per file:

- `Wrappers` (wrappers.dfy): `Option`, `Result` and `Outcome`. They stand for a null pointer or a thrown exception.
- `Banks` (banks.dfy): the occupancy bits as `seq<bv8>`, read as one flag per cell. It holds the bank-and-bit arithmetic of `|=` and `&= ~`.
- `Blocks` (blocks.dfy): `NodeManager`, a class over a `bv8` array of banks and an array of back-pointers. A cell address is a `Cell(block, index)` handle in place of a raw `node_t *`.
- `Reclaim` (reclaim.dfy): `remove_block` for the three strategies, over a sequence of blocks.
- `PoolModel` (pool_model.dfy): a value-level reference model of the pool. The occupancy of each block is a `seq<bool>`. It defines what one allocation (`Claim`) and one release do, and proves the block count after `k` allocations.
- `Allocation` (allocation.dfy): `ChunkAllocator`. The class holds the pool and a ghost occupancy view that every method keeps equal to the blocks' banks. Each method is proved against `PoolModel`.
- `Lists` (lists.dfy): `ListNode`, `ListIterator` and `LinkedList`. Ghost `Contents`, `Nodes` and `Repr` give the abstract state. Every node sits in its own cell, one that the list's allocator has handed out.
- `AppLib` (app_lib.dfy): `Factorial`, `FillList` and `FillMap`.
- `ListScenarios` (list_scenarios.dfy): the test cases as methods whose postconditions are the tests' expected outputs.

Where the code departs from the intended design, the model follows the code:

- `node_manager::empty()` returns `false` on every path, so a block never reports itself empty. The reclamation call in `deallocate` therefore never fires, and the pool never shrinks under any strategy. The intended design would reclaim a block once none of its cells is in use.
- Blocks keep no live-count. `has_free()` is a scan of the banks for one that is not `0xFF`.
- `insert_after` returns an iterator to the newly inserted node, not one advanced past it.
- `allocate(0)` is accepted and hands out one cell, because only `n > 1` is rejected.
- `deallocate(p, 0)` is accepted in the same way and frees p's cell (src/chunk_allocator.h:174).

Where the code reads through a pointer it never checks, the model makes the check a precondition:

- `++` on an iterator at `end()` and `front()` on an empty list dereference a null pointer (src/linked_list.h:46, 128). In the model, `Increment` and `Value` require a non-null node, and `Front` and `SetFront` require a non-empty list.
- `deallocate` ignores what `free_block` returns (src/chunk_allocator.h:178). In the model, a cell handed back with `n <= 1` must be a cell of one of this allocator's blocks. For such a cell `free_block` always finds its address and answers true, so the discarded `false` never arises.

## Model

| member | source | states |
|---|---|---|
| Banks.FirstFree | src/chunk_allocator.h:99-112 | The lowest-index free cell: None iff every cell is used; otherwise a free cell below which every cell is used |
| Banks.FirstFreeIs | src/chunk_allocator.h:99-112 | A free cell with every lower cell used is exactly FirstFree's answer |
| Banks.CellPosition | src/chunk_allocator.h:117-119 | Bank `k / 8` and bit `k % 8` identify cell k and no other |
| Banks.CellOfBankBit | src/chunk_allocator.h:103-106 | Cell `8*i + j` is in range and is used iff bit j of bank i is set |
| Banks.MaskOr | src/chunk_allocator.h:141 | OR-ing `1 << i` into b sets bit i and keeps every other bit of b |
| Banks.MaskAndNot | src/chunk_allocator.h:119-120 | AND-ing b with `~(1 << i)` clears bit i and keeps every other bit of b |
| Banks.SetBitOccupancy | src/chunk_allocator.h:138-143 | Setting the bit of cell k marks exactly cell k used and leaves every other cell as it was |
| Banks.ClearBitOccupancy | src/chunk_allocator.h:113-124 | Clearing the bit of cell k marks exactly cell k free and leaves every other cell as it was |
| Banks.ClearUndoesSet | src/chunk_allocator.h:113-124 | Freeing a cell that was free before it was claimed restores the banks bit for bit |
| Banks.BankHasClearBit | src/chunk_allocator.h:127 | A bank other than 0xFF has a clear bit |
| Banks.AllBitsSetIsFull | src/chunk_allocator.h:127 | A bank with all eight bits set is 0xFF |
| Banks.FullBankAllSet | src/chunk_allocator.h:127 | Every bit of a 0xFF bank is set |
| Banks.FullBankCells | src/chunk_allocator.h:125-130 | Every cell of a 0xFF bank is in use |
| Banks.CellsBeforeUsed | src/chunk_allocator.h:101-103 | Full earlier banks and set lower bits of bank i mean every cell before `8*i + j` is used |
| Banks.LowestClearBit | src/chunk_allocator.h:99-110 | The bit where the bank-then-bit scan stops is the lowest free cell |
| Banks.NoClearBit | src/chunk_allocator.h:111 | A scan that finds every bit set means there is no free cell |
| Banks.ZeroBanksAllFree | src/chunk_allocator.h:146 | Zero-initialised banks have every cell free |
| Blocks.NodeManager.constructor | src/chunk_allocator.h:92-97 | A new block has every node's manager set to itself and every cell free |
| Blocks.NodeManager.UseFreeBlock | src/chunk_allocator.h:99-112 | Returns the lowest free cell and sets exactly its bit; returns None (null), changing nothing, iff every cell is used |
| Blocks.NodeManager.FindClearBit | src/chunk_allocator.h:100-103 | The nested scan stops at the first clear bit in bank-then-bit order, or finds every bit set |
| Blocks.NodeManager.FreeBlock | src/chunk_allocator.h:113-124 | True iff the address lies in this block's node array; then exactly that cell's bit is cleared, otherwise nothing changes |
| Blocks.NodeManager.HasFree | src/chunk_allocator.h:125-130 | True iff some cell of the block is free |
| Blocks.NodeManager.Empty | src/chunk_allocator.h:131-136 | Always false, whatever the banks hold, and changes nothing |
| Blocks.NodeManager.SetUsed | src/chunk_allocator.h:138-143 | Sets exactly bit `bit` of bank `bank` and returns false |
| Reclaim.FirstIndex | src/chunk_allocator.h:34-41 | The front scan finds the first entry equal to the block, or None iff it is absent |
| Reclaim.LastIndex | src/chunk_allocator.h:51-58 | The back scan finds the last entry equal to the block, or None iff it is absent |
| Reclaim.FirstIndexIs | src/chunk_allocator.h:34-41 | An occurrence with none before it is the front scan's answer |
| Reclaim.LastIndexIs | src/chunk_allocator.h:51-58 | An occurrence with none after it is the back scan's answer |
| Reclaim.RemoveFromFront | src/chunk_allocator.h:30-45 | The LIFO loop erases the first pointer-equal entry scanning from the front |
| Reclaim.RemoveFromBack | src/chunk_allocator.h:47-62 | The FIFO loop erases the first pointer-equal entry scanning from the back |
| Reclaim.RemoveBlock | src/chunk_allocator.h:25-62 | Dispatches on the strategy; NONE leaves the pool as it is |
| Reclaim.RemovedKeepsOrder | src/chunk_allocator.h:25-62 | Any strategy leaves the pool unchanged or erases one occurrence of the block, keeping the others in order |
| Reclaim.EraseAtOneCopy | src/chunk_allocator.h:39 | Erasing one entry takes exactly one copy out of the pool |
| Reclaim.RemovedOneCopy | src/chunk_allocator.h:30-62 | LIFO and FIFO take exactly one copy of a present block out of the pool |
| Reclaim.LifoFifoAgree | src/chunk_allocator.h:30-62 | With distinct entries, LIFO and FIFO produce the same pool, and the block is no longer in it |
| PoolModel.NewestWithRoom | src/chunk_allocator.h:189-194 | The scan from the newest block stops at a block with room with only full blocks after it, or finds none iff all are full |
| PoolModel.NewestWithRoomAt | src/chunk_allocator.h:189-194 | A block with room followed only by full blocks is where the scan stops |
| PoolModel.Claim | src/chunk_allocator.h:185-198 | One allocation hands out the lowest free cell of the newest block with room, setting only its flag; it appends a block and hands out its cell 0 iff every block is full |
| PoolModel.ClaimAt | src/chunk_allocator.h:192-193 | A scan that stops at block b claims b's lowest free cell |
| PoolModel.ClaimAfterGrow | src/chunk_allocator.h:196-197 | Appending an all-free block and claiming from it is the same allocation as Claim on the full pool |
| PoolModel.ReleaseAfterClaim | src/chunk_allocator.h:173-182 | Freeing the cell just allocated restores the occupancy; a block that was appended stays in the pool, all free |
| PoolModel.ClaimFullPool | src/chunk_allocator.h:196-197 | On a pool of full blocks an allocation opens a new block with one cell used |
| PoolModel.ClaimPartial | src/chunk_allocator.h:192-193 | A partly used last block hands out its next cell |
| PoolModel.ClaimInLastBlock | src/chunk_allocator.h:192-193 | Below its last cell, the last block gains one more used cell |
| PoolModel.ClaimLastCell | src/chunk_allocator.h:192-193 | Taking the last free cell leaves every block full |
| PoolModel.StepPacked | src/chunk_allocator.h:185-198 | One more allocation on a densely packed pool gives the next packed pool |
| PoolModel.AllocateManyPacked | src/chunk_allocator.h:185-198 | With no frees, k allocations fill blocks densely, oldest first |
| PoolModel.PackedLength | src/chunk_allocator.h:185-198 | A packed pool holding k cells has ceil(k / capacity) blocks |
| PoolModel.BlockCount | src/chunk_allocator.h:185-198 | With no frees, k allocations leave exactly ceil(k / (Size*8)) blocks |
| Allocation.UsedIffMarked | src/chunk_allocator.h:103 | With distinct blocks, a cell counts as handed out iff its flag is set |
| Allocation.UsedAfterMark | src/chunk_allocator.h:138-143 | Marking a cell used adds exactly that cell to those handed out |
| Allocation.UsedAfterClear | src/chunk_allocator.h:113-124 | Marking a cell free removes exactly that cell from those handed out |
| Allocation.UsedAfterAppend | src/chunk_allocator.h:196 | A new all-free block adds no cell in use |
| Allocation.ChunkAllocator.UsedInPool | src/chunk_allocator.h:177-178 | A cell handed out lies in a block of the pool, and its node's manager is that block |
| Allocation.ChunkAllocator.constructor | src/chunk_allocator.h:161 | A new allocator has an empty pool and no cell in use |
| Allocation.ChunkAllocator.Allocate | src/chunk_allocator.h:164-170 | Fails with the single-cell message iff n > 1, then changing nothing; otherwise (n = 0 or 1) hands out one new cell as Claim does; the pool only grows |
| Allocation.ChunkAllocator.GetFreeBlock | src/chunk_allocator.h:185-198 | Hands out the cell Claim picks, adds exactly it to the cells in use, and only appends to the pool |
| Allocation.ChunkAllocator.FindBlockWithRoom | src/chunk_allocator.h:187-195 | The reverse loop over `has_free` finds the newest block with room, or reports none |
| Allocation.ChunkAllocator.AppendBlock | src/chunk_allocator.h:196 | Appends one all-free block; the cells in use are unchanged |
| Allocation.ChunkAllocator.UseBlockAt | src/chunk_allocator.h:192-193 | `use_free_block` on the newest block with room hands out the cell Claim picks |
| Allocation.ChunkAllocator.Deallocate | src/chunk_allocator.h:173-182 | Fails with the single-cell message iff n > 1, whatever the cell, then changing nothing; otherwise frees the cell in the block its manager names, and the pool stays the same |
| Lists.InsertedAfter | src/linked_list.h:100-111 | The values after a splice: the prefix through position i, then v, then the old successors, with only v gained |
| Lists.InsertedAfterLast | tests/test.cpp:130-144 | Inserting after the last position appends |
| Lists.ListNode.constructor | src/linked_list.h:75-77 | A node built in a cell has next null and holds the value |
| Lists.ListIterator.Equals | src/linked_list.h:38-42 | Iterators are equal iff they point at the same node |
| Lists.ListIterator.NotEquals | src/linked_list.h:43 | The negation of equality |
| Lists.ListIterator.Increment | src/linked_list.h:45-48 | Moves to the node's successor |
| Lists.ListIterator.Value | src/linked_list.h:50 | Reads the value of the node pointed at |
| Lists.LinkedList.constructor | src/linked_list.h:81-85 | A new list is empty, with a null head and a fresh allocator with no cell in use |
| Lists.LinkedList.MakeNode | src/linked_list.h:72-79 | Requests exactly one new cell and builds a node there with next null and the given value |
| Lists.LinkedList.PushFront | src/linked_list.h:115-126 | Contents s become [v] + s, in a newly allocated node |
| Lists.LinkedList.Splice | src/linked_list.h:107-111 | The new node follows position i and the old successor follows it |
| Lists.LinkedList.AdoptFirst | src/linked_list.h:104-105 | On an empty list the new node becomes the head and sole element |
| Lists.LinkedList.InsertAfter | src/linked_list.h:100-114 | On an empty list v becomes the sole element and pos is ignored; otherwise v lands right after pos's node; returns an iterator to the new node |
| Lists.LinkedList.InsertAt | src/linked_list.h:100-114 | insert_after with pos's position given: contents become InsertedAfter(s, i, v) |
| Lists.LinkedList.Front | src/linked_list.h:128 | Returns the first value |
| Lists.LinkedList.SetFront | src/linked_list.h:128 | Assigning through front() changes the first value and nothing else |
| Lists.LinkedList.Begin | src/linked_list.h:130 | An iterator at the head node, null when empty |
| Lists.LinkedList.End | src/linked_list.h:131 | The null iterator |
| Lists.LinkedList.IsEmpty | src/linked_list.h:132 | True iff the list has no element |
| Lists.LinkedList.Traverse | tests/test.cpp:156-158 | Iterating from begin() with ++ until == end() visits exactly the values, in list order |
| Lists.LinkedList.DropHead | src/linked_list.h:96 | The head moves to the next node; the contents lose their first value |
| Lists.LinkedList.FreeHead | src/linked_list.h:93-96 | One destructor step gives the head node's cell back and drops the head |
| Lists.LinkedList.Destroy | src/linked_list.h:86-98 | Gives back every node's cell exactly once, head first, leaving the list empty |
| AppLib.Factorial | src/app_lib.h:13-17 | n! is at least 1 and at least n |
| AppLib.FactorialValues | src/app_lib.h:19-23 | 9! = 362880, 3! = 6, 2! = 2, 1! = 1, 0! = 1 |
| AppLib.FactorialMonotone | src/app_lib.h:13-17 | Factorial never decreases |
| AppLib.FillList | src/app_lib.h:76-82 | Contents s become [0, ..., times-1] + s; times <= 0 leaves the list unchanged |
| AppLib.FactorialCounter.Next | src/app_lib.h:59-65 | Each call yields (i, i!) and then advances the captured counter |
| AppLib.InsertNew | src/app_lib.h:57 | Inserting through the insert iterator adds k ↦ v only when k is absent, and keeps every existing entry |
| AppLib.FillMap | src/app_lib.h:55-73 | The keys become the old ones plus 0..times-1; new keys map to their factorial, old entries are kept; an empty map ends with exactly times entries |
| ListScenarios.AllocateAndFree | tests/test.cpp:11-17 | allocate(1) succeeds and deallocate(p, 1) is accepted |
| ListScenarios.CatchErrors | tests/test.cpp:19-45 | allocate(2) and deallocate(p, 2) both fail with the single-cell message |
| ListScenarios.NewListIsEmpty | src/linked_list.h:130-132 | A new list is empty and begin() == end() |
| ListScenarios.PushTenIterate | tests/test.cpp:83-96 | Pushing 0..9 at the front iterates as 9, 8, ..., 0 |
| ListScenarios.AssignFront | tests/test.cpp:98-128 | Pushing 1 ten times and assigning front() = 2 reads 2 then nine 1s, under NONE and LIFO alike |
| ListScenarios.ChainStep | tests/test.cpp:135-136 | `it = insert_after(it, i)` with it at the last node appends i and moves it to the new last node |
| ListScenarios.InsertAfterChain | tests/test.cpp:130-177 | Chaining insert_after for 0..19 from begin() of an empty list reads 0..19 under NONE, LIFO and FIFO |

## Left out

- `src/mem_debug.h`, `src/mem_debug.cpp` and `src/main.cpp` are not part of this model. They are global `operator new`/`delete` counters over `malloc`/`free` and a printing driver.
- `src/app_traits.h` holds compile-time type constraints only.
- The `operator<<` overloads and `fill_and_print` in `src/app_lib.h` are left out: they write to streams.
- `node_manager::operator==` is left out: it recurses into itself forever and nothing calls it.
- `rebind` and the converting constructor are type-level plumbing. Each list owns its own allocator instance, created by the list's constructor.
- Raw pointers and `reinterpret_cast` become `Cell(block, index)` handles. A cell's payload is not stored in the block; a list node keeps its own value.
- The list is modelled over the chunk allocator only. The `std::allocator` default is not modelled, so the pair-valued list test (tests/test.cpp:63-80) and the default-allocator list test (tests/test.cpp:49-61) are not replayed.
- The iterator's copy and move assignment and move constructor (src/linked_list.h:30-36, 51) are left out. The move operations swap with a possibly uninitialised pointer. Iterators are modelled as objects holding the node pointer; their copy and move semantics are not modelled.
- The never-updated `size_` field and the destructor's unused counter `i` are left out.
- The destructor's `destroy` of each value is not modelled: values are plain data here.
- AppLib.Factorial: over unbounded naturals, so the overflow of a fixed-width integer for large n is not modelled.
- AppLib.FillList: over a signed `int` counter; the non-terminating loop for an unsigned element type is not modelled.
- `std::map` internals and the insert iterator's hint are not modelled; the map is a Dafny `map<int, int>`.
- Allocation.ChunkAllocator.Deallocate: a pointer from another allocator's block, which the code would free in that other block, is not modelled. For `n <= 1` the cell must belong to this allocator's pool.
- Allocation.ChunkAllocator.Deallocate: the reclamation branch is modelled, but it never runs because a block never reports itself empty. Its effect on the ghost occupancy view is therefore not modelled.
- Lists.LinkedList.Traverse: a client loop, written from the test's iteration; the list itself has no such method.
