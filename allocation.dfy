/** The chunk allocator (src/chunk_allocator.h, class chunk_allocator): a
    pool of blocks, newest last, from which single cells are handed out and
    to which they are returned. */
module Allocation {
  import opened Wrappers
  import opened Banks
  import opened Blocks
  import opened Reclaim
  import opened PoolModel

  /** The std::invalid_argument thrown for requests of more than one cell,
      with its message. */
  datatype AllocError = InvalidArgument(what: string)

  const SingleCellOnly: string := "Currently allocator supports only single cell allocation"

  /** The cells marked used in a pool whose i-th block is blocks[i] and has
      occupancy view[i]. */
  ghost function UsedCells(blocks: seq<NodeManager>, view: seq<seq<bool>>): set<Cell>
  {
    set i, k | 0 <= i < |blocks| && i < |view| && 0 <= k < |view[i]| && view[i][k] :: Cell(blocks[i], k)
  }

  /** With distinct blocks, a cell of the pool is used iff its bit says so. */
  lemma UsedIffMarked(blocks: seq<NodeManager>, view: seq<seq<bool>>, b: nat, k: nat)
    requires Distinct(blocks) && |blocks| == |view| && b < |view| && k < |view[b]|
    ensures Cell(blocks[b], k) in UsedCells(blocks, view) <==> view[b][k]
  {
    if Cell(blocks[b], k) in UsedCells(blocks, view) {
      var i, j :| 0 <= i < |blocks| && i < |view| && 0 <= j < |view[i]| && view[i][j]
        && Cell(blocks[i], j) == Cell(blocks[b], k);
      assert i == b;
    }
  }

  /** Marking a cell used adds exactly that cell. */
  lemma UsedAfterMark(blocks: seq<NodeManager>, view: seq<seq<bool>>, b: nat, k: nat)
    requires |blocks| == |view| && b < |view| && k < |view[b]|
    ensures UsedCells(blocks, view[b := view[b][k := true]]) == UsedCells(blocks, view) + {Cell(blocks[b], k)}
  {
    var marked := view[b := view[b][k := true]];
    forall x | x in UsedCells(blocks, marked)
      ensures x in UsedCells(blocks, view) + {Cell(blocks[b], k)}
    {
      var i, j :| 0 <= i < |blocks| && i < |marked| && 0 <= j < |marked[i]| && marked[i][j]
        && x == Cell(blocks[i], j);
      if i != b || j != k {
        assert view[i][j];
      }
    }
    forall x | x in UsedCells(blocks, view)
      ensures x in UsedCells(blocks, marked)
    {
      var i, j :| 0 <= i < |blocks| && i < |view| && 0 <= j < |view[i]| && view[i][j]
        && x == Cell(blocks[i], j);
      assert marked[i][j];
    }
    assert marked[b][k];
  }

  /** With distinct blocks, marking a cell free removes exactly that cell. */
  lemma UsedAfterClear(blocks: seq<NodeManager>, view: seq<seq<bool>>, b: nat, k: nat)
    requires Distinct(blocks) && |blocks| == |view| && b < |view| && k < |view[b]|
    ensures UsedCells(blocks, view[b := view[b][k := false]]) == UsedCells(blocks, view) - {Cell(blocks[b], k)}
  {
    var cleared := view[b := view[b][k := false]];
    forall x | x in UsedCells(blocks, cleared)
      ensures x in UsedCells(blocks, view) - {Cell(blocks[b], k)}
    {
      var i, j :| 0 <= i < |blocks| && i < |cleared| && 0 <= j < |cleared[i]| && cleared[i][j]
        && x == Cell(blocks[i], j);
      assert view[i][j];
      assert i != b || j != k;
    }
    forall x | x in UsedCells(blocks, view) - {Cell(blocks[b], k)}
      ensures x in UsedCells(blocks, cleared)
    {
      var i, j :| 0 <= i < |blocks| && i < |view| && 0 <= j < |view[i]| && view[i][j]
        && x == Cell(blocks[i], j);
      assert cleared[i][j];
    }
  }

  /** A new, all-free block adds no used cell. */
  lemma UsedAfterAppend(blocks: seq<NodeManager>, view: seq<seq<bool>>, block: NodeManager, cap: nat)
    requires |blocks| == |view|
    ensures UsedCells(blocks + [block], view + [AllFree(cap)]) == UsedCells(blocks, view)
  {
    var blocks', view' := blocks + [block], view + [AllFree(cap)];
    forall x | x in UsedCells(blocks', view')
      ensures x in UsedCells(blocks, view)
    {
      var i, j :| 0 <= i < |blocks'| && i < |view'| && 0 <= j < |view'[i]| && view'[i][j]
        && x == Cell(blocks'[i], j);
      assert i < |view|;
    }
    forall x | x in UsedCells(blocks, view)
      ensures x in UsedCells(blocks', view')
    {
      var i, j :| 0 <= i < |blocks| && i < |view| && 0 <= j < |view[i]| && view[i][j]
        && x == Cell(blocks[i], j);
      assert view'[i][j] && blocks'[i] == blocks[i];
    }
  }

  class ChunkAllocator {
    /** `Size`: banks per block. */
    const size: nat
    /** `Strategy`: how an emptied block would leave the pool. */
    const strategy: MemoryStrategy
    /** `pool_`: the uniquely owned blocks, in order of creation. */
    var pool: seq<NodeManager>
    /** The occupancy of each block of the pool, oldest first. */
    ghost var view: seq<seq<bool>>
    /** The node arrays of the pool, which nothing writes after a block is built. */
    ghost var memories: set<array<NodeManager?>>
    /** The banks of the pool: what allocation and deallocation write. */
    ghost var bitsets: set<array<bv8>>

    /** Cells per block (`Chunk_size`). */
    function Capacity(): nat
    {
      CHAR_BIT * size
    }

    ghost predicate Valid()
      reads this, memories, bitsets
    {
      Shaped() && Synced()
    }

    /** Blocks are valid, have `Size` banks, are distinct and own distinct
        banks; their node arrays and banks are the ones accounted for. */
    ghost predicate Shaped()
      reads this, memories
    {
      && 1 < size
      && (forall b :: b in pool ==> b.size == size && b.memory in memories && b.bitset in bitsets && b.Valid())
      && Distinct(pool)
      && (forall i, j :: 0 <= i < j < |pool| ==> pool[i].bitset != pool[j].bitset)
    }

    /** The ghost view is the occupancy of the blocks' banks. */
    ghost predicate Synced()
      reads this, bitsets
    {
      && |view| == |pool|
      && WellShaped(view, Capacity())
      && (forall b :: b in pool ==> b.bitset in bitsets)
      && forall i {:trigger pool[i].Shows(view[i])} :: 0 <= i < |pool| ==> pool[i].Shows(view[i])
    }

    /** The occupancy the view records for block i is that of its banks. */
    lemma ViewIsBanks(i: nat)
      requires Valid() && i < |pool|
      ensures view[i] == pool[i].Occupied()
    {
      assert pool[i].Shows(view[i]);
    }

    /** After the banks of block b and its view entry changed together, the
        view still shows every block's banks. */
    twostate lemma KeepsOtherBanks(b: nat)
      requires old(Valid()) && Shaped() && pool == old(pool) && bitsets == old(bitsets)
      requires b < |pool| && |view| == |old(view)| && |view[b]| == Capacity()
      requires forall i :: 0 <= i < |pool| && i != b ==> view[i] == old(view[i])
      requires view[b] == pool[b].Occupied()
      requires forall i :: 0 <= i < |pool| && i != b ==> unchanged(pool[i].bitset)
      ensures Valid()
    {
      forall i | 0 <= i < |pool|
        ensures pool[i].Shows(view[i])
      {
        if i != b {
          assert old(pool[i].Shows(view[i]));
        }
      }
    }

    /** The cells currently handed out. */
    ghost function Used(): set<Cell>
      reads this
    {
      UsedCells(pool, view)
    }

    /** A cell handed out lies in a block of the pool, below its capacity:
        it may be given back to deallocate. */
    lemma UsedInPool(c: Cell)
      requires Valid() && c in Used()
      ensures c.block in pool && c.index < Capacity()
      ensures c.block.memory[c.index] == c.block
    {
      var i, k :| 0 <= i < |pool| && i < |view| && 0 <= k < |view[i]| && view[i][k] && c == Cell(pool[i], k);
      assert |view[i]| == Capacity();
    }

    /** A new allocator owns no block; `Size > 1` is the source's static_assert. */
    constructor (size: nat, strategy: MemoryStrategy)
      requires 1 < size
      ensures Valid()
      ensures this.size == size && this.strategy == strategy && pool == [] && Used() == {}
      ensures bitsets == {}
    {
      this.size := size;
      this.strategy := strategy;
      pool := [];
      view := [];
      memories := {};
      bitsets := {};
    }

    /** Hands out one cell; a request for more than one is refused before
        the pool is touched, and a request for zero cells gets one cell. */
    method Allocate(n: nat) returns (r: Result<Cell, AllocError>)
      requires Valid()
      modifies this, bitsets
      ensures Valid()
      ensures r.Failure? <==> 1 < n
      ensures r.Failure? ==> r.error == InvalidArgument(SingleCellOnly)
      ensures r.Failure? ==> unchanged(this) && unchanged(old(bitsets))
      ensures r.Success? ==> Granted(old(view), r.value)
      ensures r.Success? ==> Used() == old(Used()) + {r.value} && r.value !in old(Used())
      ensures old(pool) <= pool && old(bitsets) <= bitsets && fresh(bitsets - old(bitsets))
    {
      if 1 < n {
        return Failure(InvalidArgument(SingleCellOnly));
      }
      var c := GetFreeBlock();
      return Success(c);
    }

    /** The cell handed out and the new occupancy are the ones the reference
        model claims from the occupancy before. */
    ghost predicate Granted(before: seq<seq<bool>>, c: Cell)
      requires 1 < size
      reads this
    {
      var cl := Claim(before, Capacity());
      && view == cl.view
      && cl.block < |pool|
      && c == Cell(pool[cl.block], cl.cell)
    }

    /** Scans the pool from the newest block to the oldest and claims a cell
        in the first block with room; appends a block when none has room. */
    method GetFreeBlock() returns (c: Cell)
      requires Valid()
      modifies this, bitsets
      ensures Valid() && Granted(old(view), c)
      ensures Used() == old(Used()) + {c} && c !in old(Used())
      ensures old(pool) <= pool && old(bitsets) <= bitsets && fresh(bitsets - old(bitsets))
    {
      var i := 0;
      if 0 < |pool| {
        i := FindBlockWithRoom();
      }
      if i == 0 {
        ClaimAfterGrow(view, Capacity());
        var _ := AppendBlock();
        i := |pool|;
      }
      c := UseBlockAt(i - 1);
    }

    /** The reverse-iterator loop of get_free_block: asks each block,
        newest first, whether it has a free cell. Returns one past the index
        of the block found, or 0 when no block has room. */
    method FindBlockWithRoom() returns (i: nat)
      requires Valid()
      ensures i == 0 ==> NewestWithRoom(view).None?
      ensures 0 < i ==> NewestWithRoom(view) == Some(i - 1)
    {
      i := |pool|;
      while 0 < i
        invariant i <= |pool|
        invariant forall later :: i <= later < |pool| ==> Full(view[later])
      {
        var room := pool[i - 1].HasFree();
        ViewIsBanks(i - 1);
        if room {
          NewestWithRoomAt(view, i - 1);
          return;
        }
        i := i - 1;
      }
    }

    /** `pool_.push_back(std::make_unique<node_manager>())`. */
    method AppendBlock() returns (block: NodeManager)
      requires Valid()
      modifies this
      ensures Valid()
      ensures pool == old(pool) + [block] && fresh(block.bitset)
      ensures bitsets == old(bitsets) + {block.bitset}
      ensures view == old(view) + [AllFree(Capacity())]
      ensures Used() == old(Used())
    {
      block := new NodeManager(size);
      UsedAfterAppend(pool, view, block, Capacity());
      pool := pool + [block];
      view := view + [AllFree(Capacity())];
      memories := memories + {block.memory};
      bitsets := bitsets + {block.bitset};
    }

    /** `use_free_block` on the block at index b, the newest with room. */
    method UseBlockAt(b: nat) returns (c: Cell)
      requires Valid() && NewestWithRoom(view) == Some(b)
      modifies this, pool[b].bitset
      ensures Valid() && pool == old(pool) && bitsets == old(bitsets) && Granted(old(view), c)
      ensures Used() == old(Used()) + {c} && c !in old(Used())
    {
      ClaimAt(view, Capacity(), b);
      ViewIsBanks(b);
      var block := pool[b];
      ghost var before := block.bitset[..];
      var k := block.UseFreeBlock();
      c := Cell(block, k.value);
      SetBitOccupancy(before, k.value);
      UsedIffMarked(pool, view, b, k.value);
      UsedAfterMark(pool, view, b, k.value);
      view := view[b := view[b][k.value := true]];
      KeepsOtherBanks(b);
    }

    /** Returns a cell to the block its node names as manager; a request
        for more than one cell is refused before any bank is touched. The
        block would leave the pool by the allocator's strategy once empty,
        but a block never reports itself empty, so the pool is kept. */
    method Deallocate(c: Cell, n: nat) returns (r: Outcome<AllocError>)
      requires Valid() && (n <= 1 ==> c.block in pool && c.index < Capacity())
      modifies this, bitsets
      ensures Valid()
      ensures r.Fail? <==> 1 < n
      ensures r.Fail? ==> r.error == InvalidArgument(SingleCellOnly)
      ensures r.Fail? ==> unchanged(this) && unchanged(old(bitsets))
      ensures r.Pass? ==> pool == old(pool) && bitsets == old(bitsets) && Used() == old(Used()) - {c}
      ensures r.Pass? ==> forall i :: 0 <= i < |pool| && pool[i] == c.block ==>
        view == Release(old(view), i, c.index)
    {
      if 1 < n {
        return Fail(InvalidArgument(SingleCellOnly));
      }
      var manager: NodeManager := c.block.memory[c.index];
      ghost var b :| 0 <= b < |pool| && pool[b] == manager;
      ViewIsBanks(b);
      var _ := manager.FreeBlock(c);
      UsedAfterClear(pool, view, b, c.index);
      view := view[b := view[b][c.index := false]];
      KeepsOtherBanks(b);
      var empty := manager.Empty();
      pool := if empty then Removed(strategy, pool, manager) else pool;
      return Pass;
    }
  }
}
