/** One block of the chunk allocator (src/chunk_allocator.h, class
    node_manager): `Size * 8` cells, each carrying a back-pointer to the
    block that owns it, and `Size` banks of occupancy bits updated in place. */
module Blocks {
  import opened Wrappers
  import opened Banks

  /** The address of a cell: the block whose node array holds it and its
      index in that array. It stands for the raw `node_t *` of the source. */
  datatype Cell = Cell(block: NodeManager, index: nat)

  class NodeManager {
    /** `Size`: the number of banks. */
    const size: nat
    /** `bitset[Size]`: the occupancy banks. */
    const bitset: array<bv8>
    /** The `manager` field of each of the `Size * 8` nodes. */
    const memory: array<NodeManager?>

    /** Cells per block (`Chunk_size`). */
    function Capacity(): nat
    {
      CHAR_BIT * size
    }

    ghost predicate Valid()
      reads memory
    {
      && bitset.Length == size
      && memory.Length == Capacity()
      && forall k :: 0 <= k < memory.Length ==> memory[k] == this
    }

    /** The occupancy of the block's cells, in index order. */
    ghost function Occupied(): seq<bool>
      reads bitset
    {
      Occupancy(bitset[..])
    }

    /** The banks say exactly occ. */
    ghost predicate Shows(occ: seq<bool>)
      reads bitset
    {
      Occupied() == occ
    }

    /** Every node's manager is this block; every bank starts at zero. */
    constructor (size: nat)
      ensures Valid() && this.size == size
      ensures fresh(bitset) && fresh(memory)
      ensures Occupied() == AllFree(Capacity())
    {
      this.size := size;
      bitset := new bv8[size](_ => 0);
      memory := new NodeManager?[CHAR_BIT * size];
      new;
      var i := 0;
      while i < CHAR_BIT * size
        invariant 0 <= i <= CHAR_BIT * size
        invariant forall k :: 0 <= k < i ==> memory[k] == this
        invariant forall k :: 0 <= k < size ==> bitset[k] == 0
      {
        memory[i] := this;
        i := i + 1;
      }
      assert bitset[..] == seq(size, _ => 0 as bv8);
      ZeroBanksAllFree(size);
    }

    /** Claims the lowest-index free cell; None stands for the null
        pointer returned when every cell is used. */
    method UseFreeBlock() returns (r: Option<nat>)
      requires Valid()
      modifies bitset
      ensures r == FirstFree(old(Occupied()))
      ensures r.None? ==> unchanged(bitset)
      ensures r.Some? ==> bitset[..] == SetBit(old(bitset[..]), r.value)
    {
      ghost var before := bitset[..];
      var i, j := FindClearBit();
      if i < size {
        LowestClearBit(before, i, j);
        var _ := SetUsed(i, j);
        return Some(CHAR_BIT * i + j);
      }
      NoClearBit(before);
      return None;
    }

    /** The nested scan of use_free_block, bank by bank and bit by bit: it
        stops at the first clear bit, or runs off the end with i == size. */
    method FindClearBit() returns (i: nat, j: nat)
      requires Valid()
      ensures i < size ==> StopsAt(bitset[..], i, j)
      ensures i >= size ==> AllSet(bitset[..])
    {
      i, j := 0, 0;
      label scan:
      while i < size
        invariant 0 <= i <= size
        invariant forall b, t :: 0 <= b < i && 0 <= t < CHAR_BIT ==> BitSet(bitset[..], b, t)
      {
        j := 0;
        while j < CHAR_BIT
          invariant 0 <= j <= CHAR_BIT
          invariant forall t :: 0 <= t < j ==> BitSet(bitset[..], i, t)
        {
          if bitset[i] & Mask(j) == 0 {
            break scan;
          }
          j := j + 1;
        }
        i := i + 1;
      }
    }

    /** Clears the bit of cell c when c lies in this block's node array;
        an address outside it is refused and nothing changes. */
    method FreeBlock(c: Cell) returns (ok: bool)
      requires Valid()
      modifies bitset
      ensures ok <==> c.block == this && c.index < Capacity()
      ensures ok ==> bitset[..] == ClearBit(old(bitset[..]), c.index)
      ensures ok ==> Occupied() == old(Occupied())[c.index := false]
      ensures !ok ==> bitset[..] == old(bitset[..])
    {
      if c.block == this && c.index < memory.Length {
        var diff := c.index;
        var index := diff / CHAR_BIT;
        var unsetBitMask := !Mask(diff - index * CHAR_BIT);
        bitset[index] := bitset[index] & unsetBitMask;
        ClearBitOccupancy(old(bitset[..]), c.index);
        return true;
      }
      return false;
    }

    /** True iff some bank is not 0xFF, that is iff some cell is free. */
    method HasFree() returns (r: bool)
      requires Valid()
      ensures r <==> false in Occupied()
    {
      var i := 0;
      while i < size
        invariant 0 <= i <= size
        invariant forall k :: 0 <= k < CHAR_BIT * i ==> CellUsed(bitset[..], k)
      {
        if bitset[i] & 0xFF != 0xFF {
          var j := BankHasClearBit(bitset[i]);
          CellOfBankBit(bitset[..], i, j);
          assert !Occupied()[CHAR_BIT * i + j];
          return true;
        }
        FullBankCells(bitset[..], i);
        i := i + 1;
      }
      return false;
    }

    /** As written, the scan finds no path that answers true: a block never
        reports itself empty, whatever its banks hold. */
    method Empty() returns (r: bool)
      requires Valid()
      ensures !r
    {
      var i := 0;
      while i < size
      {
        if bitset[i] != 0 {
          return false;
        }
        i := i + 1;
      }
      return false;
    }

    /** `bitset[bank] |= 1 << bit`; the source's return value is always false. */
    method SetUsed(bank: nat, bit: nat) returns (r: bool)
      requires bank < bitset.Length && bit < CHAR_BIT
      modifies bitset
      ensures !r
      ensures bitset[..] == SetBit(old(bitset[..]), CHAR_BIT * bank + bit)
    {
      CellOfBankBit(bitset[..], bank, bit);
      bitset[bank] := bitset[bank] | Mask(bit);
      return false;
    }
  }
}
