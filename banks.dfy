/** The occupancy map of one block of the chunk allocator
    (src/chunk_allocator.h, node_manager::bitset): `Size` banks of
    CHAR_BIT bits each, bit j of bank i recording whether cell 8*i+j is in
    use. This module holds the pure part: what a bank sequence means as a
    sequence of occupied/free cells, and the single-bit updates the block
    performs on it. */
module Banks {
  import opened Wrappers

  /** Bits per bank. */
  const CHAR_BIT: nat := 8

  /** The bank mask `1 << j`. */
  function Mask(j: nat): bv8
    requires j < CHAR_BIT
  {
    (1 as bv8) << j
  }

  /** Whether cell k is marked as used: bit k % 8 of bank k / 8. */
  predicate CellUsed(banks: seq<bv8>, k: nat)
    requires k < CHAR_BIT * |banks|
  {
    banks[k / CHAR_BIT] & Mask(k % CHAR_BIT) != 0
  }

  /** The banks read as one flag per cell, in cell-index order. */
  function Occupancy(banks: seq<bv8>): seq<bool>
  {
    seq(CHAR_BIT * |banks|, k requires 0 <= k < CHAR_BIT * |banks| => CellUsed(banks, k))
  }

  /** `bitset[k / 8] |= 1 << (k % 8)`: mark cell k as used. */
  function SetBit(banks: seq<bv8>, k: nat): seq<bv8>
    requires k < CHAR_BIT * |banks|
  {
    banks[k / CHAR_BIT := banks[k / CHAR_BIT] | Mask(k % CHAR_BIT)]
  }

  /** `bitset[k / 8] &= ~(1 << (k % 8))`: mark cell k as free. */
  function ClearBit(banks: seq<bv8>, k: nat): seq<bv8>
    requires k < CHAR_BIT * |banks|
  {
    banks[k / CHAR_BIT := banks[k / CHAR_BIT] & !Mask(k % CHAR_BIT)]
  }

  /** A block with no cell in use. */
  function AllFree(capacity: nat): seq<bool>
  {
    seq(capacity, _ => false)
  }

  /** The lowest-index free cell, if any. */
  function FirstFree(occ: seq<bool>): (r: Option<nat>)
    ensures r.None? <==> false !in occ
    ensures r.Some? ==> r.value < |occ| && !occ[r.value]
    ensures r.Some? ==> forall k :: 0 <= k < r.value ==> occ[k]
  {
    if |occ| == 0 then None
    else if !occ[0] then Some(0)
    else match FirstFree(occ[1..])
         case None => None
         case Some(k) => Some(k + 1)
  }

  /** The two conditions of FirstFree's contract single out its answer. */
  lemma FirstFreeIs(occ: seq<bool>, k: nat)
    requires k < |occ| && !occ[k]
    requires forall m :: 0 <= m < k ==> occ[m]
    ensures FirstFree(occ) == Some(k)
  {
  }

  /** Bit j of `b | Mask(i)` is bit j of b, or set when i == j. */
  lemma MaskOr(b: bv8, i: nat, j: nat)
    requires i < CHAR_BIT && j < CHAR_BIT
    ensures ((b | Mask(i)) & Mask(j) != 0) == (i == j || b & Mask(j) != 0)
  {
  }

  /** Bit j of `b & ~Mask(i)` is bit j of b, or clear when i == j. */
  lemma MaskAndNot(b: bv8, i: nat, j: nat)
    requires i < CHAR_BIT && j < CHAR_BIT
    ensures ((b & !Mask(i)) & Mask(j) != 0) == (i != j && b & Mask(j) != 0)
  {
  }

  /** Cell k lives at bank k / 8, bit k % 8, and nowhere else. */
  lemma CellPosition(k: nat, m: nat)
    ensures (k / CHAR_BIT == m / CHAR_BIT && k % CHAR_BIT == m % CHAR_BIT) == (k == m)
  {
  }

  /** Cell 8*i + j is bit j of bank i. */
  lemma CellOfBankBit(banks: seq<bv8>, i: nat, j: nat)
    requires i < |banks| && j < CHAR_BIT
    ensures CHAR_BIT * i + j < CHAR_BIT * |banks|
    ensures CellUsed(banks, CHAR_BIT * i + j) == (banks[i] & Mask(j) != 0)
  {
    var k := CHAR_BIT * i + j;
    assert k / CHAR_BIT == i && k % CHAR_BIT == j;
  }

  /** Setting the bit of cell k marks exactly cell k as used. */
  lemma SetBitOccupancy(banks: seq<bv8>, k: nat)
    requires k < CHAR_BIT * |banks|
    ensures Occupancy(SetBit(banks, k)) == Occupancy(banks)[k := true]
  {
    var after := SetBit(banks, k);
    var lhs, rhs := Occupancy(after), Occupancy(banks)[k := true];
    forall m | 0 <= m < CHAR_BIT * |banks|
      ensures lhs[m] == rhs[m]
    {
      CellPosition(k, m);
      if m / CHAR_BIT == k / CHAR_BIT {
        MaskOr(banks[m / CHAR_BIT], k % CHAR_BIT, m % CHAR_BIT);
      } else {
        assert after[m / CHAR_BIT] == banks[m / CHAR_BIT];
      }
    }
    assert lhs == rhs;
  }

  /** Clearing the bit of cell k marks exactly cell k as free. */
  lemma ClearBitOccupancy(banks: seq<bv8>, k: nat)
    requires k < CHAR_BIT * |banks|
    ensures Occupancy(ClearBit(banks, k)) == Occupancy(banks)[k := false]
  {
    var after := ClearBit(banks, k);
    var lhs, rhs := Occupancy(after), Occupancy(banks)[k := false];
    forall m | 0 <= m < CHAR_BIT * |banks|
      ensures lhs[m] == rhs[m]
    {
      CellPosition(k, m);
      if m / CHAR_BIT == k / CHAR_BIT {
        MaskAndNot(banks[m / CHAR_BIT], k % CHAR_BIT, m % CHAR_BIT);
      } else {
        assert after[m / CHAR_BIT] == banks[m / CHAR_BIT];
      }
    }
    assert lhs == rhs;
  }

  /** Freeing a cell that was just claimed restores the banks bit for bit. */
  lemma ClearUndoesSet(banks: seq<bv8>, k: nat)
    requires k < CHAR_BIT * |banks| && !CellUsed(banks, k)
    ensures ClearBit(SetBit(banks, k), k) == banks
  {
  }

  /** A bank that is not 0xFF has a clear bit, and one that is has none. */
  lemma BankHasClearBit(b: bv8) returns (j: nat)
    requires b & 0xFF != 0xFF
    ensures j < CHAR_BIT && b & Mask(j) == 0
  {
    j := 0;
    while j < CHAR_BIT - 1 && b & Mask(j) != 0
      invariant j < CHAR_BIT
      invariant forall m :: 0 <= m < j ==> b & Mask(m) != 0
    {
      j := j + 1;
    }
    if b & Mask(j) != 0 {
      AllBitsSetIsFull(b);
    }
  }

  /** A bank whose eight bits are all set is 0xFF. */
  lemma AllBitsSetIsFull(b: bv8)
    requires forall m :: 0 <= m < CHAR_BIT ==> b & Mask(m) != 0
    ensures b & 0xFF == 0xFF
  {
    assert b & Mask(0) != 0 && b & Mask(1) != 0 && b & Mask(2) != 0 && b & Mask(3) != 0;
    assert b & Mask(4) != 0 && b & Mask(5) != 0 && b & Mask(6) != 0 && b & Mask(7) != 0;
  }

  /** Every bit of a full bank is set. */
  lemma FullBankAllSet(b: bv8, j: nat)
    requires b & 0xFF == 0xFF && j < CHAR_BIT
    ensures b & Mask(j) != 0
  {
  }

  /** Every cell of a full bank is in use. */
  lemma FullBankCells(banks: seq<bv8>, i: nat)
    requires i < |banks| && banks[i] & 0xFF == 0xFF
    ensures forall k :: CHAR_BIT * i <= k < CHAR_BIT * (i + 1) ==> CellUsed(banks, k)
  {
    forall k | CHAR_BIT * i <= k < CHAR_BIT * (i + 1)
      ensures CellUsed(banks, k)
    {
      var j := k - CHAR_BIT * i;
      FullBankAllSet(banks[i], j);
      CellOfBankBit(banks, i, j);
    }
  }

  /** Bit j of bank i is set. */
  predicate BitSet(banks: seq<bv8>, i: nat, j: nat)
    requires i < |banks| && j < CHAR_BIT
  {
    banks[i] & Mask(j) != 0
  }

  /** Cells before 8*i + j are used when every earlier bank is full and
      the bits of bank i below j are set. */
  lemma CellsBeforeUsed(banks: seq<bv8>, i: nat, j: nat)
    requires i < |banks| && j < CHAR_BIT
    requires forall b, t :: 0 <= b < i && 0 <= t < CHAR_BIT ==> BitSet(banks, b, t)
    requires forall t :: 0 <= t < j ==> BitSet(banks, i, t)
    ensures forall m :: 0 <= m < CHAR_BIT * i + j ==> CellUsed(banks, m)
  {
    forall m | 0 <= m < CHAR_BIT * i + j
      ensures CellUsed(banks, m)
    {
      var b, t := m / CHAR_BIT, m % CHAR_BIT;
      assert m == CHAR_BIT * b + t;
      assert b < i || (b == i && t < j);
      assert BitSet(banks, b, t);
      CellOfBankBit(banks, b, t);
    }
  }

  /** A scan of the banks in bank-then-bit order stops at bit j of bank i:
      every bit before it is set and this one is clear. */
  predicate StopsAt(banks: seq<bv8>, i: nat, j: nat)
  {
    && i < |banks| && j < CHAR_BIT && !BitSet(banks, i, j)
    && (forall b, t :: 0 <= b < i && 0 <= t < CHAR_BIT ==> BitSet(banks, b, t))
    && (forall t :: 0 <= t < j ==> BitSet(banks, i, t))
  }

  /** Every bit of every bank is set. */
  predicate AllSet(banks: seq<bv8>)
  {
    forall b, t :: 0 <= b < |banks| && 0 <= t < CHAR_BIT ==> BitSet(banks, b, t)
  }

  /** Where the scan stops is the first free cell. */
  lemma LowestClearBit(banks: seq<bv8>, i: nat, j: nat)
    requires StopsAt(banks, i, j)
    ensures FirstFree(Occupancy(banks)) == Some(CHAR_BIT * i + j)
  {
    CellsBeforeUsed(banks, i, j);
    CellOfBankBit(banks, i, j);
    FirstFreeIs(Occupancy(banks), CHAR_BIT * i + j);
  }

  /** When every bit of every bank is set there is no free cell. */
  lemma NoClearBit(banks: seq<bv8>)
    requires AllSet(banks)
    ensures FirstFree(Occupancy(banks)) == None
  {
    forall m | 0 <= m < CHAR_BIT * |banks|
      ensures CellUsed(banks, m)
    {
      var b, t := m / CHAR_BIT, m % CHAR_BIT;
      assert m == CHAR_BIT * b + t;
      assert BitSet(banks, b, t);
      CellOfBankBit(banks, b, t);
    }
    assert false !in Occupancy(banks);
  }

  /** A fresh block's zeroed banks have every cell free. */
  lemma ZeroBanksAllFree(size: nat)
    ensures Occupancy(seq(size, _ => 0 as bv8)) == AllFree(CHAR_BIT * size)
  {
    var banks := seq(size, _ => 0 as bv8);
    forall m | 0 <= m < CHAR_BIT * size
      ensures !CellUsed(banks, m)
    {
      assert banks[m / CHAR_BIT] == 0;
    }
  }
}
