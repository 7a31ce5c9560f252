/** A value-level reference model of the chunk allocator's pool
    (src/chunk_allocator.h, get_free_block and deallocate): the pool seen
    as the occupancy of each block, oldest block first. The allocator class
    is proved to follow it step by step. */
module PoolModel {
  import opened Wrappers
  import opened Banks

  /** Every block of the pool has `cap` cells. */
  predicate WellShaped(view: seq<seq<bool>>, cap: nat)
  {
    forall b :: 0 <= b < |view| ==> |view[b]| == cap
  }

  /** A block with no free cell. */
  predicate Full(occ: seq<bool>)
  {
    false !in occ
  }

  /** The block a scan from the newest end of the pool stops at: the
      newest block that still has a free cell. */
  function NewestWithRoom(view: seq<seq<bool>>): (r: Option<nat>)
    ensures r.None? <==> forall b :: 0 <= b < |view| ==> Full(view[b])
    ensures r.Some? ==> r.value < |view| && !Full(view[r.value])
    ensures r.Some? ==> forall b :: r.value < b < |view| ==> Full(view[b])
  {
    if |view| == 0 then None
    else if !Full(view[|view| - 1]) then Some(|view| - 1)
    else NewestWithRoom(view[..|view| - 1])
  }

  /** The scan from the newest end stops at the first block with room. */
  lemma NewestWithRoomAt(view: seq<seq<bool>>, b: nat)
    requires b < |view| && !Full(view[b])
    requires forall later :: b < later < |view| ==> Full(view[later])
    ensures NewestWithRoom(view) == Some(b)
  {
  }

  /** The pool after one allocation, with the block and cell handed out. */
  datatype Claimed = Claimed(view: seq<seq<bool>>, block: nat, cell: nat)

  /** One allocation: it hands out a cell that was free, in the newest
      block with room, the lowest free one there, and sets only its bit; it
      opens a new block, handing out its cell 0, exactly when every block
      is full. */
  function Claim(view: seq<seq<bool>>, cap: nat): (r: Claimed)
    requires 0 < cap
    ensures r.block <= |view| && r.block < |r.view| && r.cell < |r.view[r.block]|
    ensures r.block == |view| <==> forall b :: 0 <= b < |view| ==> Full(view[b])
    ensures r.block < |view| ==>
      && r.cell < |view[r.block]|
      && !view[r.block][r.cell]
      && r.view == view[r.block := view[r.block][r.cell := true]]
      && (forall b :: r.block < b < |view| ==> Full(view[b]))
      && (forall k :: 0 <= k < r.cell ==> view[r.block][k])
    ensures r.block == |view| ==> r.cell == 0 && r.view == view + [AllFree(cap)[0 := true]]
    ensures WellShaped(view, cap) ==> WellShaped(r.view, cap)
  {
    match NewestWithRoom(view)
    case Some(b) =>
      var c := FirstFree(view[b]).value;
      Claimed(view[b := view[b][c := true]], b, c)
    case None =>
      Claimed(view + [AllFree(cap)[0 := true]], |view|, 0)
  }

  /** A scan from the newest end that stops at block b claims the lowest
      free cell of b. */
  lemma ClaimAt(view: seq<seq<bool>>, cap: nat, b: nat)
    requires 0 < cap && b < |view| && !Full(view[b])
    requires forall later :: b < later < |view| ==> Full(view[later])
    ensures FirstFree(view[b]).Some?
    ensures var c := FirstFree(view[b]).value;
      Claim(view, cap) == Claimed(view[b := view[b][c := true]], b, c)
  {
  }

  /** A scan that finds every block full appends an all-free block and
      claims cell 0 of it: claiming from the grown pool gives the same. */
  lemma ClaimAfterGrow(view: seq<seq<bool>>, cap: nat)
    requires 0 < cap
    requires forall b :: 0 <= b < |view| ==> Full(view[b])
    ensures NewestWithRoom(view + [AllFree(cap)]) == Some(|view|)
    ensures Claim(view + [AllFree(cap)], cap) == Claim(view, cap)
  {
    var grown := view + [AllFree(cap)];
    assert grown[|view|] == AllFree(cap) && !AllFree(cap)[0];
    NewestWithRoomAt(grown, |view|);
    ClaimAt(grown, cap, |view|);
    FirstFreeIs(AllFree(cap), 0);
    var claimed := AllFree(cap)[0 := true];
    assert Claim(grown, cap) == Claimed(grown[|view| := claimed], |view|, 0);
    assert grown[|view| := claimed] == view + [claimed];
    assert Claim(view, cap).block == |view|;
  }

  /** One deallocation: the cell's bit is cleared and, since a block never
      reports itself empty, no block ever leaves the pool. */
  function Release(view: seq<seq<bool>>, block: nat, cell: nat): seq<seq<bool>>
    requires block < |view| && cell < |view[block]|
  {
    view[block := view[block][cell := false]]
  }

  /** Freeing the cell just allocated restores the occupancy; when the
      allocation had to append a block, that block stays, all free. */
  lemma ReleaseAfterClaim(view: seq<seq<bool>>, cap: nat)
    requires 0 < cap
    ensures var r := Claim(view, cap);
      Release(r.view, r.block, r.cell) ==
        if r.block < |view| then view else view + [AllFree(cap)]
  {
    var r := Claim(view, cap);
    if r.block < |view| {
      assert view[r.block][r.cell := true][r.cell := false] == view[r.block];
    } else {
      assert AllFree(cap)[0 := true][0 := false] == AllFree(cap);
    }
  }

  /** The pool after k allocations without any deallocation. */
  function AllocateMany(k: nat, cap: nat): seq<seq<bool>>
    requires 0 < cap
  {
    if k == 0 then [] else Claim(AllocateMany(k - 1, cap), cap).view
  }

  /** A block whose first `used` cells are taken. */
  function Prefix(used: nat, cap: nat): (r: seq<bool>)
    ensures |r| == cap
  {
    seq(cap, c => c < used)
  }

  /** The pool k == q * cap + m allocations pack into: q full blocks, then
      a block with its first m cells used when m is not zero. */
  function Packed(q: nat, m: nat, cap: nat): seq<seq<bool>>
  {
    seq(q, _ => Prefix(cap, cap)) + (if m == 0 then [] else [Prefix(m, cap)])
  }

  /** On a pool whose blocks are all full, an allocation opens a new
      block and uses its first cell. */
  lemma ClaimFullPool(q: nat, cap: nat)
    requires 1 < cap
    ensures Claim(Packed(q, 0, cap), cap).view == Packed(q, 1, cap)
  {
    var view := Packed(q, 0, cap);
    forall b | 0 <= b < |view| ensures Full(view[b]) {
      assert view[b] == Prefix(cap, cap);
    }
    assert AllFree(cap)[0 := true] == Prefix(1, cap);
  }

  /** A partly used last block hands out its lowest free cell. */
  lemma ClaimPartial(q: nat, m: nat, cap: nat)
    requires 0 < m < cap
    ensures Claim(Packed(q, m, cap), cap).view == seq(q, _ => Prefix(cap, cap)) + [Prefix(m + 1, cap)]
  {
    var view := Packed(q, m, cap);
    assert view[q] == Prefix(m, cap);
    FirstFreeIs(Prefix(m, cap), m);
    assert Prefix(m, cap)[m := true] == Prefix(m + 1, cap);
  }

  /** Below its last cell, the last block just gains one more used cell. */
  lemma ClaimInLastBlock(q: nat, m: nat, cap: nat)
    requires 0 < m && m + 1 < cap
    ensures Claim(Packed(q, m, cap), cap).view == Packed(q, m + 1, cap)
  {
    ClaimPartial(q, m, cap);
  }

  /** Taking the last free cell of the last block leaves every block full. */
  lemma ClaimLastCell(q: nat, m: nat, cap: nat)
    requires 0 < m && m + 1 == cap
    ensures Claim(Packed(q, m, cap), cap).view == Packed(q + 1, 0, cap)
  {
    ClaimPartial(q, m, cap);
    assert seq(q, _ => Prefix(cap, cap)) + [Prefix(cap, cap)] == seq(q + 1, _ => Prefix(cap, cap));
  }

  /** The cells of q full blocks, counted block by block. */
  function Cells(q: nat, cap: nat): nat
  {
    if q == 0 then 0 else Cells(q - 1, cap) + cap
  }

  lemma {:induction false} CellsIsProduct(q: nat, cap: nat)
    ensures Cells(q, cap) == q * cap
  {
    if q > 0 {
      CellsIsProduct(q - 1, cap);
      assert (q - 1) * cap + cap == q * cap;
    }
  }

  /** The shape of a densely packed pool after k allocations: the number
      of full blocks and the number of cells used in the last block. */
  function Shape(k: nat, cap: nat): (nat, nat)
  {
    if k == 0 then (0, 0)
    else
      var prev := Shape(k - 1, cap);
      if prev.1 + 1 == cap then (prev.0 + 1, 0) else (prev.0, prev.1 + 1)
  }

  /** One more allocation on a packed pool gives the next packed pool. */
  lemma StepPacked(k: nat, cap: nat)
    requires 0 < k && 1 < cap && Shape(k - 1, cap).1 < cap
    ensures Claim(Packed(Shape(k - 1, cap).0, Shape(k - 1, cap).1, cap), cap).view
         == Packed(Shape(k, cap).0, Shape(k, cap).1, cap)
  {
    var q, m := Shape(k - 1, cap).0, Shape(k - 1, cap).1;
    if m == 0 {
      ClaimFullPool(q, cap);
    } else if m + 1 == cap {
      ClaimLastCell(q, m, cap);
    } else {
      ClaimInLastBlock(q, m, cap);
    }
  }

  /** The shape accounts for every allocation: q full blocks of cap cells
      and m < cap cells in the last one. */
  lemma {:induction false} ShapeCounts(k: nat, cap: nat)
    requires 1 < cap
    ensures k == Cells(Shape(k, cap).0, cap) + Shape(k, cap).1 && Shape(k, cap).1 < cap
  {
    if k > 0 {
      ShapeCounts(k - 1, cap);
    }
  }

  /** With no deallocation, k allocations pack the cells densely: all
      blocks but the last are full, and the last holds the remainder. */
  lemma {:induction false} AllocateManyPacked(k: nat, cap: nat)
    requires 1 < cap
    ensures AllocateMany(k, cap) == Packed(Shape(k, cap).0, Shape(k, cap).1, cap)
  {
    if k > 0 {
      AllocateManyPacked(k - 1, cap);
      ShapeCounts(k - 1, cap);
      StepPacked(k, cap);
    }
  }

  /** A packed pool holding k cells has ceil(k / cap) blocks. */
  lemma PackedLength(q: nat, m: nat, cap: nat, k: nat)
    requires 1 < cap && m < cap && k == Cells(q, cap) + m
    ensures var n := |Packed(q, m, cap)|;
      && (k == 0 <==> n == 0)
      && (k > 0 ==> (n - 1) * cap < k <= n * cap)
  {
    CellsIsProduct(q, cap);
    if m == 0 {
      assert |Packed(q, m, cap)| == q;
      assert (q - 1) * cap == q * cap - cap;
    } else {
      assert |Packed(q, m, cap)| == q + 1;
      assert (q + 1) * cap == q * cap + cap;
    }
  }

  /** With no deallocation, k allocations leave ceil(k / cap) blocks: the
      least n with k <= n * cap. */
  lemma BlockCount(k: nat, cap: nat)
    requires 1 < cap
    ensures var n := |AllocateMany(k, cap)|;
      && (k == 0 <==> n == 0)
      && (k > 0 ==> (n - 1) * cap < k <= n * cap)
  {
    AllocateManyPacked(k, cap);
    ShapeCounts(k, cap);
    PackedLength(Shape(k, cap).0, Shape(k, cap).1, cap, k);
  }
}
