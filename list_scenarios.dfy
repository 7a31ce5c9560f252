/** The client scenarios of tests/test.cpp, stated against the model as
    methods whose postconditions are proved: the
    allocator's error cases, and lists over the chunk allocator filled by
    push_front and by chained insert_after, read back through iterators. */
module ListScenarios {
  import opened Wrappers
  import opened Blocks
  import opened Reclaim
  import opened Allocation
  import opened Lists
  import opened AppLib

  /** `allocate(1)` on a fresh allocator succeeds, and handing the cell
      back with `deallocate(p, 1)` is accepted. */
  method AllocateAndFree() returns (granted: bool, freed: Outcome<AllocError>)
    ensures granted && freed == Pass
  {
    var a := new ChunkAllocator(2, NONE);
    var r := a.Allocate(1);
    granted := r.Success?;
    a.UsedInPool(r.value);
    freed := a.Deallocate(r.value, 1);
  }

  /** `allocate(2)` throws, and so does `deallocate(p, 2)` for a cell p
      from `allocate(1)`; both carry the single-cell message. */
  method CatchErrors() returns (first: Result<Cell, AllocError>, second: Outcome<AllocError>)
    ensures first == Failure(InvalidArgument(SingleCellOnly))
    ensures second == Fail(InvalidArgument(SingleCellOnly))
  {
    var a := new ChunkAllocator(2, NONE);
    first := a.Allocate(2);
    var p := a.Allocate(1);
    a.UsedInPool(p.value);
    second := a.Deallocate(p.value, 2);
  }

  /** A new list is empty and its begin() equals its end(). */
  method NewListIsEmpty() returns (empty: bool, beginIsEnd: bool)
    ensures empty && beginIsEnd
  {
    var list := new LinkedList<int>(2, NONE);
    empty := list.IsEmpty();
    var b := list.Begin();
    var e := list.End();
    beginIsEnd := b.Equals(e);
  }

  /** n - 1, n - 2, ..., 0. */
  function Countdown(n: nat): (r: seq<int>)
    ensures |r| == n && forall k :: 0 <= k < n ==> r[k] == n - 1 - k
  {
    seq(n, k => n - 1 - k)
  }

  lemma CountdownPush(n: nat)
    ensures [n] + Countdown(n) == Countdown(n + 1)
  {
    assert forall k :: 0 <= k < n + 1 ==> ([n] + Countdown(n))[k] == Countdown(n + 1)[k];
  }

  /** Pushing 0..9 at the front of a list over the chunk allocator, then
      iterating from begin() to end(), visits 9, 8, ..., 0. */
  method PushTenIterate(strategy: MemoryStrategy) returns (visited: seq<int>)
    ensures visited == [9, 8, 7, 6, 5, 4, 3, 2, 1, 0]
  {
    var list := new LinkedList<int>(2, strategy);
    var i := 0;
    while i < 10
      invariant 0 <= i <= 10 && list.Valid() && list.Contents == Countdown(i)
      invariant fresh(list.alloc) && fresh(list.alloc.bitsets)
    {
      CountdownPush(i);
      list.PushFront(i);
      i := i + 1;
    }
    visited := list.Traverse();
  }

  /** Pushing 1 ten times, then `front() = 2`: the list reads 2 followed by
      nine 1s. */
  method AssignFront(strategy: MemoryStrategy) returns (visited: seq<int>)
    ensures visited == [2, 1, 1, 1, 1, 1, 1, 1, 1, 1]
  {
    var list := new LinkedList<int>(2, strategy);
    var i := 0;
    while i < 10
      invariant 0 <= i <= 10 && list.Valid() && list.Contents == seq(i, _ => 1)
      invariant fresh(list.alloc) && fresh(list.alloc.bitsets) && fresh(list.Repr)
    {
      assert [1] + seq(i, _ => 1) == seq(i + 1, _ => 1);
      list.PushFront(1);
      i := i + 1;
    }
    list.SetFront(2);
    visited := list.Traverse();
  }

  /** A span extended by its next integer. */
  lemma SpanSnoc(lo: int, hi: int)
    requires lo <= hi
    ensures Span(lo, hi) + [hi] == Span(lo, hi + 1)
  {
    assert forall k :: 0 <= k <= hi - lo ==> (Span(lo, hi) + [hi])[k] == Span(lo, hi + 1)[k];
  }

  /** One turn of the test's loop, `it = insert_after(it, i)`: it points at
      the last node, so i lands at the end, and the returned iterator points
      at the new last node. */
  method ChainStep(list: LinkedList<int>, it: ListIterator<int>, i: nat) returns (next: ListIterator<int>)
    requires list.Valid() && list.Contents == Span(0, i)
    requires 0 < i ==> it.node == list.Nodes[i - 1]
    modifies list, list.Repr, list.alloc, list.alloc.bitsets
    ensures list.Valid() && list.Contents == Span(0, i + 1) && next.node == list.Nodes[i]
    ensures list.Repr == old(list.Repr) + {next.node} && fresh(next.node)
    ensures old(list.alloc.bitsets) <= list.alloc.bitsets
    ensures fresh(list.alloc.bitsets - old(list.alloc.bitsets))
  {
    if 0 < i {
      DistinctCells(list.Nodes);
      IndexOfDistinct(list.Nodes, i - 1);
      InsertedAfterLast(list.Contents, i);
    }
    SpanSnoc(0, i);
    next := list.InsertAfter(it, i);
  }

  /** `it = insert_after(it, i)` for i = 0..19, starting from begin() of an
      empty list: each value lands after the previous one, so the list
      reads 0, 1, ..., 19 whatever the allocator's strategy. */
  method InsertAfterChain(strategy: MemoryStrategy) returns (visited: seq<int>)
    ensures visited == Span(0, 20)
  {
    var list := new LinkedList<int>(2, strategy);
    var it := list.Begin();
    var i := 0;
    while i < 20
      invariant 0 <= i <= 20 && list.Valid() && list.Contents == Span(0, i)
      invariant 0 < i ==> it.node == list.Nodes[i - 1]
      invariant fresh(list.alloc) && fresh(list.alloc.bitsets) && fresh(list.Repr)
    {
      it := ChainStep(list, it, i);
      i := i + 1;
    }
    visited := list.Traverse();
  }
}
