/** The block reclamation strategies of the chunk allocator
    (src/chunk_allocator.h, memory_strategy and the remove_block functor):
    what happens to the pool when a block is to be dropped. The pool is
    modelled as a sequence of block handles compared by identity. */
module Reclaim {
  import opened Wrappers

  datatype MemoryStrategy = NONE | LIFO | FIFO

  /** Index of the first entry equal to x, scanning from the front. */
  function FirstIndex<B(==)>(s: seq<B>, x: B): (r: Option<nat>)
    ensures r.None? <==> x !in s
    ensures r.Some? ==> r.value < |s| && s[r.value] == x && x !in s[..r.value]
  {
    if |s| == 0 then None
    else if s[0] == x then Some(0)
    else match FirstIndex(s[1..], x)
         case None => None
         case Some(k) =>
           assert s[..k + 1] == [s[0]] + s[1..][..k];
           Some(k + 1)
  }

  /** Index of the first entry equal to x, scanning from the back. */
  function LastIndex<B(==)>(s: seq<B>, x: B): (r: Option<nat>)
    ensures r.None? <==> x !in s
    ensures r.Some? ==> r.value < |s| && s[r.value] == x && x !in s[r.value + 1..]
  {
    if |s| == 0 then None
    else if s[|s| - 1] == x then Some(|s| - 1)
    else
      var r := LastIndex(s[..|s| - 1], x);
      assert r.Some? ==> s[r.value + 1..] == s[..|s| - 1][r.value + 1..] + [s[|s| - 1]];
      r
  }

  /** The list with the entry at index k erased, the others kept in order. */
  function EraseAt<B>(s: seq<B>, k: nat): (r: seq<B>)
    requires k < |s|
  {
    s[..k] + s[k + 1..]
  }

  /** What each strategy leaves in the pool after asked to drop `ptr`. */
  function Removed<B(==)>(strategy: MemoryStrategy, list: seq<B>, ptr: B): seq<B>
  {
    match strategy
    case NONE => list
    case LIFO => (match FirstIndex(list, ptr) case None => list case Some(k) => EraseAt(list, k))
    case FIFO => (match LastIndex(list, ptr) case None => list case Some(k) => EraseAt(list, k))
  }

  /** The entries of a pool are pairwise distinct. */
  predicate Distinct<B(==)>(s: seq<B>)
  {
    forall i, j :: 0 <= i < j < |s| ==> s[i] != s[j]
  }

  /** LIFO: scan from the front, erase the first entry equal to `ptr`. */
  method RemoveFromFront<B(==)>(list: seq<B>, ptr: B) returns (r: seq<B>)
    ensures r == Removed(LIFO, list, ptr)
  {
    r := list;
    var i := 0;
    while i < |list|
      invariant 0 <= i <= |list|
      invariant ptr !in list[..i]
    {
      if list[i] == ptr {
        r := list[..i] + list[i + 1..];
        FirstIndexIs(list, ptr, i);
        return;
      }
      assert list[..i + 1] == list[..i] + [list[i]];
      i := i + 1;
    }
    assert list[..i] == list;
  }

  /** FIFO: scan from the back, erase the first entry equal to `ptr`. */
  method RemoveFromBack<B(==)>(list: seq<B>, ptr: B) returns (r: seq<B>)
    ensures r == Removed(FIFO, list, ptr)
  {
    r := list;
    var i := |list|;
    while i > 0
      invariant 0 <= i <= |list|
      invariant ptr !in list[i..]
    {
      if list[i - 1] == ptr {
        r := list[..i - 1] + list[i..];
        LastIndexIs(list, ptr, i - 1);
        return;
      }
      assert list[i - 1..] == [list[i - 1]] + list[i..];
      i := i - 1;
    }
    assert list[i..] == list;
  }

  /** The strategy functor: NONE does nothing, LIFO and FIFO erase by identity. */
  method RemoveBlock<B(==)>(strategy: MemoryStrategy, list: seq<B>, ptr: B) returns (r: seq<B>)
    ensures r == Removed(strategy, list, ptr)
  {
    match strategy
    case NONE =>
      r := list;
    case LIFO =>
      r := RemoveFromFront(list, ptr);
    case FIFO =>
      r := RemoveFromBack(list, ptr);
  }

  /** The two conditions of FirstIndex's contract single out its answer. */
  lemma {:induction false} FirstIndexIs<B>(s: seq<B>, x: B, k: nat)
    requires k < |s| && s[k] == x && x !in s[..k]
    ensures FirstIndex(s, x) == Some(k)
  {
    if k > 0 {
      assert s[..k][0] == s[0];
      assert s[1..][..k - 1] == s[..k][1..];
      FirstIndexIs(s[1..], x, k - 1);
    }
  }

  /** The two conditions of LastIndex's contract single out its answer. */
  lemma {:induction false} LastIndexIs<B>(s: seq<B>, x: B, k: nat)
    requires k < |s| && s[k] == x && x !in s[k + 1..]
    ensures LastIndex(s, x) == Some(k)
  {
    if k < |s| - 1 {
      assert s[k + 1..][|s| - k - 2] == s[|s| - 1];
      assert s[..|s| - 1][k + 1..] == s[k + 1..|s| - 1];
      LastIndexIs(s[..|s| - 1], x, k);
    }
  }

  /** Removal by any strategy keeps every other entry and their order:
      the result is the pool with the one occurrence of `ptr` a reclaiming
      strategy finds erased, and the pool itself otherwise. */
  lemma RemovedKeepsOrder<B>(strategy: MemoryStrategy, list: seq<B>, ptr: B)
    ensures var r := Removed(strategy, list, ptr);
      && (strategy == NONE || ptr !in list ==> r == list)
      && (strategy != NONE && ptr in list ==>
            exists k :: 0 <= k < |list| && list[k] == ptr && r == list[..k] + list[k + 1..])
  {
    if strategy != NONE && ptr in list {
      var k := if strategy == LIFO then FirstIndex(list, ptr).value else LastIndex(list, ptr).value;
      assert Removed(strategy, list, ptr) == list[..k] + list[k + 1..];
    }
  }

  /** Erasing the entry at k takes exactly that one copy out of the list. */
  lemma EraseAtOneCopy<B>(list: seq<B>, k: nat)
    requires k < |list|
    ensures multiset(list) == multiset(EraseAt(list, k)) + multiset{list[k]}
  {
    assert list == list[..k] + [list[k]] + list[k + 1..];
  }

  /** A reclaiming strategy that finds `ptr` takes exactly one copy of it
      out of the pool. */
  lemma RemovedOneCopy<B>(strategy: MemoryStrategy, list: seq<B>, ptr: B)
    requires strategy != NONE && ptr in list
    ensures multiset(list) == multiset(Removed(strategy, list, ptr)) + multiset{ptr}
  {
    var k := if strategy == LIFO then FirstIndex(list, ptr).value else LastIndex(list, ptr).value;
    EraseAtOneCopy(list, k);
  }

  /** In a pool of distinct blocks the front and back scans meet the same
      entry, so LIFO and FIFO remove the same block. */
  lemma {:induction false} LifoFifoAgree<B>(list: seq<B>, ptr: B)
    requires Distinct(list)
    ensures Removed(LIFO, list, ptr) == Removed(FIFO, list, ptr)
    ensures ptr !in Removed(LIFO, list, ptr)
  {
    if ptr in list {
      var k := FirstIndex(list, ptr).value;
      var l := LastIndex(list, ptr).value;
      assert k == l;
      var r := list[..k] + list[k + 1..];
      forall i | 0 <= i < |r|
        ensures r[i] != ptr
      {
        if i < k {
          assert r[i] == list[i];
        } else {
          assert r[i] == list[i + 1];
        }
      }
    }
  }
}
