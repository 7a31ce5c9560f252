/** The forward linked list of src/linked_list.h over the chunk allocator:
    heap nodes {value, next} reached from `head_`, each living in a cell the
    list's own allocator handed out. */
module Lists {
  import opened Blocks
  import opened Reclaim
  import opened Allocation

  /** The values after splicing v in right after position i: the values up
      to i, then v, then the rest, and nothing gained or lost but v. */
  function InsertedAfter<T>(s: seq<T>, i: nat, v: T): (r: seq<T>)
    requires i < |s|
    ensures |r| == |s| + 1 && r[i + 1] == v
    ensures forall k :: 0 <= k <= i ==> r[k] == s[k]
    ensures forall k :: i + 1 < k < |r| ==> r[k] == s[k - 1]
    ensures multiset(r) == multiset(s) + multiset{v}
  {
    assert s == s[..i + 1] + s[i + 1..];
    s[..i + 1] + [v] + s[i + 1..]
  }

  /** Inserting after the last position appends. */
  lemma InsertedAfterLast<T>(s: seq<T>, v: T)
    requires 0 < |s|
    ensures InsertedAfter(s, |s| - 1, v) == s + [v]
  {
    var r := InsertedAfter(s, |s| - 1, v);
    assert forall k :: 0 <= k < |r| ==> r[k] == (s + [v])[k];
  }

  /** The position of the first occurrence of x in s. */
  function IndexOf<T(==)>(s: seq<T>, x: T): (r: nat)
    requires x in s
    ensures r < |s| && s[r] == x
    ensures forall k :: 0 <= k < r ==> s[k] != x
  {
    if s[0] == x then 0 else 1 + IndexOf(s[1..], x)
  }

  /** In a sequence of distinct values, each value's position is its index. */
  lemma IndexOfDistinct<T>(s: seq<T>, k: nat)
    requires Distinct(s) && k < |s|
    ensures IndexOf(s, s[k]) == k
  {
  }

  /** A value new to a sequence of distinct values keeps it distinct
      wherever it is spliced in. */
  lemma DistinctAfterInsert<T>(s: seq<T>, i: nat, v: T)
    requires Distinct(s) && v !in s && i < |s|
    ensures Distinct(InsertedAfter(s, i, v))
  {
    var r := InsertedAfter(s, i, v);
    forall a, b | 0 <= a < b < |r|
      ensures r[a] != r[b]
    {
      if a == i + 1 {
        assert r[b] == s[b - 1];
      } else if b == i + 1 {
        assert r[a] == s[a];
      }
    }
  }

  /** A value new to a sequence of distinct values keeps it distinct when
      put in front. */
  lemma DistinctPush<T>(v: T, s: seq<T>)
    requires Distinct(s) && v !in s
    ensures Distinct([v] + s)
  {
    forall a, b | 0 <= a < b < |s| + 1
      ensures ([v] + s)[a] != ([v] + s)[b]
    {
      assert ([v] + s)[b] == s[b - 1];
      if 0 < a {
        assert ([v] + s)[a] == s[a - 1];
      }
    }
  }

  /** The head of a sequence of distinct values is not in its tail, which
      stays distinct. */
  lemma DistinctTail<T>(s: seq<T>)
    requires Distinct(s) && 0 < |s|
    ensures s[0] !in s[1..] && Distinct(s[1..])
  {
    assert forall k :: 0 <= k < |s| - 1 ==> s[1..][k] == s[k + 1];
  }

  /** The values of s + [x] are those of s and x. */
  lemma ValuesOfAppend<T>(s: seq<T>, x: T)
    ensures (set y | y in s + [x]) == (set y | y in s) + {x}
  {
    assert forall y :: y in s + [x] <==> y in s || y == x;
  }

  /** Moving the front of the rest onto the end of the prefix keeps the whole. */
  lemma ShiftFront<T>(prefix: seq<T>, x: T, rest: seq<T>)
    ensures prefix + ([x] + rest) == (prefix + [x]) + rest
  {
  }

  /** The cells holding the given nodes, in order. */
  ghost function CellsOf<T>(nodes: seq<ListNode<T>>): (r: seq<Cell>)
    ensures |r| == |nodes|
    ensures forall i :: 0 <= i < |nodes| ==> r[i] == nodes[i].cell
  {
    seq(|nodes|, i requires 0 <= i < |nodes| => nodes[i].cell)
  }

  /** Nodes in distinct cells are distinct nodes. */
  lemma DistinctCells<T>(nodes: seq<ListNode<T>>)
    requires Distinct(CellsOf(nodes))
    ensures Distinct(nodes)
  {
    forall a, b | 0 <= a < b < |nodes|
      ensures nodes[a] != nodes[b]
    {
      assert CellsOf(nodes)[a] != CellsOf(nodes)[b];
    }
  }

  /** The cells of a node sequence follow its pushes, splices and pops. */
  lemma CellsOfPush<T>(node: ListNode<T>, nodes: seq<ListNode<T>>)
    ensures CellsOf([node] + nodes) == [node.cell] + CellsOf(nodes)
  {
    assert forall k :: 0 <= k <= |nodes| ==> CellsOf([node] + nodes)[k] == ([node.cell] + CellsOf(nodes))[k];
  }

  lemma CellsOfInsert<T>(nodes: seq<ListNode<T>>, i: nat, node: ListNode<T>)
    requires i < |nodes|
    ensures CellsOf(InsertedAfter(nodes, i, node)) == InsertedAfter(CellsOf(nodes), i, node.cell)
  {
    var l, r := CellsOf(InsertedAfter(nodes, i, node)), InsertedAfter(CellsOf(nodes), i, node.cell);
    forall k | 0 <= k < |l|
      ensures l[k] == r[k]
    {
      if k > i + 1 {
        assert InsertedAfter(nodes, i, node)[k] == nodes[k - 1];
      }
    }
  }

  lemma CellsOfTail<T>(nodes: seq<ListNode<T>>)
    requires 0 < |nodes|
    ensures CellsOf(nodes[1..]) == CellsOf(nodes)[1..]
  {
    assert forall k :: 0 <= k < |nodes| - 1 ==> CellsOf(nodes[1..])[k] == CellsOf(nodes)[1..][k];
  }

  /** `struct node`: a value and the next node, stored in an allocator cell. */
  class ListNode<T> {
    var value: T
    var next: ListNode?<T>
    /** The cell of the list's allocator that holds this node. */
    const cell: Cell

    /** The node make_node builds in a fresh cell: next is null and the
        value is constructed in place. */
    constructor (cell: Cell, value: T)
      ensures this.cell == cell && this.value == value && next == null
    {
      this.cell := cell;
      next := null;
      this.value := value;
    }
  }

  /** `linked_list::iterator`: the node it points at; null is end(). */
  class ListIterator<T> {
    var node: ListNode?<T>

    constructor (node: ListNode?<T>)
      ensures this.node == node
    {
      this.node := node;
    }

    /** `operator==`: true for the same iterator object, otherwise iff both
        point at the same node; so always iff they point at the same node. */
    method Equals(other: ListIterator<T>) returns (r: bool)
      ensures r <==> node == other.node
    {
      if this == other {
        return true;
      }
      return node == other.node;
    }

    /** `operator!=`: the negation of `operator==`. */
    method NotEquals(other: ListIterator<T>) returns (r: bool)
      ensures r <==> node != other.node
    {
      var eq := Equals(other);
      return !eq;
    }

    /** `operator++`: moves to the next node. */
    method Increment()
      requires node != null
      modifies this
      ensures node == old(node.next)
    {
      node := node.next;
    }

    /** `operator*`: the value of the node pointed at. */
    method Value() returns (v: T)
      requires node != null
      ensures v == node.value
    {
      v := node.value;
    }
  }

  class LinkedList<T> {
    /** `head_`: the first node, or null for an empty list. */
    var head: ListNode?<T>
    /** `alloc_`: the list's own allocator instance, rebound to nodes. */
    const alloc: ChunkAllocator
    /** The values, head first. */
    ghost var Contents: seq<T>
    /** The nodes, head first. */
    ghost var Nodes: seq<ListNode<T>>
    /** The nodes the list owns. */
    ghost var Repr: set<ListNode<T>>

    /** The list is linked as Linked says, over cells as Owned says, of a
        valid allocator. */
    ghost predicate Valid()
      reads this, Repr, alloc, alloc.memories, alloc.bitsets
    {
      alloc.Valid() && Linked() && Owned()
    }

    /** Nodes[i] holds Contents[i] and links to Nodes[i + 1], the last one to
        null; the head is the first node. */
    ghost predicate Linked()
      reads this, Repr
    {
      && |Nodes| == |Contents|
      && head == (if |Nodes| == 0 then null else Nodes[0])
      && (forall i :: 0 <= i < |Nodes| ==> Nodes[i] in Repr)
      && (forall i :: 0 <= i < |Nodes| ==> Nodes[i].value == Contents[i])
      && (forall i {:trigger Nodes[i].next} :: 0 <= i < |Nodes| ==> Nodes[i].next == if i + 1 < |Nodes| then Nodes[i + 1] else null)
    }

    /** Every node sits in its own cell, one the allocator handed out. */
    ghost predicate Owned()
      reads this, alloc
    {
      && Distinct(CellsOf(Nodes))
      && forall c :: c in CellsOf(Nodes) ==> c in alloc.Used()
    }

    /** A new list is empty and owns a fresh allocator with no cell in use. */
    constructor (size: nat, strategy: MemoryStrategy)
      requires 1 < size
      ensures Valid() && fresh(alloc) && alloc.size == size && alloc.strategy == strategy
      ensures Contents == [] && head == null && Repr == {}
      ensures alloc.Used() == {} && alloc.bitsets == {}
    {
      head := null;
      alloc := new ChunkAllocator(size, strategy);
      Contents, Nodes, Repr := [], [], {};
    }

    /** Requests exactly one cell and builds a node in it, with next null. */
    method MakeNode(v: T) returns (node: ListNode<T>)
      requires Valid()
      modifies alloc, alloc.bitsets
      ensures Valid() && fresh(node) && node.value == v && node.next == null
      ensures alloc.Used() == old(alloc.Used()) + {node.cell} && node.cell !in old(alloc.Used())
      ensures old(alloc.bitsets) <= alloc.bitsets && fresh(alloc.bitsets - old(alloc.bitsets))
    {
      var r := alloc.Allocate(1);
      node := new ListNode(r.value, v);
    }

    /** Puts v in front: the contents s become [v] + s. */
    method PushFront(v: T)
      requires Valid()
      modifies this, alloc, alloc.bitsets
      ensures Valid()
      ensures Contents == [v] + old(Contents)
      ensures |Nodes| == |old(Nodes)| + 1 && Nodes[1..] == old(Nodes) && fresh(Nodes[0])
      ensures Repr == old(Repr) + {Nodes[0]}
      ensures alloc.Used() == old(alloc.Used()) + {Nodes[0].cell} && Nodes[0].cell !in old(alloc.Used())
      ensures old(alloc.bitsets) <= alloc.bitsets && fresh(alloc.bitsets - old(alloc.bitsets))
    {
      ghost var cells := CellsOf(Nodes);
      var node := MakeNode(v);
      assert node.cell !in cells;
      DistinctPush(node.cell, cells);
      CellsOfPush(node, Nodes);
      node.next := head;
      head := node;
      Contents, Nodes, Repr := [v] + Contents, [node] + Nodes, Repr + {node};
    }

    /** The relinking of insert_after on a non-empty list: node goes right
        after the node at index i, and the old successor follows it. */
    method Splice(pos: ListIterator<T>, node: ListNode<T>, ghost i: nat)
      requires Linked() && Owned() && i < |Nodes| && pos.node == Nodes[i]
      requires node !in Repr && node.cell !in CellsOf(Nodes) && node.cell in alloc.Used()
      modifies this, pos.node, node
      ensures Linked() && Owned() && head == old(head) && node.value == old(node.value)
      ensures Nodes == InsertedAfter(old(Nodes), i, node)
      ensures Contents == InsertedAfter(old(Contents), i, node.value)
      ensures Repr == old(Repr) + {node}
    {
      ghost var cells := CellsOf(Nodes);
      DistinctCells(Nodes);
      CellsOfInsert(Nodes, i, node);
      DistinctAfterInsert(cells, i, node.cell);
      var next := pos.node.next;
      pos.node.next := node;
      node.next := next;
      Contents := InsertedAfter(Contents, i, node.value);
      Nodes := InsertedAfter(Nodes, i, node);
      Repr := Repr + {node};
      forall k | 0 <= k < |Nodes|
        ensures Nodes[k] in Repr && Nodes[k].value == Contents[k]
        ensures Nodes[k].next == if k + 1 < |Nodes| then Nodes[k + 1] else null
      {
        if k < i {
          assert Nodes[k] == old(Nodes[k]) != old(Nodes[i]);
        } else if i + 1 < k {
          assert Nodes[k] == old(Nodes[k - 1]) != old(Nodes[i]);
        }
      }
      assert forall c :: c in CellsOf(Nodes) ==> c == node.cell || c in cells;
    }

    /** insert_after on an empty list: node becomes the head. */
    method AdoptFirst(node: ListNode<T>)
      requires Valid() && Contents == [] && node.next == null
      requires node !in Repr && node.cell in alloc.Used()
      modifies this
      ensures Valid() && Contents == [node.value] && Nodes == [node]
      ensures Repr == old(Repr) + {node}
    {
      head := node;
      Contents, Nodes, Repr := [node.value], [node], Repr + {node};
    }

    /** Splices v in right after the node pos points at and returns an
        iterator to the new node; on an empty list v becomes the only
        element and pos is ignored. */
    method InsertAfter(pos: ListIterator<T>, v: T) returns (it: ListIterator<T>)
      requires Valid()
      requires Contents != [] ==> pos.node in Nodes
      modifies this, Repr, alloc, alloc.bitsets
      ensures Valid() && fresh(it) && it.node != null && fresh(it.node)
      ensures old(Contents) == [] ==> Contents == [v] && it.node == Nodes[0]
      ensures old(Contents) != [] ==> var i := IndexOf(old(Nodes), pos.node);
        Contents == InsertedAfter(old(Contents), i, v) && it.node == Nodes[i + 1]
      ensures Repr == old(Repr) + {it.node}
      ensures alloc.Used() == old(alloc.Used()) + {it.node.cell} && it.node.cell !in old(alloc.Used())
      ensures old(alloc.bitsets) <= alloc.bitsets && fresh(alloc.bitsets - old(alloc.bitsets))
    {
      ghost var i := if Contents == [] then 0 else IndexOf(Nodes, pos.node);
      it := InsertAt(pos, v, i);
    }

    /** insert_after with the position of pos's node given as a ghost index. */
    method InsertAt(pos: ListIterator<T>, v: T, ghost i: nat) returns (it: ListIterator<T>)
      requires Valid()
      requires Contents != [] ==> i < |Nodes| && pos.node == Nodes[i]
      modifies this, Repr, alloc, alloc.bitsets
      ensures Valid() && fresh(it) && it.node != null && fresh(it.node)
      ensures old(Contents) == [] ==> Contents == [v] && it.node == Nodes[0]
      ensures old(Contents) != [] ==> 
        Contents == InsertedAfter(old(Contents), i, v) && it.node == Nodes[i + 1]
      ensures Repr == old(Repr) + {it.node}
      ensures alloc.Used() == old(alloc.Used()) + {it.node.cell} && it.node.cell !in old(alloc.Used())
      ensures old(alloc.bitsets) <= alloc.bitsets && fresh(alloc.bitsets - old(alloc.bitsets))
    {
      ghost var cells := CellsOf(Nodes);
      var node := MakeNode(v);
      assert node.cell !in cells;
      var empty := IsEmpty();
      if empty {
        AdoptFirst(node);
      } else {
        Splice(pos, node, i);
      }
      it := new ListIterator(node);
    }

    /** `front()` read: the first value. */
    method Front() returns (v: T)
      requires Valid() && Contents != []
      ensures v == Contents[0]
    {
      v := head.value;
    }

    /** `front() = v`: assigning through the reference front() returns
        changes the first value and nothing else. */
    method SetFront(v: T)
      requires Valid() && Contents != []
      modifies this, head
      ensures Valid() && Contents == old(Contents)[0 := v]
      ensures Nodes == old(Nodes) && Repr == old(Repr) && alloc.Used() == old(alloc.Used())
    {
      head.value := v;
      Contents := Contents[0 := v];
    }

    /** `begin()`: an iterator to the head node (null when empty). */
    method Begin() returns (it: ListIterator<T>)
      requires Valid()
      ensures fresh(it) && it.node == (if Contents == [] then null else Nodes[0])
    {
      it := new ListIterator(head);
    }

    /** `end()`: the null iterator. */
    method End() returns (it: ListIterator<T>)
      ensures fresh(it) && it.node == null
    {
      it := new ListIterator(null);
    }

    /** `empty()`: the head is null. */
    method IsEmpty() returns (r: bool)
      requires Valid()
      ensures r <==> Contents == []
    {
      return head == null;
    }

    /** A client's `for (it = begin(); it != end(); ++it)` loop reading `*it`:
        it visits exactly the values, in list order. */
    method Traverse() returns (visited: seq<T>)
      requires Valid()
      ensures visited == Contents
    {
      visited := [];
      var it := Begin();
      var end := End();
      ghost var k := 0;
      var more := it.NotEquals(end);
      while more
        invariant 0 <= k <= |Nodes|
        invariant it.node == if k < |Nodes| then Nodes[k] else null
        invariant end.node == null
        invariant more <==> k < |Nodes|
        invariant visited == Contents[..k]
        decreases |Nodes| - k
      {
        var v := it.Value();
        visited := visited + [v];
        it.Increment();
        k := k + 1;
        more := it.NotEquals(end);
      }
    }

    /** `head_ = ptr` in the destructor: the head node leaves the list. */
    method DropHead(ptr: ListNode?<T>)
      requires Linked() && Nodes != [] && ptr == Nodes[0].next
      modifies this
      ensures Linked() && Nodes == old(Nodes[1..]) && Contents == old(Contents[1..])
      ensures Repr == old(Repr)
    {
      head := ptr;
      Contents, Nodes := Contents[1..], Nodes[1..];
    }

    /** One turn of the destructor's loop: the head node's cell goes back
        to the allocator and the head moves on to the next node. */
    method FreeHead() returns (ghost c: Cell)
      requires Valid() && head != null
      modifies this, alloc, alloc.bitsets
      ensures Valid() && alloc.bitsets == old(alloc.bitsets)
      ensures Nodes == old(Nodes[1..]) && CellsOf(old(Nodes)) == [c] + CellsOf(Nodes)
      ensures alloc.Used() == old(alloc.Used()) - {c}
    {
      var ptr := head.next;
      var cell := head.cell;
      c := cell;
      ghost var cells := CellsOf(Nodes);
      DistinctTail(cells);
      CellsOfTail(Nodes);
      alloc.UsedInPool(cell);
      var _ := alloc.Deallocate(cell, 1);
      DropHead(ptr);
      assert forall x :: x in CellsOf(Nodes) ==> x in alloc.Used();
    }

    /** The destructor: walks from the head, giving each node's cell back to
        the allocator, until the head is null; `freed` logs the cells given
        back, which are the list's cells, each once, head first. */
    method Destroy() returns (ghost freed: seq<Cell>)
      requires Valid()
      modifies this, alloc, alloc.bitsets
      ensures Valid() && Contents == [] && head == null
      ensures freed == CellsOf(old(Nodes)) && Distinct(freed)
      ensures alloc.Used() == old(alloc.Used()) - set c | c in freed
      ensures alloc.bitsets == old(alloc.bitsets)
    {
      freed := [];
      while head != null
        invariant Valid() && alloc.bitsets == old(alloc.bitsets)
        invariant CellsOf(old(Nodes)) == freed + CellsOf(Nodes)
        invariant alloc.Used() == old(alloc.Used()) - set c | c in freed
        decreases |Nodes|
      {
        var c := FreeHead();
        ShiftFront(freed, c, CellsOf(Nodes));
        ValuesOfAppend(freed, c);
        freed := freed + [c];
      }
    }
  }
}
