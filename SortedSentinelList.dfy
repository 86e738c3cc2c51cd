/** `SortedDLL` of lib/DLL/sorted-sentinel.js: a doubly linked ring closed
    through one sentinel that keeps its values in ascending order. The
    comparator is the default `(a, b) => a - b` on integers, so "greater
    than 0" is `>`. There is no size counter. */
module SortedSentinelList {
  import opened Options
  import opened Seqs
  import opened Nodes

  class SortedDLL {
    var head: DNode
    var tail: DNode
    /** The nodes from `head.next` round to `tail.prev`, sentinel excluded. */
    ghost var nodes: seq<DNode>

    /** One sentinel closes the ring, and the values ascend. */
    ghost predicate Valid()
      reads this, head, nodes
    {
      tail == head && RingOf(head, nodes) && Sorted(Values())
    }

    /** What the iterator yields, from `head.next` round to the sentinel. */
    ghost function Values(): seq<int>
      reads this
    {
      DValues(nodes)
    }

    /** The constructor runs `reset`. The sentinel's value is never read. */
    constructor ()
      ensures Valid() && nodes == [] && fresh(head)
    {
      var sentinel := new DNode(0, null, null);
      sentinel.next, sentinel.prev := sentinel, sentinel;
      head, tail := sentinel, sentinel;
      nodes := [];
    }

    /** A fresh self-linked sentinel: the empty ring. */
    method Reset()
      modifies this
      ensures Valid() && nodes == [] && fresh(head)
      ensures head.next == head && head.prev == head
    {
      var sentinel := new DNode(0, null, null);
      sentinel.next, sentinel.prev := sentinel, sentinel;
      head, tail := sentinel, sentinel;
      nodes := [];
    }

    /** Places `value` just before the first node holding a greater value,
        or at the end when there is none, so it follows every equal value. */
    method Insert(value: int) returns (node: DNode)
      requires Valid()
      modifies this, head, nodes
      ensures Valid() && head == old(head) && fresh(node)
      ensures nodes == InsertAt(old(nodes), UpperBound(old(Values()), value), node)
      ensures Values() == InsertAt(old(Values()), UpperBound(old(Values()), value), value)
    {
      node := new DNode(value, null, null);
      if head.next == head {
        node.next, node.prev := tail, head;
        Place(node, head, tail, 0);
        return;
      }
      var slow := head.next;
      ghost var k := 0;
      while slow != head
        invariant k <= |nodes| && slow == if k < |nodes| then nodes[k] else head
        invariant forall j :: 0 <= j < k ==> Values()[j] <= value
        decreases |nodes| - k
      {
        if slow.value > value {
          UpperBoundAt(Values(), value, k);
          node.next, node.prev := slow, slow.prev;
          Place(node, slow.prev, slow, k);
          return;
        }
        slow := slow.next;
        k := k + 1;
      }
      UpperBoundAt(Values(), value, k);
      node.prev, node.next := tail.prev, tail;
      Place(node, tail.prev, tail, k);
    }

    /** The two writes of each branch of `insert` that point the
        neighbours at the new node, whose own links already point at `prev`
        and `next`: the node lands at the upper bound of its value. */
    method Place(node: DNode, prev: DNode, next: DNode, ghost i: nat)
      requires Valid() && node !in nodes && node != head
      requires i == UpperBound(Values(), node.value)
      requires prev == (if i == 0 then head else nodes[i - 1])
      requires next == (if i == |nodes| then head else nodes[i])
      requires node.prev == prev && node.next == next
      modifies this, prev, next
      ensures Valid() && head == old(head)
      ensures nodes == InsertAt(old(nodes), i, node)
      ensures Values() == InsertAt(old(Values()), i, node.value)
    {
      LinkIn(head, nodes, node, prev, next, i);
      InsertSorted(Values(), node.value);
      DValuesInsertAt(nodes, i, node);
      nodes := InsertAt(nodes, i, node);
    }

    /** Removes the last (greatest) value and returns it; the node keeps its
        links. Nothing on an empty ring. */
    method Pop() returns (r: Option<int>)
      requires Valid()
      modifies this, head, nodes
      ensures Valid() && head == old(head)
      ensures old(nodes) == [] ==> r == None && nodes == []
      ensures old(nodes) != [] ==> r == Some(old(Values())[|old(Values())| - 1])
      ensures old(nodes) != [] ==> nodes == old(nodes)[..|old(nodes)| - 1]
      ensures old(nodes) != [] ==> old(nodes)[|old(nodes)| - 1].prev == old(nodes[|nodes| - 1].prev)
      ensures old(nodes) != [] ==> old(nodes)[|old(nodes)| - 1].next == old(nodes[|nodes| - 1].next)
    {
      if head.next == head {
        return None;
      }
      var node := tail.prev;
      Take(node, |nodes| - 1);
      r := Some(node.value);
    }

    /** Removes the first (least) value and returns it; the node keeps its
        links. Nothing on an empty ring. */
    method Shift() returns (r: Option<int>)
      requires Valid()
      modifies this, head, nodes
      ensures Valid() && head == old(head)
      ensures old(nodes) == [] ==> r == None && nodes == []
      ensures old(nodes) != [] ==> r == Some(old(Values())[0])
      ensures old(nodes) != [] ==> nodes == old(nodes)[1..]
      ensures old(nodes) != [] ==> old(nodes)[0].prev == old(nodes[0].prev)
      ensures old(nodes) != [] ==> old(nodes)[0].next == old(nodes[0].next)
    {
      if head.next == head {
        return None;
      }
      var node := head.next;
      Take(node, 0);
      r := Some(node.value);
    }

    /** Joins the neighbours of the node at position `i`; the node keeps
        its own links. */
    method Take(node: DNode, ghost i: nat)
      requires Valid() && i < |nodes| && node == nodes[i]
      modifies this, node.prev, node.next
      ensures Valid() && head == old(head)
      ensures nodes == RemoveAt(old(nodes), i) && node !in nodes
      ensures Values() == RemoveAt(old(Values()), i)
      ensures node.prev == old(node.prev) && node.next == old(node.next)
    {
      LinkOut(head, nodes, node, i);
      SortedRemoveAt(Values(), i);
      DValuesRemoveAt(nodes, i);
      DistinctRemoveAt(nodes, i);
      nodes := RemoveAt(nodes, i);
    }

    /** Unlinks the first node holding `value` and clears its links; false,
        with nothing changed, when there is none. */
    method Delete(value: int) returns (deleted: bool)
      requires Valid()
      modifies this, head, nodes
      ensures Valid() && head == old(head)
      ensures deleted <==> value in old(Values())
      ensures !deleted ==> nodes == old(nodes)
      ensures deleted ==> nodes == RemoveAt(old(nodes), IndexOf(old(Values()), value))
      ensures deleted ==> Values() == RemoveAt(old(Values()), IndexOf(old(Values()), value))
      ensures deleted ==> old(nodes)[IndexOf(old(Values()), value)].prev == null
      ensures deleted ==> old(nodes)[IndexOf(old(Values()), value)].next == null
    {
      if head.next == head {
        return false;
      }
      var node := Find(value);
      if node == null {
        return false;
      }
      Take(node, IndexOf(Values(), value));
      node.next := null;
      node.prev := null;
      return true;
    }

    /** Whether some node holds `value`. */
    method Has(value: int) returns (b: bool)
      requires Valid()
      ensures b <==> value in Values()
    {
      var node := Find(value);
      b := node != null;
    }

    /** The first node in ascending order holding `value`, or null. */
    method Find(value: int) returns (r: DNode?)
      requires Valid()
      ensures r == null <==> value !in Values()
      ensures r != null ==> r == nodes[IndexOf(Values(), value)]
    {
      var slow := head.next;
      ghost var k := 0;
      while slow != head
        invariant k <= |nodes| && slow == if k < |nodes| then nodes[k] else head
        invariant value !in Values()[..k]
        decreases |nodes| - k
      {
        if slow.value == value {
          IndexOfFirst(Values(), value, k);
          return slow;
        }
        assert Values()[..k + 1] == Values()[..k] + [slow.value];
        slow := slow.next;
        k := k + 1;
      }
      assert Values()[..k] == Values();
      return null;
    }

    /** The values `forward` hands to its callback, in the order it calls
        it: head to tail, so they ascend. */
    method Forward() returns (visited: seq<int>)
      requires Valid()
      ensures visited == Values() && Sorted(visited)
    {
      var slow := head.next;
      visited := [];
      while slow != head
        invariant |visited| <= |nodes|
        invariant slow == if |visited| < |nodes| then nodes[|visited|] else head
        invariant visited == Values()[..|visited|]
        decreases |nodes| - |visited|
      {
        visited := visited + [slow.value];
        slow := slow.next;
      }
    }

    /** The values `backward` hands to its callback, in the order it calls
        it: tail to head, so they never increase. */
    method Backward() returns (visited: seq<int>)
      requires Valid()
      ensures visited == Reversed(Values())
      ensures forall i, j :: 0 <= i < j < |visited| ==> visited[i] >= visited[j]
    {
      SortedReversed(Values());
      var slow := tail.prev;
      visited := [];
      while slow != tail
        invariant |visited| <= |nodes|
        invariant slow == if |visited| < |nodes| then nodes[|nodes| - 1 - |visited|] else head
        invariant visited == Reversed(Values())[..|visited|]
        decreases |nodes| - |visited|
      {
        visited := visited + [slow.value];
        slow := slow.prev;
      }
    }
  }
}
