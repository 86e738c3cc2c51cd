/** `AdjustedSLL` of lib/SLL/adjusted/index.js: the self-adjusting singly
    linked list built on a sentinel whose `next` closes the chain into a
    ring. `search` moves the node it finds to just after the sentinel. */
module AdjustedRingList {
  import opened Options
  import opened Seqs
  import opened Nodes

  class AdjustedSLL {
    /** The sentinel. */
    var head: SNode
    /** The nodes from `head.next` round to the sentinel, sentinel excluded. */
    ghost var nodes: seq<SNode>

    /** The nodes are linked in order, the last back to the sentinel, and
        the sentinel's `next` is the first (itself when there is none). */
    ghost predicate Valid()
      reads this, head, nodes
    {
      head !in nodes && Distinct(nodes) && Linked(nodes, head) &&
      head.next == (if nodes == [] then head else nodes[0])
    }

    /** The values after the sentinel, in ring order. */
    ghost function Values(): seq<int>
      reads this
    {
      SValues(nodes)
    }

    /** The constructor runs `reset`. */
    constructor ()
      ensures Valid() && nodes == []
    {
      var sentinel := new SNode(0, null);
      sentinel.next := sentinel;
      head := sentinel;
      nodes := [];
    }

    /** A fresh sentinel linked to itself: the empty ring. Its value, null
        in the source, is never read as a list value (see `Shift`). */
    method Reset()
      modifies this
      ensures Valid() && nodes == [] && fresh(head)
    {
      var sentinel := new SNode(0, null);
      sentinel.next := sentinel;
      head := sentinel;
      nodes := [];
    }

    /** A new node holding `value` goes directly after the sentinel. */
    method Unshift(value: int) returns (node: SNode)
      requires Valid()
      modifies this, head
      ensures Valid() && fresh(node) && head == old(head)
      ensures nodes == [node] + old(nodes)
      ensures Values() == [value] + old(Values())
    {
      node := new SNode(value, head.next);
      head.next := node;
      nodes := [node] + nodes;
    }

    /** Unlinks the node after the sentinel and returns its value; the node
        keeps its `next`. On an empty ring that node is the sentinel itself,
        the write leaves the ring as it was, and the sentinel's null value
        comes back, which is `None` here. */
    method Shift() returns (r: Option<int>)
      requires Valid()
      modifies this, head
      ensures Valid() && head == old(head)
      ensures old(nodes) == [] ==> r == None && nodes == [] && head.next == head
      ensures old(nodes) != [] ==> r == Some(old(Values())[0]) && nodes == old(nodes)[1..]
      ensures old(nodes) != [] ==> old(nodes)[0].next == old(nodes[0].next)
    {
      var node := head.next;
      head.next := node.next;
      if node == head {
        return None;
      }
      nodes := nodes[1..];
      return Some(node.value);
    }

    /** Walks from the first node until the one whose `next` is `node` (the
        sentinel when `node` is first) and bypasses `node`, which keeps its
        own `next`. The source's `!== null` guard never fails on a ring, so
        the walk ends only at a node that is present: that is required. */
    method Delete(node: SNode)
      requires Valid() && node in nodes
      modifies this, head, nodes
      ensures Valid() && head == old(head)
      ensures nodes == RemoveAt(old(nodes), IndexOf(old(nodes), node))
      ensures Values() == RemoveAt(old(Values()), IndexOf(old(nodes), node))
      ensures node.next == old(node.next)
    {
      ghost var i := IndexOf(nodes, node);
      var pointer: SNode? := head.next;
      ghost var k := 0;
      while pointer != null
        invariant k <= |nodes| && pointer == (if k < |nodes| then nodes[k] else head)
        invariant 0 < i ==> k < i
        decreases |nodes| - k
      {
        if node == pointer.next {
          break;
        }
        pointer := pointer.next;
        k := k + 1;
      }
      assert pointer == (if i == 0 then head else nodes[i - 1]);
      SValuesRemoveAt(nodes, i);
      Bypass(pointer, node, i);
    }

    /** `pointer.next = node.next` with `pointer` the predecessor of the
        node at position `i` (the sentinel when `i` is 0). */
    method Bypass(prev: SNode, node: SNode, ghost i: nat)
      requires Valid() && i < |nodes| && node == nodes[i]
      requires prev == (if i == 0 then head else nodes[i - 1])
      modifies this, prev
      ensures Valid() && head == old(head) && nodes == RemoveAt(old(nodes), i)
      ensures node.next == old(node.next)
    {
      prev.next := node.next;
      LinkedRemoveAt(nodes, i, head);
      DistinctRemoveAt(nodes, i);
      nodes := RemoveAt(nodes, i);
    }

    /** Moves the first node holding `value` to just after the sentinel,
        the others keeping their order, and returns it. The `!== null`
        guard never fails on a ring, so a present value is required. */
    method Search(value: int) returns (node: SNode)
      requires Valid() && value in Values()
      modifies this, head, nodes
      ensures Valid() && head == old(head)
      ensures node == old(nodes)[IndexOf(old(Values()), value)]
      ensures nodes == MoveToFront(old(nodes), IndexOf(old(Values()), value))
      ensures Values() == MoveToFront(old(Values()), IndexOf(old(Values()), value))
    {
      ghost var i := IndexOf(Values(), value);
      var prev: SNode? := head;
      ghost var k := 0;
      while prev != null
        invariant k <= i && prev == (if k == 0 then head else nodes[k - 1])
        invariant value !in Values()[..k]
        decreases i - k
      {
        if prev.next.value == value {
          break;
        }
        assert Values()[..k + 1] == Values()[..k] + [Values()[k]];
        prev := prev.next;
        k := k + 1;
      }
      assert Values()[k] == value;
      IndexOfFirst(Values(), value, k);
      node := prev.next;
      SValuesMoveToFront(nodes, i);
      Promote(prev, i);
    }

    /** The three writes at the end of `search`, with `prev` the
        predecessor of the node at position `k` (the sentinel when `k` is 0,
        where the writes change nothing). */
    method Promote(prev: SNode, ghost k: nat)
      requires Valid() && k < |nodes|
      requires prev == (if k == 0 then head else nodes[k - 1])
      modifies this, prev, nodes[k], head
      ensures Valid() && head == old(head) && nodes == MoveToFront(old(nodes), k)
    {
      var node := prev.next;
      prev.next := node.next;
      node.next := head.next;
      head.next := node;
      if k == 0 {
        MoveToFrontFirst(nodes);
      } else {
        LinkedMoveToFront(nodes, k, head);
        DistinctMoveToFront(nodes, k);
        nodes := MoveToFront(nodes, k);
      }
    }
  }

  /** A found value is right after the sentinel, so the next `shift`
      returns it. */
  method SearchThenShift(list: AdjustedSLL, value: int) returns (r: Option<int>)
    requires list.Valid() && value in list.Values()
    modifies list, list.head, list.nodes
    ensures list.Valid() && r == Some(value)
  {
    var node := list.Search(value);
    r := list.Shift();
  }
}
