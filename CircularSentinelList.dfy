/** `SentinelCircularDLL` of lib/DLL/circular-sentinel/index.js: a doubly
    linked ring closed through one sentinel node, which is both `head` and
    `tail`. The first node is `head.next`, the last is `tail.prev`, and the
    ring is empty when the sentinel links to itself. */
module CircularSentinelList {
  import opened Options
  import opened Seqs
  import opened Nodes

  /** Why `#validateAction` throws: the ring is empty, or the node has a
      null `prev` or `next` (it was detached). */
  datatype Fault = EmptyList | Detached

  class SentinelCircularDLL {
    var head: DNode
    var tail: DNode
    var size: nat
    /** The nodes from `head.next` round to `tail.prev`, sentinel excluded. */
    ghost var nodes: seq<DNode>

    /** The links: `head` and `tail` are one sentinel outside `nodes`, the
        nodes are linked both ways in order, and both ends close through the
        sentinel (which links to itself when the ring is empty). */
    ghost predicate Ring()
      reads this, head, nodes
    {
      tail == head && RingOf(head, nodes)
    }

    /** The links are a ring and `size` counts its nodes. */
    ghost predicate Valid()
      reads this, head, nodes
    {
      Ring() && size == |nodes|
    }

    /** What the iterator yields, from `head.next` round to the sentinel. */
    ghost function Values(): seq<int>
      reads this
    {
      DValues(nodes)
    }

    /** The check `#validateAction` makes, on the abstract state. */
    ghost function Check(node: DNode): Option<Fault>
      reads this, node
    {
      if nodes == [] then Some(EmptyList)
      else if node.prev == null || node.next == null then Some(Detached)
      else None
    }

    /** The constructor runs `reset` on a size already 0: an empty ring
        around a fresh sentinel. The sentinel's value is never read. */
    constructor ()
      ensures Valid() && nodes == [] && fresh(head)
    {
      var sentinel := new DNode(0, null, null);
      sentinel.prev, sentinel.next := sentinel, sentinel;
      head, tail := sentinel, sentinel;
      size := 0;
      nodes := [];
    }

    /** The `size` getter. */
    function Size(): (n: nat)
      reads this, head, nodes
      requires Valid()
      ensures n == |Values()|
    {
      size
    }

    /** Links a fresh node holding `value` between `prev` and `next`, the
        neighbours around position `i`; `push`, `unshift`, `before` and
        `after` differ only in which neighbours they pass. */
    method Splice(prev: DNode, next: DNode, value: int, ghost i: nat) returns (node: DNode)
      requires Valid() && i <= |nodes|
      requires prev == (if i == 0 then head else nodes[i - 1])
      requires next == (if i == |nodes| then head else nodes[i])
      modifies this, prev, next
      ensures Valid() && head == old(head) && fresh(node)
      ensures nodes == InsertAt(old(nodes), i, node)
      ensures Values() == InsertAt(old(Values()), i, value)
    {
      node := new DNode(value, prev, next);
      LinkIn(head, nodes, node, prev, next, i);
      size := size + 1;
      DValuesInsertAt(nodes, i, node);
      nodes := InsertAt(nodes, i, node);
    }

    /** Links the node at position `i` out of the ring by joining its two
        neighbours; the node keeps its own links and `size` is untouched. */
    method Unlink(node: DNode, ghost i: nat)
      requires Ring() && i < |nodes| && node == nodes[i]
      modifies this, node.prev, node.next
      ensures Ring() && head == old(head) && size == old(size)
      ensures nodes == RemoveAt(old(nodes), i) && node !in nodes
      ensures node.prev == old(node.prev) && node.next == old(node.next)
    {
      LinkOut(head, nodes, node, i);
      DistinctRemoveAt(nodes, i);
      nodes := RemoveAt(nodes, i);
    }

    /** Links a node that is not in the ring back in between `prev` and
        `next`, the neighbours around position `i`. `makeFirst` and
        `makeLast` make the same four writes in other orders; each writes a
        different field, so the order does not matter. */
    method Relink(node: DNode, prev: DNode, next: DNode, ghost i: nat)
      requires Ring() && node !in nodes && node != head && i <= |nodes|
      requires prev == (if i == 0 then head else nodes[i - 1])
      requires next == (if i == |nodes| then head else nodes[i])
      modifies this, node, prev, next
      ensures Ring() && head == old(head) && size == old(size)
      ensures nodes == InsertAt(old(nodes), i, node)
    {
      node.next := next;
      node.prev := prev;
      LinkIn(head, nodes, node, prev, next, i);
      nodes := InsertAt(nodes, i, node);
    }

    /** Clears the links of a node that has left the ring. */
    static method Detach(node: DNode)
      modifies node
      ensures node.prev == null && node.next == null
    {
      node.next := null;
      node.prev := null;
    }

    /** Appends `value` between the last node and the sentinel. */
    method Push(value: int) returns (node: DNode)
      requires Valid()
      modifies this, head, nodes
      ensures Valid() && head == old(head) && fresh(node)
      ensures nodes == old(nodes) + [node]
      ensures Values() == old(Values()) + [value]
    {
      node := Splice(tail.prev, tail, value, |nodes|);
      assert InsertAt(old(nodes), |old(nodes)|, node) == old(nodes) + [node];
      assert InsertAt(old(Values()), |old(Values())|, value) == old(Values()) + [value];
    }

    /** Prepends `value` between the sentinel and the first node. */
    method Unshift(value: int) returns (node: DNode)
      requires Valid()
      modifies this, head, nodes
      ensures Valid() && head == old(head) && fresh(node)
      ensures nodes == [node] + old(nodes)
      ensures Values() == [value] + old(Values())
    {
      node := Splice(head, head.next, value, 0);
    }

    /** Removes the last node, clears its links and returns its value; on
        an empty ring returns nothing and changes nothing. */
    method Pop() returns (r: Option<int>)
      requires Valid()
      modifies this, head, nodes
      ensures Valid() && head == old(head)
      ensures old(nodes) == [] ==> r == None && nodes == []
      ensures old(nodes) != [] ==> r == Some(old(Values())[|old(Values())| - 1])
      ensures old(nodes) != [] ==> nodes == old(nodes)[..|old(nodes)| - 1]
      ensures old(nodes) != [] ==> old(nodes)[|old(nodes)| - 1].prev == null
      ensures old(nodes) != [] ==> old(nodes)[|old(nodes)| - 1].next == null
    {
      if head == head.next {
        return None;
      }
      var node := tail.prev;
      Unlink(node, |nodes| - 1);
      size := size - 1;
      Detach(node);
      r := Some(node.value);
    }

    /** Removes the first node, clears its links and returns its value; on
        an empty ring returns nothing and changes nothing. */
    method Shift() returns (r: Option<int>)
      requires Valid()
      modifies this, head, nodes
      ensures Valid() && head == old(head)
      ensures old(nodes) == [] ==> r == None && nodes == []
      ensures old(nodes) != [] ==> r == Some(old(Values())[0])
      ensures old(nodes) != [] ==> nodes == old(nodes)[1..]
      ensures old(nodes) != [] ==> old(nodes)[0].prev == null && old(nodes)[0].next == null
    {
      if head == head.next {
        return None;
      }
      var node := head.next;
      Unlink(node, 0);
      size := size - 1;
      Detach(node);
      r := Some(node.value);
    }

    /** `#validateAction`: the empty ring is reported before a detached
        node. */
    method ValidateAction(node: DNode) returns (fault: Option<Fault>)
      requires Valid()
      ensures fault == Some(EmptyList) <==> nodes == []
      ensures fault == Some(Detached) <==> nodes != [] && (node.prev == null || node.next == null)
      ensures fault == Check(node)
    {
      if head == head.next {
        return Some(EmptyList);
      }
      if node.prev == null || node.next == null {
        return Some(Detached);
      }
      return None;
    }

    /** Inserts `value` just before the live `node`. */
    method Before(node: DNode, value: int) returns (fault: Option<Fault>, r: DNode?)
      requires Valid() && (node in nodes || node.prev == null || node.next == null)
      modifies this, head, nodes
      ensures Valid() && head == old(head)
      ensures fault == old(Check(node))
      ensures fault != None ==> nodes == old(nodes) && r == null && unchanged(node)
      ensures fault == None ==> node in old(nodes) && r != null && fresh(r)
      ensures fault == None ==> nodes == InsertAt(old(nodes), IndexOf(old(nodes), node), r)
      ensures fault == None ==> Values() == InsertAt(old(Values()), IndexOf(old(nodes), node), value)
    {
      fault := ValidateAction(node);
      if fault != None {
        return fault, null;
      }
      ghost var i := IndexOf(nodes, node);
      r := Splice(node.prev, node, value, i);
    }

    /** Inserts `value` just after the live `node`. */
    method After(node: DNode, value: int) returns (fault: Option<Fault>, r: DNode?)
      requires Valid() && (node in nodes || node.prev == null || node.next == null)
      modifies this, head, nodes
      ensures Valid() && head == old(head)
      ensures fault == old(Check(node))
      ensures fault != None ==> nodes == old(nodes) && r == null && unchanged(node)
      ensures fault == None ==> node in old(nodes) && r != null && fresh(r)
      ensures fault == None ==> nodes == InsertAt(old(nodes), IndexOf(old(nodes), node) + 1, r)
      ensures fault == None ==> Values() == InsertAt(old(Values()), IndexOf(old(nodes), node) + 1, value)
    {
      fault := ValidateAction(node);
      if fault != None {
        return fault, null;
      }
      ghost var i := IndexOf(nodes, node);
      r := Splice(node, node.next, value, i + 1);
    }

    /** Unlinks the live `node` and clears its links. */
    method Delete(node: DNode) returns (fault: Option<Fault>)
      requires Valid() && (node in nodes || node.prev == null || node.next == null)
      modifies this, head, nodes
      ensures Valid() && head == old(head)
      ensures fault == old(Check(node))
      ensures fault != None ==> nodes == old(nodes) && unchanged(node)
      ensures fault == None ==> node in old(nodes)
      ensures fault == None ==> nodes == RemoveAt(old(nodes), IndexOf(old(nodes), node))
      ensures fault == None ==> Values() == RemoveAt(old(Values()), IndexOf(old(nodes), node))
      ensures fault == None ==> node.prev == null && node.next == null
    {
      fault := ValidateAction(node);
      if fault != None {
        return;
      }
      ghost var i := IndexOf(nodes, node);
      DValuesRemoveAt(nodes, i);
      Unlink(node, i);
      Detach(node);
      size := size - 1;
    }

    /** Moves the live `node` to the front; the others keep their order. */
    method MakeFirst(node: DNode) returns (fault: Option<Fault>)
      requires Valid() && (node in nodes || node.prev == null || node.next == null)
      modifies this, head, nodes
      ensures Valid() && head == old(head)
      ensures fault == old(Check(node))
      ensures fault != None ==> nodes == old(nodes) && unchanged(node)
      ensures fault == None ==> node in old(nodes)
      ensures fault == None ==> nodes == MoveToFront(old(nodes), IndexOf(old(nodes), node))
      ensures fault == None ==> Values() == MoveToFront(old(Values()), IndexOf(old(nodes), node))
    {
      fault := ValidateAction(node);
      if fault != None {
        return;
      }
      ghost var i := IndexOf(nodes, node);
      DValuesMoveToFront(nodes, i);
      if head.next == node {
        assert MoveToFront(nodes, i) == nodes;
        return;
      }
      MoveToFrontByInsert(nodes, i);
      Unlink(node, i);
      Relink(node, head, head.next, 0);
    }

    /** Moves the live `node` to the back; the others keep their order. */
    method MakeLast(node: DNode) returns (fault: Option<Fault>)
      requires Valid() && (node in nodes || node.prev == null || node.next == null)
      modifies this, head, nodes
      ensures Valid() && head == old(head)
      ensures fault == old(Check(node))
      ensures fault != None ==> nodes == old(nodes) && unchanged(node)
      ensures fault == None ==> node in old(nodes)
      ensures fault == None ==> nodes == MoveToBack(old(nodes), IndexOf(old(nodes), node))
      ensures fault == None ==> Values() == MoveToBack(old(Values()), IndexOf(old(nodes), node))
    {
      fault := ValidateAction(node);
      if fault != None {
        return;
      }
      ghost var i := IndexOf(nodes, node);
      DValuesMoveToBack(nodes, i);
      if tail.prev == node {
        assert MoveToBack(nodes, i) == nodes;
        return;
      }
      MoveToBackByInsert(nodes, i);
      Unlink(node, i);
      Relink(node, tail.prev, tail, |nodes|);
    }

    /** `search`, the same walk as `forward`. */
    method Search(value: int) returns (r: DNode?)
      requires Valid()
      ensures r == null <==> value !in Values()
      ensures r != null ==> r == nodes[IndexOf(Values(), value)]
    {
      r := Forward(value);
    }

    /** The first node from the front holding `value`, or null. */
    method Forward(value: int) returns (r: DNode?)
      requires Valid()
      ensures r == null <==> value !in Values()
      ensures r != null ==> r == nodes[IndexOf(Values(), value)]
    {
      var node := head.next;
      ghost var k := 0;
      while node != head
        invariant k <= |nodes| && node == if k < |nodes| then nodes[k] else head
        invariant value !in Values()[..k]
        decreases |nodes| - k
      {
        if node.value == value {
          IndexOfFirst(Values(), value, k);
          return node;
        }
        assert Values()[..k + 1] == Values()[..k] + [node.value];
        node := node.next;
        k := k + 1;
      }
      assert Values()[..k] == Values();
      return null;
    }

    /** The first node from the back holding `value`, or null. */
    method Backward(value: int) returns (r: DNode?)
      requires Valid()
      ensures r == null <==> value !in Values()
      ensures r != null ==> r == nodes[LastIndexOf(Values(), value)]
    {
      var node := head.prev;
      ghost var k: nat := |nodes|;
      while node != head
        invariant k <= |nodes| && node == if k > 0 then nodes[k - 1] else head
        invariant value !in Values()[k..]
        decreases k
      {
        if node.value == value {
          LastIndexOfLast(Values(), value, k - 1);
          return node;
        }
        assert Values()[k - 1..] == [node.value] + Values()[k..];
        node := node.prev;
        k := k - 1;
      }
      assert Values()[k..] == Values();
      return null;
    }

    /** `reset` as it ought to be: a fresh self-linked sentinel and a size
        of 0. */
    method Reset()
      modifies this
      ensures Valid() && nodes == [] && fresh(head)
    {
      var sentinel := new DNode(0, null, null);
      sentinel.prev, sentinel.next := sentinel, sentinel;
      head, tail := sentinel, sentinel;
      size := 0;
      nodes := [];
    }

    /** `reset` as the source writes it: a fresh self-linked sentinel, but
        `#size` keeps its old value, so a non-empty ring leaves a size that
        counts nodes which are gone. */
    method ResetAsWritten()
      modifies this
      ensures Ring() && nodes == [] && fresh(head) && size == old(size)
      ensures old(size) != 0 ==> !Valid()
    {
      var sentinel := new DNode(0, null, null);
      sentinel.prev, sentinel.next := sentinel, sentinel;
      head, tail := sentinel, sentinel;
      nodes := [];
    }
  }

  /** The discrepancy of `ResetAsWritten`: after a push and a reset the
      ring is empty but `size` still reports one node. */
  method ResetKeepsSize() returns (list: SentinelCircularDLL)
    ensures list.Ring() && list.nodes == [] && list.size == 1
  {
    list := new SentinelCircularDLL();
    var _ := list.Push(7);
    list.ResetAsWritten();
  }

  /** `push` then `pop` hands back the pushed value and leaves the values as
      they were: the ring is last in, first out at its back. */
  method PushThenPop(list: SentinelCircularDLL, value: int) returns (r: Option<int>)
    requires list.Valid()
    modifies list, list.head, list.nodes
    ensures list.Valid() && r == Some(value) && list.Values() == old(list.Values())
  {
    var node := list.Push(value);
    r := list.Pop();
  }

  /** A second `delete` of the same node finds it detached (or the ring
      empty) and throws instead of unlinking anything: the ring stays as
      the first `delete` left it, one node and one from `size` shorter. */
  method DeleteTwice(list: SentinelCircularDLL, node: DNode) returns (second: Option<Fault>)
    requires list.Valid() && node in list.nodes
    modifies list, list.head, list.nodes
    ensures list.Valid() && second != None
    ensures list.nodes == RemoveAt(old(list.nodes), IndexOf(old(list.nodes), node))
    ensures list.Values() == RemoveAt(old(list.Values()), IndexOf(old(list.nodes), node))
    ensures list.size == old(list.size) - 1
  {
    var first := list.Delete(node);
    second := list.Delete(node);
  }
}
