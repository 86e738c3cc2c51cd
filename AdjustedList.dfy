/** `AdjustedSLL` of lib/SLL/adjusted.js: a self-adjusting singly-linked
    list whose `search` moves the node it finds to the front. The chain is
    null-terminated and only `head` is kept. */
module AdjustedList {
  import opened Options
  import opened Seqs
  import opened Nodes

  class AdjustedSLL {
    var head: SNode?
    /** The chain from `head`, in order. */
    ghost var nodes: seq<SNode>

    /** The chain is acyclic and null-terminated, and `head` starts it. */
    ghost predicate Valid()
      reads this, nodes
    {
      ChainFrom(head, nodes)
    }

    /** What the iterator yields, head first. */
    ghost function Values(): seq<int>
      reads this
    {
      SValues(nodes)
    }

    /** The field initialiser `#head = null`. */
    constructor ()
      ensures Valid() && nodes == []
    {
      head := null;
      nodes := [];
    }

    /** A new node holding `value` becomes the head. */
    method Unshift(value: int) returns (node: SNode)
      requires Valid()
      modifies this
      ensures Valid() && fresh(node)
      ensures nodes == [node] + old(nodes)
      ensures Values() == [value] + old(Values())
    {
      node := new SNode(value, null);
      if head == null {
        head := node;
        nodes := [node];
        return;
      }
      node.next := head;
      head := node;
      nodes := [node] + nodes;
    }

    /** The head's value, the head moving on to its successor; the old head
        keeps its `next`. Nothing (the source's null) on an empty list. */
    method Shift() returns (r: Option<int>)
      requires Valid()
      modifies this
      ensures Valid()
      ensures old(nodes) == [] ==> r == None && nodes == []
      ensures old(nodes) != [] ==> r == Some(old(Values())[0]) && nodes == old(nodes)[1..]
    {
      if head == null {
        return None;
      }
      var node := head;
      head := node.next;
      nodes := nodes[1..];
      return Some(node.value);
    }

    /** Looks for a node whose successor is `node` and bypasses it. The head
        has no predecessor, so deleting the head (like deleting a node that
        is not in the list) reports false and changes nothing. The deleted
        node keeps its `next`. */
    method Delete(node: SNode) returns (deleted: bool)
      requires Valid()
      modifies this, nodes
      ensures Valid()
      ensures deleted <==> node in old(nodes) && node != old(head)
      ensures !deleted ==> nodes == old(nodes)
      ensures deleted ==> nodes == RemoveAt(old(nodes), IndexOf(old(nodes), node))
      ensures deleted ==> Values() == RemoveAt(old(Values()), IndexOf(old(nodes), node))
      ensures node.next == old(node.next)
    {
      if head == null {
        return false;
      }
      var pointer: SNode? := head;
      ghost var k := 0;
      while pointer != null
        invariant k <= |nodes| && pointer == (if k < |nodes| then nodes[k] else null)
        invariant forall j :: 0 < j <= k && j < |nodes| ==> nodes[j] != node
        decreases |nodes| - k
      {
        if node == pointer.next {
          IndexOfDistinct(nodes, k + 1);
          SValuesRemoveAt(nodes, k + 1);
          Bypass(pointer, k);
          return true;
        }
        pointer := pointer.next;
        k := k + 1;
      }
      return false;
    }

    /** `pointer.next = node.next`: the node after position `i` leaves the
        chain and keeps its own `next`. */
    method Bypass(prev: SNode, ghost i: nat)
      requires Valid() && i + 1 < |nodes| && prev == nodes[i]
      modifies this, prev
      ensures Valid() && nodes == RemoveAt(old(nodes), i + 1)
      ensures old(nodes)[i + 1].next == old(nodes[i + 1].next)
    {
      prev.next := prev.next.next;
      LinkedRemoveAt(nodes, i + 1, null);
      DistinctRemoveAt(nodes, i + 1);
      nodes := RemoveAt(nodes, i + 1);
    }

    /** The first node holding `value`, moved to the front with the other
        nodes in their order; null, with nothing changed, when no node holds
        it (in particular on an empty list). A match at the head stays. */
    method Search(value: int) returns (r: SNode?)
      requires Valid()
      modifies this, nodes
      ensures Valid()
      ensures r == null <==> value !in old(Values())
      ensures r == null ==> nodes == old(nodes)
      ensures r != null ==> r == old(nodes)[IndexOf(old(Values()), value)]
      ensures r != null ==> nodes == MoveToFront(old(nodes), IndexOf(old(Values()), value))
      ensures r != null ==> Values() == MoveToFront(old(Values()), IndexOf(old(Values()), value))
    {
      if head == null {
        return null;
      }
      var pointer: SNode? := head;
      var prev: SNode? := null;
      ghost var k := 0;
      while pointer != null
        invariant k <= |nodes| && pointer == (if k < |nodes| then nodes[k] else null)
        invariant prev == (if k == 0 then null else nodes[k - 1])
        invariant value !in Values()[..k]
        decreases |nodes| - k
      {
        if pointer.value == value {
          IndexOfFirst(Values(), value, k);
          SValuesMoveToFront(nodes, k);
          if pointer == head {
            MoveToFrontFirst(nodes);
            MoveToFrontFirst(Values());
            return pointer;
          }
          MoveUp(prev, k);
          return pointer;
        }
        assert Values()[..k + 1] == Values()[..k] + [pointer.value];
        prev := pointer;
        pointer := pointer.next;
        k := k + 1;
      }
      assert Values()[..k] == Values();
      return null;
    }

    /** The three writes of `search` that move the node after `prev` (at
        position `k`) to the front. */
    method MoveUp(prev: SNode, ghost k: nat)
      requires Valid() && 0 < k < |nodes| && prev == nodes[k - 1]
      modifies this, prev, nodes[k]
      ensures Valid() && nodes == MoveToFront(old(nodes), k)
    {
      var node := prev.next;
      prev.next := node.next;
      node.next := head;
      head := node;
      LinkedMoveToFront(nodes, k, null);
      DistinctMoveToFront(nodes, k);
      nodes := MoveToFront(nodes, k);
    }

    /** Forgets every node. */
    method Reset()
      modifies this
      ensures Valid() && nodes == []
    {
      head := null;
      nodes := [];
    }
  }

  /** A found value is at the front, so the next `shift` returns it. */
  method SearchThenShift(list: AdjustedSLL, value: int) returns (r: Option<int>)
    requires list.Valid() && value in list.Values()
    modifies list, list.nodes
    ensures list.Valid() && r == Some(value)
  {
    var node := list.Search(value);
    r := list.Shift();
  }
}
