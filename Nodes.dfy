/** The node records every container allocates, and the predicates that
    tie a chain of `next` (and `prev`) links to a ghost sequence of nodes.
    No container ever writes a node's `value` after creating it, so it is a
    constant here and value sequences need no heap reads. */
module Nodes {
  import opened Seqs

  /** `{ value, next }`, the node of the singly-linked lists. */
  class SNode {
    const value: int
    var next: SNode?

    constructor (value: int, next: SNode?)
      ensures this.value == value && this.next == next
    {
      this.value := value;
      this.next := next;
    }
  }

  /** `{ value, prev, next }`, the node of the doubly-linked lists. */
  class DNode {
    const value: int
    var prev: DNode?
    var next: DNode?

    constructor (value: int, prev: DNode?, next: DNode?)
      ensures this.value == value && this.prev == prev && this.next == next
    {
      this.value := value;
      this.prev := prev;
      this.next := next;
    }
  }

  /** The values held by a chain of singly-linked nodes, in order. */
  function SValues(ns: seq<SNode>): seq<int>
  {
    seq(|ns|, i requires 0 <= i < |ns| => ns[i].value)
  }

  /** The values held by a chain of doubly-linked nodes, in order. */
  function DValues(ns: seq<DNode>): seq<int>
  {
    seq(|ns|, i requires 0 <= i < |ns| => ns[i].value)
  }

  /** `ns` are linked in order through `next`, and the last one's `next` is
      `end` (null for a null-terminated list, the sentinel for a ring). */
  ghost predicate Linked(ns: seq<SNode>, end: SNode?)
    reads ns
  {
    forall i {:trigger ns[i].next} :: 0 <= i < |ns| ==> ns[i].next == (if i + 1 < |ns| then ns[i + 1] else end)
  }

  /** A null-terminated chain starting at `h`, without cycles. */
  ghost predicate ChainFrom(h: SNode?, ns: seq<SNode>)
    reads ns
  {
    Distinct(ns) && Linked(ns, null) && h == (if ns == [] then null else ns[0])
  }

  /** Every node of `ns` points back at its predecessor, the first at `end`:
      the links of `Reversed(ns)`. */
  lemma LinkedReversed(ns: seq<SNode>, end: SNode?)
    requires forall j {:trigger ns[j].next} :: 0 <= j < |ns| ==> ns[j].next == (if j > 0 then ns[j - 1] else end)
    ensures Linked(Reversed(ns), end)
  {
    var r := Reversed(ns);
    forall m | 0 <= m < |r|
      ensures r[m].next == (if m + 1 < |r| then r[m + 1] else end)
    {
      assert r[m] == ns[|ns| - 1 - m];
    }
  }

  lemma LinkedPrefix(ns: seq<SNode>, end: SNode?, k: nat)
    requires Linked(ns, end) && 0 < k < |ns|
    ensures Linked(ns[..k], ns[k])
  {
  }

  lemma LinkedSuffix(ns: seq<SNode>, end: SNode?, k: nat)
    requires Linked(ns, end) && k <= |ns|
    ensures Linked(ns[k..], end)
  {
    forall j | 0 <= j < |ns| - k
      ensures ns[k..][j].next == (if j + 1 < |ns| - k then ns[k..][j + 1] else end)
    {
      assert ns[k..][j] == ns[k + j];
    }
  }

  /** Two linked pieces joined where the first ends at the second's head. */
  lemma LinkedAppend(a: seq<SNode>, b: seq<SNode>, end: SNode?)
    requires b != [] && Linked(a, b[0]) && Linked(b, end)
    ensures Linked(a + b, end)
  {
    var ab := a + b;
    forall j | 0 <= j < |ab|
      ensures ab[j].next == (if j + 1 < |ab| then ab[j + 1] else end)
    {
      if j < |a| {
        assert ab[j] == a[j];
      } else {
        assert ab[j] == b[j - |a|];
      }
    }
  }

  /** `ns` are linked in both directions, and both ends close through the
      sentinel `s`. */
  ghost predicate DLinked(ns: seq<DNode>, s: DNode)
    reads ns
  {
    (forall i {:trigger ns[i].next} :: 0 <= i < |ns| ==> ns[i].next == (if i + 1 < |ns| then ns[i + 1] else s)) &&
    (forall i {:trigger ns[i].prev} :: 0 <= i < |ns| ==> ns[i].prev == (if i > 0 then ns[i - 1] else s))
  }

  /** The links after a node `x` is spliced in at position `i`: only the
      `next` of its predecessor and the `prev` of its successor change. */
  lemma DLinkedInsert(ns: seq<DNode>, i: nat, x: DNode, s: DNode)
    requires i <= |ns|
    requires forall j {:trigger ns[j].next} :: 0 <= j < |ns| && j + 1 != i ==>
      ns[j].next == (if j + 1 < |ns| then ns[j + 1] else s)
    requires forall j {:trigger ns[j].prev} :: 0 <= j < |ns| && j != i ==>
      ns[j].prev == (if j > 0 then ns[j - 1] else s)
    requires x.prev == (if i == 0 then s else ns[i - 1]) && x.next == (if i == |ns| then s else ns[i])
    requires 0 < i ==> ns[i - 1].next == x
    requires i < |ns| ==> ns[i].prev == x
    ensures DLinked(InsertAt(ns, i, x), s)
  {
    var r := InsertAt(ns, i, x);
    forall j | 0 <= j < |r|
      ensures r[j].next == (if j + 1 < |r| then r[j + 1] else s)
      ensures r[j].prev == (if j > 0 then r[j - 1] else s)
    {
      if j < i {
        assert r[j] == ns[j];
      } else if i < j {
        assert r[j] == ns[j - 1];
      }
    }
  }

  /** The links after the node at position `i` is spliced out: only the
      `next` of its predecessor and the `prev` of its successor change. */
  lemma DLinkedRemove(ns: seq<DNode>, i: nat, s: DNode)
    requires i < |ns|
    requires forall j {:trigger ns[j].next} :: 0 <= j < |ns| && j + 1 != i ==>
      ns[j].next == (if j + 1 < |ns| then ns[j + 1] else s)
    requires forall j {:trigger ns[j].prev} :: 0 <= j < |ns| && j != i + 1 ==>
      ns[j].prev == (if j > 0 then ns[j - 1] else s)
    requires 0 < i ==> ns[i - 1].next == (if i + 1 < |ns| then ns[i + 1] else s)
    requires i + 1 < |ns| ==> ns[i + 1].prev == (if 0 < i then ns[i - 1] else s)
    ensures DLinked(RemoveAt(ns, i), s)
  {
    var r := RemoveAt(ns, i);
    assert |r| == |ns| - 1;
    forall j | 0 <= j < |r|
      ensures r[j].next == (if j + 1 < |r| then r[j + 1] else s)
    {
      if j + 1 < i {
        assert r[j] == ns[j] && r[j + 1] == ns[j + 1];
      } else if j + 1 == i {
        assert r[j] == ns[i - 1];
      } else {
        assert r[j] == ns[j + 1];
      }
    }
    forall j | 0 <= j < |r|
      ensures r[j].prev == (if j > 0 then r[j - 1] else s)
    {
      if j < i {
        assert r[j] == ns[j];
      } else if j == i {
        assert r[j] == ns[i + 1];
      } else {
        assert r[j] == ns[j + 1] && r[j - 1] == ns[j];
      }
    }
  }

  /** The ring shape on its own: the sentinel `s` is outside `ns`, the
      nodes are linked both ways in order, and both ends close through `s`
      (which links to itself when `ns` is empty). */
  ghost predicate RingOf(s: DNode, ns: seq<DNode>)
    reads s, ns
  {
    s !in ns && Distinct(ns) && DLinked(ns, s) &&
    s.next == (if ns == [] then s else ns[0]) &&
    s.prev == (if ns == [] then s else ns[|ns| - 1])
  }

  /** The two writes that put `node`, whose own links already point at
      `prev` and `next`, into the ring at position `i`. */
  method LinkIn(s: DNode, ghost ns: seq<DNode>, node: DNode, prev: DNode, next: DNode, ghost i: nat)
    requires RingOf(s, ns) && node !in ns && node != s && i <= |ns|
    requires prev == (if i == 0 then s else ns[i - 1])
    requires next == (if i == |ns| then s else ns[i])
    requires node.prev == prev && node.next == next
    modifies prev, next
    ensures RingOf(s, InsertAt(ns, i, node))
    ensures node.prev == prev && node.next == next
  {
    prev.next := node;
    next.prev := node;
    DLinkedInsert(ns, i, node, s);
    DistinctInsertAt(ns, i, node);
  }

  /** The two writes that join the neighbours of the node at position `i`,
      leaving the node's own links as they were. */
  method LinkOut(s: DNode, ghost ns: seq<DNode>, node: DNode, ghost i: nat)
    requires RingOf(s, ns) && i < |ns| && node == ns[i]
    modifies node.prev, node.next
    ensures RingOf(s, RemoveAt(ns, i))
    ensures node.prev == old(node.prev) && node.next == old(node.next)
  {
    var next, prev := node.next, node.prev;
    prev.next := next;
    next.prev := prev;
    DLinkedRemove(ns, i, s);
    DistinctRemoveAt(ns, i);
  }

  lemma SValuesAppend(a: seq<SNode>, b: seq<SNode>)
    ensures SValues(a + b) == SValues(a) + SValues(b)
  {
  }

  lemma SValuesSplit(ns: seq<SNode>, m: nat)
    requires m <= |ns|
    ensures SValues(ns[..m]) == SValues(ns)[..m] && SValues(ns[m..]) == SValues(ns)[m..]
  {
  }

  lemma SValuesRemoveAt(ns: seq<SNode>, i: nat)
    requires i < |ns|
    ensures SValues(RemoveAt(ns, i)) == RemoveAt(SValues(ns), i)
  {
  }

  lemma SValuesReversed(ns: seq<SNode>)
    ensures SValues(Reversed(ns)) == Reversed(SValues(ns))
  {
  }

  lemma DValuesInsertAt(ns: seq<DNode>, i: nat, x: DNode)
    requires i <= |ns|
    ensures DValues(InsertAt(ns, i, x)) == InsertAt(DValues(ns), i, x.value)
  {
  }

  lemma DValuesRemoveAt(ns: seq<DNode>, i: nat)
    requires i < |ns|
    ensures DValues(RemoveAt(ns, i)) == RemoveAt(DValues(ns), i)
  {
  }

  lemma DValuesMoveToFront(ns: seq<DNode>, i: nat)
    requires i < |ns|
    ensures DValues(MoveToFront(ns, i)) == MoveToFront(DValues(ns), i)
  {
    DValuesRemoveAt(ns, i);
  }

  lemma DValuesMoveToBack(ns: seq<DNode>, i: nat)
    requires i < |ns|
    ensures DValues(MoveToBack(ns, i)) == MoveToBack(DValues(ns), i)
  {
    DValuesRemoveAt(ns, i);
  }

  lemma SValuesMoveToFront(ns: seq<SNode>, i: nat)
    requires i < |ns|
    ensures SValues(MoveToFront(ns, i)) == MoveToFront(SValues(ns), i)
  {
    SValuesRemoveAt(ns, i);
  }

  /** The links after the node at position `k` is moved to the front of a
      chain: only its own `next` and its predecessor's `next` change. */
  lemma LinkedMoveToFront(ns: seq<SNode>, k: nat, end: SNode?)
    requires 0 < k < |ns|
    requires forall j {:trigger ns[j].next} :: 0 <= j < |ns| && j + 1 != k && j != k ==>
      ns[j].next == (if j + 1 < |ns| then ns[j + 1] else end)
    requires ns[k - 1].next == (if k + 1 < |ns| then ns[k + 1] else end)
    requires ns[k].next == ns[0]
    ensures Linked(MoveToFront(ns, k), end)
  {
    var r := MoveToFront(ns, k);
    forall j | 0 <= j < |r|
      ensures r[j].next == (if j + 1 < |r| then r[j + 1] else end)
    {
      if j == 0 {
        assert r[0] == ns[k] && r[1] == ns[0];
      } else if j < k {
        assert r[j] == ns[j - 1] && r[j + 1] == ns[j];
      } else if j == k {
        assert r[j] == ns[k - 1];
        if k + 1 < |ns| {
          assert r[j + 1] == ns[k + 1];
        }
      } else {
        assert r[j] == ns[j];
        if j + 1 < |r| {
          assert r[j + 1] == ns[j + 1];
        }
      }
    }
  }

  /** The links after the node at position `i` is bypassed: only its
      predecessor's `next` changes, and the node's own `next` is no longer
      part of the chain. */
  lemma LinkedRemoveAt(ns: seq<SNode>, i: nat, end: SNode?)
    requires i < |ns|
    requires forall j {:trigger ns[j].next} :: 0 <= j < |ns| && j + 1 != i && j != i ==>
      ns[j].next == (if j + 1 < |ns| then ns[j + 1] else end)
    requires 0 < i ==> ns[i - 1].next == (if i + 1 < |ns| then ns[i + 1] else end)
    ensures Linked(RemoveAt(ns, i), end)
  {
    var r := RemoveAt(ns, i);
    forall j | 0 <= j < |r|
      ensures r[j].next == (if j + 1 < |r| then r[j + 1] else end)
    {
      if j + 1 < i {
        assert r[j] == ns[j] && r[j + 1] == ns[j + 1];
      } else if j + 1 == i {
        assert r[j] == ns[i - 1];
      } else {
        assert r[j] == ns[j + 1];
      }
    }
  }
}
