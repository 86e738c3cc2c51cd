/** `SLL`, the general singly-linked list of lib/SLL/plain/index.js: a
    null-terminated chain of `{ value, next }` nodes with head and tail
    pointers and a size counter, all updated in place. */
module PlainList {
  import opened Seqs
  import opened Nodes
  import opened Merging

  class SLL {
    var head: SNode?
    var tail: SNode?
    var size: nat
    /** The chain from `head` to `tail`, in order. */
    ghost var nodes: seq<SNode>

    /** The chain is acyclic and null-terminated, `head` and `tail` are its
        ends (both null exactly when it is empty), and `size` counts it. */
    ghost predicate Valid()
      reads this, nodes
    {
      size == |nodes| && Distinct(nodes) && Linked(nodes, null) &&
      (if nodes == [] then head == null && tail == null
       else head == nodes[0] && tail == nodes[|nodes| - 1])
    }

    /** What iteration and `toArray` read, head to tail. */
    ghost function Values(): seq<int>
      reads this
    {
      SValues(nodes)
    }

    constructor ()
      ensures Valid() && nodes == []
    {
      head, tail, size := null, null, 0;
      nodes := [];
    }

    /** The `size` getter. */
    function Size(): (n: nat)
      reads this, nodes
      requires Valid()
      ensures n == |Values()|
    {
      size
    }

    method Push(value: int) returns (node: SNode)
      requires Valid()
      modifies this, nodes
      ensures Valid() && fresh(node)
      ensures nodes == old(nodes) + [node]
      ensures Values() == old(Values()) + [value]
    {
      node := new SNode(value, null);
      if tail == null {
        head := node;
      } else {
        tail.next := node;
      }
      tail := node;
      size := size + 1;
      nodes := nodes + [node];
      SValuesAppend(old(nodes), [node]);
    }

    /** Detaches and returns the tail node, walking from the head to find
        its predecessor; null on an empty list. */
    method Pop() returns (r: SNode?)
      requires Valid()
      modifies this, nodes
      ensures Valid()
      ensures old(nodes) == [] ==> r == null && nodes == []
      ensures old(nodes) != [] ==>
        r == old(nodes[|nodes| - 1]) && r.next == null && nodes == old(nodes[..|nodes| - 1])
      ensures Values() == if old(Values()) == [] then [] else old(Values()[..|Values()| - 1])
    {
      var first := head;
      if first == null {
        return null;
      }
      if first.next == null {
        tail, head := null, null;
        size := 0;
        nodes := [];
        return first;
      }
      var node := first;
      var last := tail;
      ghost var k := 0;
      while node.next != last
        invariant 0 <= k < |nodes| - 1 && node == nodes[k]
        decreases |nodes| - k
      {
        node := node.next;
        k := k + 1;
      }
      tail := node;
      node.next := null;
      size := size - 1;
      nodes := nodes[..|nodes| - 1];
      r := last;
    }

    method Unshift(value: int) returns (node: SNode)
      requires Valid()
      modifies this, nodes
      ensures Valid() && fresh(node)
      ensures nodes == [node] + old(nodes)
      ensures Values() == [value] + old(Values())
    {
      node := new SNode(value, null);
      if head == null {
        tail := node;
      } else {
        node.next := head;
      }
      head := node;
      size := size + 1;
      nodes := [node] + nodes;
      SValuesAppend([node], old(nodes));
    }

    /** Detaches and returns the head node; null on an empty list. */
    method Shift() returns (r: SNode?)
      requires Valid()
      modifies this, nodes
      ensures Valid()
      ensures old(nodes) == [] ==> r == null && nodes == []
      ensures old(nodes) != [] ==> r == old(nodes[0]) && r.next == null && nodes == old(nodes[1..])
      ensures Values() == if old(Values()) == [] then [] else old(Values()[1..])
    {
      if head == null {
        return null;
      }
      var first := head;
      var next := first.next;
      head := next;
      first.next := null;
      if head == null {
        tail := null;
      }
      size := size - 1;
      nodes := nodes[1..];
      r := first;
    }

    /** `#prev`: the node whose `next` is `target`, or null if there is none
        (in particular when `target` is the head or not in the list). */
    method Prev(target: SNode) returns (p: SNode?, ghost k: nat)
      requires Valid() && nodes != []
      ensures p == null <==> target !in nodes[1..]
      ensures p != null ==> k < |nodes| - 1 && p == nodes[k] && target == nodes[k + 1]
    {
      var node := head;
      k := 0;
      while true
        invariant 0 <= k < |nodes| && node == nodes[k]
        invariant target !in nodes[1..k + 1]
        decreases |nodes| - k
      {
        if node.next == target {
          return node, k;
        }
        if node.next == null {
          return null, k;
        }
        node := node.next;
        k := k + 1;
      }
    }

    /** Unlinks the node `target` if it is in the list (through `shift` when
        it is the head) and clears its `next`; false when the list is empty
        or the node is not in it. */
    method Delete(target: SNode) returns (ok: bool)
      requires Valid()
      modifies this, nodes
      ensures Valid()
      ensures ok <==> target in old(nodes)
      ensures ok ==> target.next == null
      ensures ok ==> nodes == RemoveAt(old(nodes), IndexOf(old(nodes), target))
      ensures ok ==> Values() == RemoveAt(old(Values()), IndexOf(old(nodes), target))
      ensures !ok ==> nodes == old(nodes)
    {
      if size == 0 {
        return false;
      }
      if target == head {
        var _ := Shift();
        IndexOfDistinct(old(nodes), 0);
        return true;
      }
      var prev, i := Prev(target);
      if prev == null {
        return false;
      }
      IndexOfDistinct(nodes, i + 1);
      SValuesRemoveAt(nodes, i + 1);
      Unlink(prev, target, i);
      ok := true;
    }

    /** The splice at the end of `delete`: bypass the node, then clear its
        `next`. */
    method Unlink(prev: SNode, target: SNode, ghost i: nat)
      requires Valid() && i < |nodes| - 1 && prev == nodes[i] && target == nodes[i + 1]
      modifies this, nodes
      ensures Valid() && nodes == RemoveAt(old(nodes), i + 1) && target.next == null
    {
      Bypass(prev, target, i);
      target.next := null;
    }

    /** `prev.next = node.next`, moving the tail back if the node was the
        tail: the step `delete` and `remove` share. The bypassed node keeps
        its `next`. */
    method Bypass(prev: SNode, target: SNode, ghost i: nat)
      requires Valid() && i < |nodes| - 1 && prev == nodes[i] && target == nodes[i + 1]
      modifies this, prev
      ensures Valid() && nodes == RemoveAt(old(nodes), i + 1) && target !in nodes
      ensures target.next == old(target.next)
    {
      prev.next := target.next;
      if target.next == null {
        tail := prev;
      }
      size := size - 1;
      DistinctRemoveAt(nodes, i + 1);
      nodes := RemoveAt(nodes, i + 1);
    }

    /** The first node from the head holding `value`, or null. The source
        reads `head.value` before any check, so the list must not be empty. */
    method Search(value: int) returns (r: SNode?)
      requires Valid() && nodes != []
      ensures r == null <==> value !in Values()
      ensures r != null ==> r == nodes[IndexOf(Values(), value)]
    {
      var node := head;
      ghost var k := 0;
      while true
        invariant 0 <= k < |nodes| && node == nodes[k]
        invariant value !in Values()[..k]
        decreases |nodes| - k
      {
        if node.value == value {
          assert Values()[k] == value;
          IndexOfFirst(Values(), value, k);
          return node;
        }
        if node.next == null {
          assert Values() == Values()[..k] + [Values()[k]];
          return null;
        }
        node := node.next;
        k := k + 1;
      }
    }

    method ToArray() returns (a: array<int>)
      requires Valid()
      ensures fresh(a) && a[..] == Values()
    {
      a := new int[size];
      var next := head;
      for i := 0 to size
        invariant next == if i < |nodes| then nodes[i] else null
        invariant forall j :: 0 <= j < i ==> a[j] == nodes[j].value
      {
        a[i] := next.value;
        next := next.next;
      }
    }

    /** Reverses the links in place. The walk is the one `#reverseSubList`
        does, run over the whole chain; the old head becomes the tail. */
    method Reverse()
      requires Valid()
      modifies this, nodes
      ensures Valid()
      ensures nodes == Reversed(old(nodes))
      ensures Values() == Reversed(old(Values()))
    {
      var node := head;
      if node == null || node.next == null {
        assert nodes == Reversed(nodes) by {
          if nodes != [] {
            assert |nodes| == 1;
          }
        }
        return;
      }
      tail := head;
      var h := ReverseSubList(node, nodes);
      head := h;
      DistinctReversed(nodes);
      SValuesReversed(nodes);
      nodes := Reversed(nodes);
    }

    /** `#reverseSubList`: reverses the null-terminated chain `ns` starting
        at `list` and returns its new first node (the old last one). */
    static method ReverseSubList(list: SNode?, ghost ns: seq<SNode>) returns (h: SNode?)
      requires ChainFrom(list, ns)
      modifies ns
      ensures ChainFrom(h, Reversed(ns))
    {
      var rest := list;
      h := null;
      ghost var k := 0;
      while rest != null
        invariant 0 <= k <= |ns|
        invariant rest == if k < |ns| then ns[k] else null
        invariant h == if k == 0 then null else ns[k - 1]
        invariant forall j {:trigger ns[j].next} :: 0 <= j < k ==> ns[j].next == (if j > 0 then ns[j - 1] else null)
        invariant forall j {:trigger ns[j].next} :: k <= j < |ns| ==> ns[j].next == (if j + 1 < |ns| then ns[j + 1] else null)
        decreases |ns| - k
      {
        var next := rest.next;
        rest.next := h;
        h := rest;
        rest := next;
        k := k + 1;
      }
      LinkedReversed(ns, null);
      DistinctReversed(ns);
    }

    /** `concat` with the one case the source gets wrong handled: an empty
        `other` leaves this list as it is. The source dereferences this
        list's tail without a check, so this list must not be empty. */
    method Concat(other: SLL)
      requires Valid() && other.Valid() && other != this
      requires nodes != []
      requires multiset(nodes) !! multiset(other.nodes)
      modifies this, other, nodes
      ensures Valid() && other.Valid()
      ensures nodes == old(nodes) + old(other.nodes) && other.nodes == []
      ensures Values() == old(Values()) + old(other.Values()) && other.Values() == []
    {
      if other.head == null {
        return;
      }
      ConcatAsWritten(other);
    }

    /** `concat` as the source writes it: link this tail to `other`'s head,
        take over `other`'s tail and size, and empty `other`. When `other`
        is empty its null tail becomes this list's tail, so the list keeps
        its nodes and size but loses its tail. */
    method ConcatAsWritten(other: SLL)
      requires Valid() && other.Valid() && other != this
      requires nodes != []
      requires multiset(nodes) !! multiset(other.nodes)
      modifies this, other, nodes
      ensures other.Valid() && other.nodes == []
      ensures old(other.nodes) != [] ==> Valid()
      ensures old(other.nodes) != [] ==> nodes == old(nodes) + old(other.nodes)
      ensures old(other.nodes) != [] ==> Values() == old(Values()) + old(other.Values())
      ensures old(other.nodes) == [] ==> nodes == old(nodes) && head == old(head) != null
      ensures old(other.nodes) == [] ==> size == old(size) && tail == null && !Valid()
    {
      ghost var joined := nodes + other.nodes;
      assert forall j :: 0 <= j < |other.nodes| ==> other.nodes[j] != tail by {
        assert tail in multiset(nodes);
        forall j | 0 <= j < |other.nodes| ensures other.nodes[j] != tail {
          assert other.nodes[j] in multiset(other.nodes);
        }
      }
      assert Distinct(joined) && SValues(joined) == Values() + other.Values() by {
        DistinctAppend(nodes, other.nodes);
        SValuesAppend(nodes, other.nodes);
      }
      assert other.nodes != [] ==> joined[0] == head && joined[|joined| - 1] == other.tail;
      LinkTo(tail, other.head, nodes, other.nodes);
      tail := other.tail;
      size := size + other.size;
      other.head, other.tail := null, null;
      other.size := 0;
      if old(other.nodes) != [] {
        nodes := joined;
      }
      other.nodes := [];
    }

    /** The link `concat` writes: the last node of the chain `xs` is pointed
        at the head `h` of the chain `ys` (null when `ys` is empty). */
    static method LinkTo(last: SNode, h: SNode?, ghost xs: seq<SNode>, ghost ys: seq<SNode>)
      requires xs != [] && last == xs[|xs| - 1] && Distinct(xs) && Linked(xs, null)
      requires ChainFrom(h, ys) && forall j :: 0 <= j < |ys| ==> ys[j] != last
      modifies last
      ensures Linked(xs + ys, null)
    {
      last.next := h;
      if ys == [] {
        assert xs + ys == xs;
      } else {
        assert Linked(xs, ys[0]) by {
          forall i | 0 <= i < |xs| - 1
            ensures xs[i].next == xs[i + 1]
          {
            assert xs[i] != last;
          }
        }
        LinkedAppend(xs, ys, null);
      }
    }

    /** `merge`: a new list holding the merge of both lists' values, taking
        this list's value on a tie; neither list changes (the method
        modifies nothing). */
    method Merge(other: SLL) returns (result: SLL)
      requires Valid() && other.Valid()
      ensures fresh(result) && result.Valid()
      ensures result.Values() == MergeOf(Values(), other.Values())
      ensures result.size == size + other.size
    {
      result := MergeNodes(head, nodes, other.head, other.nodes);
      MergeOfLength(Values(), other.Values());
    }

    /** The loops `merge` and `#merge` share, building a fresh list by
        `push` and writing nothing else. */
    static method MergeNodes(a0: SNode?, ghost xs: seq<SNode>, b0: SNode?, ghost ys: seq<SNode>)
      returns (result: SLL)
      requires ChainFrom(a0, xs) && ChainFrom(b0, ys)
      ensures fresh(result) && result.Valid() && fresh(result.nodes)
      ensures result.Values() == MergeOf(SValues(xs), SValues(ys))
    {
      result := new SLL();
      var a, b, i, j := MergeHeads(result, a0, xs, b0, ys);
      var rest := if a != null then a else b;
      ghost var rs, k := if a != null then xs else ys, if a != null then i else j;
      assert forall j :: 0 <= j < |rs| ==> rs[j] !in result.nodes;
      assert result.Values() + SValues(rs)[k..] == MergeOf(SValues(xs), SValues(ys));
      ghost var added := PushRest(result, rest, rs, k);
    }

    /** The first loop: while both chains have a node, push the smaller head
        value (the first chain's on a tie) and advance that chain. */
    static method MergeHeads(result: SLL, a0: SNode?, ghost xs: seq<SNode>, b0: SNode?, ghost ys: seq<SNode>)
      returns (a: SNode?, b: SNode?, ghost i: nat, ghost j: nat)
      requires result.Valid() && result.nodes == []
      requires ChainFrom(a0, xs) && ChainFrom(b0, ys)
      modifies result
      ensures result.Valid() && fresh(result.nodes)
      ensures i <= |xs| && a == (if i < |xs| then xs[i] else null)
      ensures j <= |ys| && b == (if j < |ys| then ys[j] else null)
      ensures a == null || b == null
      ensures result.Values() + MergeOf(SValues(xs)[i..], SValues(ys)[j..]) == MergeOf(SValues(xs), SValues(ys))
    {
      ghost var A, B := SValues(xs), SValues(ys);
      ghost var out: seq<int> := [];
      a, b, i, j := a0, b0, 0, 0;
      while a != null && b != null
        invariant i <= |xs| && j <= |ys|
        invariant a == if i < |xs| then xs[i] else null
        invariant b == if j < |ys| then ys[j] else null
        invariant result.Valid() && fresh(result.nodes) && result.Values() == out
        invariant out + MergeOf(A[i..], B[j..]) == MergeOf(A, B)
        decreases |xs| - i + |ys| - j
      {
        var value;
        value, a, b, i, j := TakeSmaller(a, b, xs, ys, i, j, out);
        var _ := result.Push(value);
        out := out + [value];
      }
    }

    /** One step of the first loop of `merge`: the smaller head value (the
        first chain's on a tie), with that chain advanced past it. */
    static method TakeSmaller(a: SNode, b: SNode, ghost xs: seq<SNode>, ghost ys: seq<SNode>,
                              ghost i: nat, ghost j: nat, ghost out: seq<int>)
      returns (value: int, a': SNode?, b': SNode?, ghost i': nat, ghost j': nat)
      requires Linked(xs, null) && i < |xs| && a == xs[i]
      requires Linked(ys, null) && j < |ys| && b == ys[j]
      requires out + MergeOf(SValues(xs)[i..], SValues(ys)[j..]) == MergeOf(SValues(xs), SValues(ys))
      ensures i <= i' <= |xs| && j <= j' <= |ys| && i' + j' == i + j + 1
      ensures a' == (if i' < |xs| then xs[i'] else null)
      ensures b' == (if j' < |ys| then ys[j'] else null)
      ensures (out + [value]) + MergeOf(SValues(xs)[i'..], SValues(ys)[j'..]) == MergeOf(SValues(xs), SValues(ys))
    {
      MergeOfInvariantStep(SValues(xs), SValues(ys), i, j, out);
      if a.value <= b.value {
        value, a', b', i', j' := a.value, a.next, b, i + 1, j;
      } else {
        value, a', b', i', j' := b.value, a, b.next, i, j + 1;
      }
    }

    /** The second loop: push the values of the chain that is left over. */
    static method PushRest(result: SLL, rest: SNode?, ghost rs: seq<SNode>, ghost k: nat)
      returns (ghost added: seq<SNode>)
      requires result.Valid() && Linked(rs, null)
      requires k <= |rs| && rest == (if k < |rs| then rs[k] else null)
      requires forall j :: 0 <= j < |rs| ==> rs[j] !in result.nodes
      modifies result, result.nodes
      ensures result.Valid()
      ensures result.nodes == old(result.nodes) + added && fresh(added)
      ensures result.Values() == old(result.Values()) + SValues(rs)[k..]
    {
      var node := rest;
      ghost var m := k;
      ghost var before, values := result.Values(), SValues(rs);
      added := [];
      while node != null
        invariant k <= m <= |rs| && node == if m < |rs| then rs[m] else null
        invariant Linked(rs, null)
        invariant result.Valid()
        invariant result.nodes == old(result.nodes) + added && fresh(added)
        invariant result.Values() == before + values[k..m]
        decreases |rs| - m
      {
        assert values[k..m + 1] == values[k..m] + [node.value];
        var pushed := result.Push(node.value);
        added := added + [pushed];
        node := node.next;
        m := m + 1;
      }
      assert values[k..m] == values[k..];
    }

    /** `mergeSort`: sorts the chain with `#sort` and walks to its last node
        to reset the tail. The source reads `head.next` after sorting without
        a check, so the list must not be empty. */
    method MergeSort()
      requires Valid() && nodes != []
      modifies this, nodes
      ensures Valid()
      ensures Values() == MergeSortOf(old(Values()))
      ensures Sorted(Values()) && multiset(Values()) == multiset(old(Values()))
    {
      var h, rs := SortChain(head, nodes);
      MergeSortOfLength(Values());
      MergeSortOfSorted(Values());
      MergeSortOfMultiset(Values());
      assert |rs| == |SValues(rs)| == size;
      var last := LastNode(h, rs);
      head, tail := h, last;
      nodes := rs;
    }

    /** The walk at the end of `mergeSort` that finds the last node. */
    static method LastNode(h: SNode?, ghost rs: seq<SNode>) returns (node: SNode)
      requires ChainFrom(h, rs) && rs != []
      ensures node == rs[|rs| - 1]
    {
      node := h;
      ghost var k := 0;
      while node.next != null
        invariant 0 <= k < |rs| && node == rs[k]
        decreases |rs| - k
      {
        node := node.next;
        k := k + 1;
      }
    }

    /** `#sort`: a chain of at most one node is returned as it is; a longer
        one is split after its middle node (found by a slow pointer that
        moves one step while a fast one moves two), both halves are sorted
        and the results merged into fresh nodes by `#merge`. */
    static method SortChain(list: SNode?, ghost ns: seq<SNode>) returns (h: SNode?, ghost rs: seq<SNode>)
      requires ChainFrom(list, ns)
      modifies ns
      ensures ChainFrom(h, rs)
      ensures SValues(rs) == MergeSortOf(SValues(ns))
      ensures |ns| <= 1 ==> rs == ns
      ensures |ns| > 1 ==> fresh(rs)
      decreases |ns|, 1
    {
      if list == null || list.next == null {
        return list, ns;
      }
      var slow, k := SplitPoint(list, ns);
      ghost var m := k + 1;
      var right := slow.next;
      assert forall i :: 0 <= i < |ns[m..]| ==> ns[m..][i] !in ns[..m];
      Split(slow, ns, m);
      h, rs := SortHalves(list, ns[..m], right, ns[m..]);
      SValuesSplit(ns, m);
      MergeSortOfSplit(SValues(ns));
    }

    /** The recursive calls and the merge at the end of `#sort`, on the two
        chains the split produced. */
    static method SortHalves(list: SNode, ghost left: seq<SNode>, right: SNode, ghost rest: seq<SNode>)
      returns (h: SNode?, ghost rs: seq<SNode>)
      requires ChainFrom(list, left) && ChainFrom(right, rest)
      requires forall i :: 0 <= i < |rest| ==> rest[i] !in left
      modifies left, rest
      ensures ChainFrom(h, rs) && fresh(rs)
      ensures SValues(rs) == MergeOf(MergeSortOf(SValues(left)), MergeSortOf(SValues(rest)))
      decreases |left| + |rest|, 0
    {
      MergeSortOfLength(SValues(left));
      MergeSortOfLength(SValues(rest));
      var h1, r1 := SortChain(list, left);
      assert forall i :: 0 <= i < |r1| ==> r1[i] !in rest;
      var h2, r2 := SortChain(right, rest);
      h, rs := MergeChains(h1, r1, h2, r2);
    }

    /** The tortoise-and-hare walk of `#sort`: `slow` advances one node
        while `fast`, starting one ahead, advances two, so `slow` stops on
        the last node of the first half, which gets the extra node when the
        length is odd. */
    static method SplitPoint(list: SNode, ghost ns: seq<SNode>) returns (slow: SNode, ghost k: nat)
      requires ChainFrom(list, ns) && |ns| > 1
      ensures k + 1 == (|ns| + 1) / 2 && slow == ns[k]
    {
      slow := list;
      var fast := list.next;
      k := 0;
      while fast != null && fast.next != null
        invariant 2 * k + 1 <= |ns| && slow == ns[k]
        invariant fast == if 2 * k + 1 < |ns| then ns[2 * k + 1] else null
        decreases |ns| - k
      {
        slow := slow.next;
        fast := fast.next.next;
        k := k + 1;
      }
    }

    /** `slow.next = null` in `#sort`: cuts the chain `ns` after its node at
        position `m - 1` into two null-terminated chains. */
    static method Split(slow: SNode, ghost ns: seq<SNode>, ghost m: nat)
      requires Distinct(ns) && Linked(ns, null) && 0 < m < |ns| && slow == ns[m - 1]
      modifies slow
      ensures ChainFrom(ns[0], ns[..m]) && ChainFrom(ns[m], ns[m..])
    {
      LinkedSuffix(ns, null, m);
      slow.next := null;
      assert Linked(ns[m..], null) by {
        forall i | 0 <= i < |ns| - m
          ensures ns[m..][i].next == old(ns[m..][i].next)
        {
          assert ns[m + i] != slow;
        }
      }
      assert Linked(ns[..m], null) by {
        forall i | 0 <= i < m - 1
          ensures ns[i].next == ns[i + 1]
        {
          assert ns[i] != slow;
        }
      }
    }

    /** `#merge` as written: it returns its first argument when that is
        null and its second when that is null, so if either chain is empty
        the result is the empty chain. `#sort` only calls it with two
        non-empty chains, where it merges into fresh nodes. */
    static method MergeChains(a: SNode?, ghost xs: seq<SNode>, b: SNode?, ghost ys: seq<SNode>)
      returns (h: SNode?, ghost rs: seq<SNode>)
      requires ChainFrom(a, xs) && ChainFrom(b, ys)
      ensures ChainFrom(h, rs)
      ensures xs == [] || ys == [] ==> h == null && rs == []
      ensures xs != [] && ys != [] ==> SValues(rs) == MergeOf(SValues(xs), SValues(ys)) && fresh(rs)
    {
      if a == null {
        return a, [];
      }
      if b == null {
        return b, [];
      }
      var result := MergeNodes(a, xs, b, ys);
      h, rs := result.head, result.nodes;
    }

    /** `cut(from)`: drops the last `from` nodes. A pointer walks to the
        last node while `target` trails `from` nodes behind it (the first
        `from` steps count `from` and `size` down instead), and the chain is
        cut after `target`. Nothing happens on an empty list or for
        `from <= 0`, and the list is cleared when `from >= size`. */
    method Cut(from: int)
      requires Valid()
      modifies this, nodes
      ensures Valid()
      ensures old(nodes) == [] || from <= 0 ==> nodes == old(nodes)
      ensures old(nodes) != [] && from >= old(size) ==> nodes == []
      ensures 0 < from < old(size) ==> nodes == old(nodes)[..old(size) - from]
      ensures Values() ==
        if from <= 0 then old(Values())
        else if from >= |old(Values())| then []
        else old(Values())[..|old(Values())| - from]
    {
      if head == null || from <= 0 {
        return;
      }
      if from >= size {
        Clear();
        return;
      }
      var pointer := head;
      var target := head;
      var f := from;
      ghost var p := 0;
      while pointer.next != null
        invariant p < |nodes| && pointer == nodes[p]
        invariant f == if p <= from then from - p else 0
        invariant target == nodes[if p <= from then 0 else p - from]
        invariant size == |nodes| - (from - f)
        modifies this`size
        decreases |nodes| - p
      {
        pointer := pointer.next;
        p := p + 1;
        if f != 0 {
          size := size - 1;
          f := f - 1;
        } else {
          target := target.next;
        }
      }
      SValuesSplit(nodes, |nodes| - from);
      CutAfter(target, |nodes| - from);
    }

    /** The end of `cut`, once `size` already counts only the first `keep`
        nodes: `target`, the last of them, becomes the tail and its `next`
        is cleared. */
    method CutAfter(target: SNode, ghost keep: nat)
      requires 0 < keep < |nodes| && size == keep && target == nodes[keep - 1]
      requires Distinct(nodes) && Linked(nodes, null) && head == nodes[0]
      modifies this, target
      ensures Valid() && nodes == old(nodes)[..keep]
    {
      tail := target;
      Split(target, nodes, keep);
      DistinctPrefix(nodes, keep);
      nodes := nodes[..keep];
    }

    /** `remove(n)`: removes the `n`-th node counted from the tail (1 is the
        tail). `fast` runs to the end while `target` trails `n` nodes behind
        it and `prev` one node behind `target`. Nothing happens when
        `n <= 0`, the list is empty, or `n` exceeds the size. The removed
        node keeps its `next`. */
    method Remove(n: int)
      requires Valid()
      modifies this, nodes
      ensures Valid()
      ensures n <= 0 || n > |old(nodes)| ==> nodes == old(nodes)
      ensures 1 <= n <= |old(nodes)| ==> nodes == RemoveAt(old(nodes), |old(nodes)| - n)
      ensures 1 <= n <= |old(Values())| ==> Values() == RemoveAt(old(Values()), |old(Values())| - n)
      ensures n <= 0 || n > |old(Values())| ==> Values() == old(Values())
    {
      if head == null || n <= 0 {
        return;
      }
      if head.next == null && n == 1 {
        Clear();
        return;
      }
      var found, prev, target := FromEnd(n);
      if !found {
        return;
      }
      SValuesRemoveAt(nodes, |nodes| - n);
      if prev == null {
        DropHead();
        return;
      }
      Bypass(prev, target, |nodes| - n - 1);
    }

    /** The two-pointer walk of `remove`: `fast` runs to the end while
        `target` starts moving once `fast` is `n` nodes ahead, so `target`
        ends on the `n`-th node from the end and `prev` on the one before
        it (null when `target` is the head). Changes nothing. */
    method FromEnd(n: int) returns (found: bool, prev: SNode?, target: SNode)
      requires Valid() && nodes != [] && n > 0
      ensures found <==> n <= |nodes|
      ensures found ==> target == nodes[|nodes| - n]
      ensures found ==> prev == if n == |nodes| then null else nodes[|nodes| - n - 1]
    {
      var fast := head;
      target := head;
      prev := null;
      var count := n;
      ghost var f := 0;
      while fast != null
        invariant f <= |nodes| && fast == if f < |nodes| then nodes[f] else null
        invariant count == if f <= n then n - f else 0
        invariant target == nodes[if f <= n then 0 else f - n]
        invariant prev == if f <= n then null else nodes[f - n - 1]
        decreases |nodes| - f
      {
        fast := fast.next;
        f := f + 1;
        if count != 0 {
          count := count - 1;
        } else {
          prev := target;
          target := target.next;
        }
      }
      found := count == 0;
    }

    /** The `prev === null` branch of `remove`: the head moves on and the
        old head keeps its `next`. */
    method DropHead()
      requires Valid() && |nodes| >= 2
      modifies this
      ensures Valid() && nodes == old(nodes)[1..]
    {
      head := head.next;
      size := size - 1;
      nodes := nodes[1..];
    }

    /** `isPalindrome`: finds the middle node, reverses the chain after it,
        compares the first half with the reversed second half node by node,
        and reverses the second half back, so the list ends as it began. */
    method IsPalindrome() returns (equal: bool)
      requires Valid()
      modifies this, nodes
      ensures Valid() && nodes == old(nodes)
      ensures equal <==> Values() == Reversed(Values())
    {
      if head == null || head.next == null {
        assert |Values()| <= 1;
        assert Values() == Reversed(Values());
        return true;
      }
      var right := Middle();
      var last;
      equal, last := CompareHalves(head, right, nodes);
      tail := last;
    }

    /** The part of `isPalindrome` after the middle node `mid` of the chain
        `all` is found: reverse the chain after it, compare from both ends,
        and reverse the second half back, clearing the last node's `next`
        once more. Returns the result and the last node, which becomes the
        tail again. Only the second half's links are written, and they end
        as they began. */
    static method CompareHalves(first: SNode, mid: SNode, ghost all: seq<SNode>)
      returns (equal: bool, last: SNode)
      requires |all| >= 2 && Distinct(all) && Linked(all, null)
      requires first == all[0] && mid == all[(|all| - 1) / 2]
      modifies all
      ensures Linked(all, null) && last == all[|all| - 1]
      ensures equal <==> SValues(all) == Reversed(SValues(all))
    {
      ghost var m := (|all| - 1) / 2;
      ghost var prefix, second := all[..m + 1], all[m + 1..];
      assert all == prefix + second;
      assert Linked(prefix, second[0]) && Linked(second, null) by {
        LinkedPrefix(all, null, m + 1);
        LinkedSuffix(all, null, m + 1);
      }
      assert Distinct(second) && forall i :: 0 <= i < |prefix| ==> prefix[i] !in second by {
        DistinctPrefix(all, m + 1);
      }
      equal, last := ReverseAndCompare(first, mid, all, prefix, second);
    }

    /** `CompareHalves` on the chain cut into `prefix` (up to the middle
        node) and `second` (the rest). */
    static method ReverseAndCompare(first: SNode, mid: SNode, ghost all: seq<SNode>,
                                    ghost prefix: seq<SNode>, ghost second: seq<SNode>)
      returns (equal: bool, last: SNode)
      requires all == prefix + second
      requires second != [] && |second| <= |prefix| <= |second| + 1
      requires Distinct(second) && forall i :: 0 <= i < |prefix| ==> prefix[i] !in second
      requires first == prefix[0] && mid == prefix[|prefix| - 1]
      requires Linked(prefix, second[0]) && Linked(second, null)
      modifies second
      ensures Linked(all, null) && last == all[|all| - 1]
      ensures equal <==> SValues(all) == Reversed(SValues(all))
    {
      var h := ReverseSubList(mid.next, second);
      ghost var r := Reversed(second);
      assert Linked(prefix, second[0]);
      equal := CompareReversed(first, h, prefix, second, r);
      ReversedIn(second);
      assert forall i :: 0 <= i < |r| ==> r[i] in second;
      var _ := ReverseSubList(h, r);
      ReversedTwice(second);
      last := h;
      last.next := null;
      LinkedAppend(prefix, second, null);
    }

    static method CompareReversed(first: SNode, h: SNode?, ghost prefix: seq<SNode>,
                                  ghost second: seq<SNode>, ghost r: seq<SNode>)
      returns (equal: bool)
      requires second != [] && |second| <= |prefix| <= |second| + 1
      requires first == prefix[0] && Linked(prefix, second[0])
      requires r == Reversed(second) && ChainFrom(h, r)
      ensures equal <==> SValues(prefix + second) == Reversed(SValues(prefix + second))
    {
      ghost var xs := prefix + [second[0]];
      assert r[|r| - 1] == second[0];
      assert Linked(xs, null) by {
        LinkedAppend(prefix, [second[0]], null);
      }
      equal := SameValues(first, xs, h, r);
      HalvesCompared(prefix, second, xs, r);
    }

    /** The comparison loop of `isPalindrome`: walks two chains side by side
        until either ends, stopping at the first pair of different values. */
    static method SameValues(start0: SNode?, ghost xs: seq<SNode>, end0: SNode?, ghost ys: seq<SNode>)
      returns (equal: bool)
      requires Linked(xs, null) && start0 == (if xs == [] then null else xs[0])
      requires Linked(ys, null) && end0 == (if ys == [] then null else ys[0])
      ensures equal <==> forall i :: 0 <= i < |xs| && i < |ys| ==> xs[i].value == ys[i].value
    {
      var start, end := start0, end0;
      equal := true;
      ghost var k := 0;
      while end != null && start != null
        invariant k <= |xs| && k <= |ys|
        invariant start == if k < |xs| then xs[k] else null
        invariant end == if k < |ys| then ys[k] else null
        invariant forall i :: 0 <= i < k ==> xs[i].value == ys[i].value
        decreases |xs| - k
      {
        if end.value != start.value {
          equal := false;
          break;
        }
        end := end.next;
        start := start.next;
        k := k + 1;
      }
    }

    /** The `middle` getter: null on an empty list, otherwise the node at
        1-based position `(size + 1) / 2`, found by a slow pointer that moves
        one node while a fast one, starting two ahead, moves two. */
    method Middle() returns (r: SNode?)
      requires Valid()
      ensures r == null <==> nodes == []
      ensures r != null ==> r == nodes[(|nodes| - 1) / 2]
    {
      var slow := head;
      if slow == null || slow.next == null {
        return slow;
      }
      var fast := slow.next.next;
      ghost var k := 0;
      while fast != null
        invariant 2 * k < |nodes| && slow == nodes[k]
        invariant fast == if 2 * k + 2 < |nodes| then nodes[2 * k + 2] else null
        decreases |nodes| - k
      {
        slow := slow.next;
        fast := if fast.next == null then null else fast.next.next;
        k := k + 1;
      }
      r := slow;
    }

    method Clear()
      requires Valid()
      modifies this
      ensures Valid() && nodes == [] && Values() == []
    {
      head, tail, size := null, null, 0;
      nodes := [];
    }
  }

  /** What the comparison in `isPalindrome` decides. Once the second half
      is reversed, the head reaches the first half and then the first node
      of the second half; comparing that chain with the reversed second half
      on their common length tells exactly whether the values read the same
      both ways. */
  lemma HalvesCompared(prefix: seq<SNode>, second: seq<SNode>, xs: seq<SNode>, ys: seq<SNode>)
    requires second != [] && |second| <= |prefix| <= |second| + 1
    requires xs == prefix + [second[0]] && ys == Reversed(second)
    ensures (forall i :: 0 <= i < |xs| && i < |ys| ==> xs[i].value == ys[i].value)
            <==> SValues(prefix + second) == Reversed(SValues(prefix + second))
  {
    var ns := prefix + second;
    var vs := SValues(ns);
    PalindromeByHalves(vs);
    assert |ys| == |ns| / 2;
    forall i | 0 <= i < |ns| / 2
      ensures xs[i].value == vs[i] && ys[i].value == vs[|vs| - 1 - i]
    {
      assert ys[i] == second[|second| - 1 - i];
    }
  }

  /** The discrepancy of `ConcatAsWritten`: appending an empty list to a
      one-node list leaves that node in the chain with no tail. */
  method ConcatEmptyLosesTail() returns (list: SLL)
    ensures list.nodes != [] && list.tail == null && !list.Valid()
  {
    list := new SLL();
    var _ := list.Push(1);
    var other := new SLL();
    list.ConcatAsWritten(other);
  }
}
