/** The value-level meaning of `merge` and `mergeSort`: a two-way merge
    under the integer order, and the top-down merge sort that splits
    a list after its middle node (the first half gets the extra element). */
module Merging {
  import opened Seqs

  /** The merge the two loops of `merge` perform: the head of `a` is
      taken while it is not greater than the head of `b` (`factor <= 0`), so
      on a tie the element of `a` comes first; the leftover tail follows. */
  function MergeOf(a: seq<int>, b: seq<int>): seq<int>
    decreases |a| + |b|
  {
    if a == [] then b
    else if b == [] then a
    else if a[0] <= b[0] then [a[0]] + MergeOf(a[1..], b)
    else [b[0]] + MergeOf(a, b[1..])
  }

  /** The values `mergeSort` leaves: the first `(|s| + 1) / 2` elements and
      the rest are sorted on their own and merged. */
  function MergeSortOf(s: seq<int>): seq<int>
    decreases |s|
  {
    if |s| <= 1 then s
    else
      var m := (|s| + 1) / 2;
      MergeOf(MergeSortOf(s[..m]), MergeSortOf(s[m..]))
  }

  /** One step of the merge loop, on suffixes of the two inputs. */
  lemma MergeOfStep(a: seq<int>, b: seq<int>, i: nat, j: nat)
    requires i < |a| && j < |b|
    ensures MergeOf(a[i..], b[j..]) ==
      if a[i] <= b[j] then [a[i]] + MergeOf(a[i + 1..], b[j..]) else [b[j]] + MergeOf(a[i..], b[j + 1..])
  {
    assert a[i..][1..] == a[i + 1..] && b[j..][1..] == b[j + 1..];
  }

  /** The merge loop's invariant survives one step: `out` is what has been
      pushed so far, and the merge of what is left completes it. */
  lemma MergeOfInvariantStep(a: seq<int>, b: seq<int>, i: nat, j: nat, out: seq<int>)
    requires i < |a| && j < |b|
    requires out + MergeOf(a[i..], b[j..]) == MergeOf(a, b)
    ensures a[i] <= b[j] ==> (out + [a[i]]) + MergeOf(a[i + 1..], b[j..]) == MergeOf(a, b)
    ensures b[j] < a[i] ==> (out + [b[j]]) + MergeOf(a[i..], b[j + 1..]) == MergeOf(a, b)
  {
    MergeOfStep(a, b, i, j);
    var x := if a[i] <= b[j] then a[i] else b[j];
    var rest := if a[i] <= b[j] then MergeOf(a[i + 1..], b[j..]) else MergeOf(a[i..], b[j + 1..]);
    AppendAssoc(out, [x], rest);
  }

  /** The recursive case of `MergeSortOf`, for callers that split a chain. */
  lemma MergeSortOfSplit(s: seq<int>)
    requires |s| > 1
    ensures MergeSortOf(s) == MergeOf(MergeSortOf(s[..(|s| + 1) / 2]), MergeSortOf(s[(|s| + 1) / 2..]))
  {
  }

  /** A merge keeps every element of both inputs with its count. */
  lemma {:induction false} MergeOfMultiset(a: seq<int>, b: seq<int>)
    ensures multiset(MergeOf(a, b)) == multiset(a) + multiset(b)
    decreases |a| + |b|
  {
    if a == [] || b == [] {
    } else if a[0] <= b[0] {
      var rest := MergeOf(a[1..], b);
      MergeOfMultiset(a[1..], b);
      assert MergeOf(a, b) == [a[0]] + rest;
      MultisetSplit(a, 1);
      assert a[..1] == [a[0]];
    } else {
      var rest := MergeOf(a, b[1..]);
      MergeOfMultiset(a, b[1..]);
      assert MergeOf(a, b) == [b[0]] + rest;
      MultisetSplit(b, 1);
      assert b[..1] == [b[0]];
    }
  }

  lemma MergeOfLength(a: seq<int>, b: seq<int>)
    ensures |MergeOf(a, b)| == |a| + |b|
  {
    MergeOfMultiset(a, b);
    assert |multiset(MergeOf(a, b))| == |MergeOf(a, b)|;
  }

  /** A sorted sequence stays sorted with a smaller element put in front. */
  lemma SortedCons(x: int, s: seq<int>)
    requires Sorted(s) && (s != [] ==> x <= s[0])
    ensures Sorted([x] + s)
  {
  }

  /** Merging two sorted sequences gives a sorted sequence. */
  lemma {:induction false} MergeOfSorted(a: seq<int>, b: seq<int>)
    requires Sorted(a) && Sorted(b)
    ensures Sorted(MergeOf(a, b))
    decreases |a| + |b|
  {
    if a == [] || b == [] {
    } else if a[0] <= b[0] {
      var rest := MergeOf(a[1..], b);
      MergeOfSorted(a[1..], b);
      MergeOfHead(a[1..], b);
      SortedCons(a[0], rest);
    } else {
      var rest := MergeOf(a, b[1..]);
      MergeOfSorted(a, b[1..]);
      MergeOfHead(a, b[1..]);
      SortedCons(b[0], rest);
    }
  }

  /** A merge of sorted sequences starts with the head of one of them. */
  lemma MergeOfHead(a: seq<int>, b: seq<int>)
    requires MergeOf(a, b) != []
    ensures (a != [] && MergeOf(a, b)[0] == a[0]) || (b != [] && MergeOf(a, b)[0] == b[0])
  {
  }

  /** `mergeSort` sorts. */
  lemma {:induction false} MergeSortOfSorted(s: seq<int>)
    ensures Sorted(MergeSortOf(s))
    decreases |s|
  {
    if |s| > 1 {
      var m := (|s| + 1) / 2;
      MergeSortOfSorted(s[..m]);
      MergeSortOfSorted(s[m..]);
      MergeOfSorted(MergeSortOf(s[..m]), MergeSortOf(s[m..]));
    }
  }

  /** `mergeSort` only reorders: it keeps every value with its count. */
  lemma {:induction false} MergeSortOfMultiset(s: seq<int>)
    ensures multiset(MergeSortOf(s)) == multiset(s)
    decreases |s|
  {
    if |s| > 1 {
      var m := (|s| + 1) / 2;
      var l, r := s[..m], s[m..];
      var sl, sr := MergeSortOf(l), MergeSortOf(r);
      MergeSortOfMultiset(l);
      MergeSortOfMultiset(r);
      MergeOfMultiset(sl, sr);
      MultisetSplit(s, m);
      assert MergeSortOf(s) == MergeOf(sl, sr);
    }
  }

  lemma MergeSortOfLength(s: seq<int>)
    ensures |MergeSortOf(s)| == |s|
  {
    MergeSortOfMultiset(s);
    assert |multiset(MergeSortOf(s))| == |MergeSortOf(s)|;
  }
}
