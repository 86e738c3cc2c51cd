/** Specification functions over value sequences shared by the four list
    containers, and the lemmas that give them their meaning. */
module Seqs {

  /** No element occurs twice; a node chain without cycles. */
  ghost predicate Distinct<T>(s: seq<T>)
  {
    forall i, j :: 0 <= i < j < |s| ==> s[i] != s[j]
  }

  /** The sequence read back to front. */
  function Reversed<T>(s: seq<T>): seq<T>
  {
    seq(|s|, i requires 0 <= i < |s| => s[|s| - 1 - i])
  }

  /** Reversing twice gives the sequence back. */
  lemma ReversedTwice<T>(s: seq<T>)
    ensures Reversed(Reversed(s)) == s
  {
  }

  /** Reversal peels off the last element first. */
  lemma ReversedLast<T>(s: seq<T>)
    requires s != []
    ensures Reversed(s) == [s[|s| - 1]] + Reversed(s[..|s| - 1])
  {
  }

  /** A reversed sequence holds the same elements. */
  lemma {:induction false} ReversedMultiset<T>(s: seq<T>)
    ensures multiset(Reversed(s)) == multiset(s)
  {
    if s != [] {
      ReversedMultiset(s[..|s| - 1]);
      ReversedLast(s);
      assert s == s[..|s| - 1] + [s[|s| - 1]];
    }
  }

  lemma ReversedIn<T>(s: seq<T>)
    ensures forall x :: x in Reversed(s) <==> x in s
  {
    ReversedMultiset(s);
    forall x
      ensures x in Reversed(s) <==> x in s
    {
      assert x in Reversed(s) <==> x in multiset(Reversed(s));
      assert x in s <==> x in multiset(s);
    }
  }

  lemma DistinctReversed<T>(s: seq<T>)
    requires Distinct(s)
    ensures Distinct(Reversed(s))
  {
  }

  /** Two chains without repetitions and without a common element join into
      one without repetitions. */
  lemma DistinctAppend<T>(a: seq<T>, b: seq<T>)
    requires Distinct(a) && Distinct(b) && multiset(a) !! multiset(b)
    ensures Distinct(a + b)
  {
    forall i, j | 0 <= i < |a| <= j < |a| + |b|
      ensures (a + b)[i] != (a + b)[j]
    {
      assert a[i] in multiset(a) && b[j - |a|] in multiset(b);
    }
  }

  lemma AppendAssoc<T>(a: seq<T>, b: seq<T>, c: seq<T>)
    ensures (a + b) + c == a + (b + c)
  {
  }

  lemma MultisetSplit<T>(s: seq<T>, m: nat)
    requires m <= |s|
    ensures multiset(s) == multiset(s[..m]) + multiset(s[m..])
  {
    assert s == s[..m] + s[m..];
  }

  lemma DistinctPrefix<T>(s: seq<T>, m: nat)
    requires Distinct(s) && m <= |s|
    ensures Distinct(s[..m]) && Distinct(s[m..])
  {
    assert forall i :: 0 <= i < |s| - m ==> s[m..][i] == s[m + i];
  }

  /** A sequence equals its reverse exactly when every element of the first
      half equals its mirror in the second half. */
  lemma PalindromeByHalves<T>(s: seq<T>)
    ensures s == Reversed(s) <==> forall i :: 0 <= i < |s| / 2 ==> s[i] == s[|s| - 1 - i]
  {
    if forall i :: 0 <= i < |s| / 2 ==> s[i] == s[|s| - 1 - i] {
      forall k | 0 <= k < |s|
        ensures s[k] == Reversed(s)[k]
      {
        if |s| / 2 <= k {
          var j := |s| - 1 - k;
          assert j < |s| / 2 || j == k;
        }
      }
    }
  }

  /** Non-decreasing under the integer order (the sources' default comparator
      `(a, b) => a - b`). */
  ghost predicate Sorted(s: seq<int>)
  {
    forall i, j :: 0 <= i < j < |s| ==> s[i] <= s[j]
  }

  /** The first position holding a value strictly greater than `x`, or the
      length when there is none: where an ordered insert puts `x`. */
  function UpperBound(s: seq<int>, x: int): (k: nat)
    ensures k <= |s| && (k < |s| ==> s[k] > x)
    ensures forall j :: 0 <= j < k ==> s[j] <= x
  {
    if s == [] then 0
    else if s[0] > x then 0
    else 1 + UpperBound(s[1..], x)
  }

  /** The position a left-to-right scan stops at is the upper bound. */
  lemma {:induction false} UpperBoundAt(s: seq<int>, x: int, k: nat)
    requires k <= |s| && (k < |s| ==> s[k] > x)
    requires forall j :: 0 <= j < k ==> s[j] <= x
    ensures UpperBound(s, x) == k
  {
    if s != [] && s[0] <= x {
      UpperBoundAt(s[1..], x, k - 1);
    }
  }

  /** In a sorted sequence everything from the upper bound on is greater. */
  lemma UpperBoundSorted(s: seq<int>, x: int)
    requires Sorted(s)
    ensures forall j :: UpperBound(s, x) <= j < |s| ==> s[j] > x
  {
  }

  /** Inserting at the upper bound keeps a sorted sequence sorted. */
  lemma InsertSorted(s: seq<int>, x: int)
    requires Sorted(s)
    ensures Sorted(InsertAt(s, UpperBound(s, x), x))
  {
    UpperBoundSorted(s, x);
  }

  /** Inserting adds exactly one occurrence of the element. */
  lemma InsertAtMultiset<T>(s: seq<T>, i: nat, x: T)
    requires i <= |s|
    ensures multiset(InsertAt(s, i, x)) == multiset(s) + multiset{x}
  {
    assert s == s[..i] + s[i..];
  }

  /** Removing from a sorted sequence leaves it sorted. */
  lemma SortedRemoveAt(s: seq<int>, i: nat)
    requires Sorted(s) && i < |s|
    ensures Sorted(RemoveAt(s, i))
  {
  }

  /** Read backwards, a sorted sequence does not increase. */
  lemma SortedReversed(s: seq<int>)
    requires Sorted(s)
    ensures forall i, j :: 0 <= i < j < |s| ==> Reversed(s)[i] >= Reversed(s)[j]
  {
  }

  /** Deleting the first occurrence of a value just inserted at its upper
      bound gives the sorted sequence back, even when equal values were
      already there: they all sit in one run with the new one. */
  lemma SortedInsertDelete(s: seq<int>, x: int)
    requires Sorted(s)
    ensures x in InsertAt(s, UpperBound(s, x), x)
    ensures RemoveAt(InsertAt(s, UpperBound(s, x), x), IndexOf(InsertAt(s, UpperBound(s, x), x), x)) == s
  {
    var k := UpperBound(s, x);
    var t := InsertAt(s, k, x);
    assert t[k] == x;
    var j := IndexOf(t, x);
    assert j <= k by {
      IndexOfAtMost(t, x, k);
    }
    InsertSorted(s, x);
    RemoveAtRun(t, j, k);
    RemoveInserted(s, k, x);
  }

  /** Removing either end of a run of equal elements gives the same. */
  lemma RemoveAtRun<T>(t: seq<T>, j: nat, k: nat)
    requires j <= k < |t| && forall m :: j <= m <= k ==> t[m] == t[k]
    ensures RemoveAt(t, j) == RemoveAt(t, k)
  {
    forall m | 0 <= m < |t| - 1
      ensures RemoveAt(t, j)[m] == RemoveAt(t, k)[m]
    {
      if j <= m < k {
        assert t[m] == t[k] && t[m + 1] == t[k];
      }
    }
  }

  /** Removing what was just inserted at the same position gives back the
      sequence. */
  lemma RemoveInserted<T>(s: seq<T>, i: nat, x: T)
    requires i <= |s|
    ensures RemoveAt(InsertAt(s, i, x), i) == s
  {
  }

  /** The position of the first occurrence of `x`. */
  function IndexOf<T(==)>(s: seq<T>, x: T): (i: nat)
    requires x in s
    ensures i < |s| && s[i] == x && x !in s[..i]
  {
    if s[0] == x then 0 else 1 + IndexOf(s[1..], x)
  }

  /** The position of the last occurrence of `x`. */
  function LastIndexOf<T(==)>(s: seq<T>, x: T): (i: nat)
    requires x in s
    ensures i < |s| && s[i] == x && x !in s[i + 1..]
  {
    if s[|s| - 1] == x then |s| - 1 else LastIndexOf(s[..|s| - 1], x)
  }

  /** The first occurrence comes no later than any occurrence. */
  lemma {:induction false} IndexOfAtMost<T>(s: seq<T>, x: T, k: nat)
    requires k < |s| && s[k] == x
    ensures IndexOf(s, x) <= k
  {
    if s[0] != x {
      IndexOfAtMost(s[1..], x, k - 1);
    }
  }

  /** A position holding `x` with no `x` before it is the first occurrence. */
  lemma IndexOfFirst<T>(s: seq<T>, x: T, k: nat)
    requires k < |s| && s[k] == x && x !in s[..k]
    ensures IndexOf(s, x) == k
  {
  }

  /** A position holding `x` with no `x` after it is the last occurrence. */
  lemma LastIndexOfLast<T>(s: seq<T>, x: T, k: nat)
    requires k < |s| && s[k] == x && x !in s[k + 1..]
    ensures LastIndexOf(s, x) == k
  {
  }

  /** In a sequence without repetitions the position of an element is unique. */
  lemma IndexOfDistinct<T>(s: seq<T>, i: nat)
    requires Distinct(s) && i < |s|
    ensures IndexOf(s, s[i]) == i
  {
  }

  /** `s` without its element at position `i`. */
  function RemoveAt<T>(s: seq<T>, i: nat): (r: seq<T>)
    requires i < |s|
    ensures |r| == |s| - 1
    ensures forall k :: 0 <= k < i ==> r[k] == s[k]
    ensures forall k :: i <= k < |r| ==> r[k] == s[k + 1]
  {
    s[..i] + s[i + 1..]
  }

  lemma DistinctRemoveAt<T>(s: seq<T>, i: nat)
    requires Distinct(s) && i < |s|
    ensures Distinct(RemoveAt(s, i)) && s[i] !in RemoveAt(s, i)
  {
  }

  /** `s` with `x` placed at position `i`. */
  function InsertAt<T>(s: seq<T>, i: nat, x: T): (r: seq<T>)
    requires i <= |s|
    ensures |r| == |s| + 1 && r[i] == x
    ensures forall k :: 0 <= k < i ==> r[k] == s[k]
    ensures forall k :: i < k < |r| ==> r[k] == s[k - 1]
  {
    s[..i] + [x] + s[i..]
  }

  lemma DistinctInsertAt<T>(s: seq<T>, i: nat, x: T)
    requires Distinct(s) && i <= |s| && x !in s
    ensures Distinct(InsertAt(s, i, x))
  {
    var r := InsertAt(s, i, x);
    forall a, b | 0 <= a < b < |r|
      ensures r[a] != r[b]
    {
      if a < i && b > i {
        assert r[b] == s[b - 1];
      }
    }
  }

  /** The element at position `i` moved to the front, the others in order. */
  function MoveToFront<T>(s: seq<T>, i: nat): (r: seq<T>)
    requires i < |s|
    ensures |r| == |s| && r[0] == s[i]
    ensures forall k :: 1 <= k <= i ==> r[k] == s[k - 1]
    ensures forall k :: i < k < |s| ==> r[k] == s[k]
  {
    [s[i]] + RemoveAt(s, i)
  }

  /** The element at position `i` moved to the back, the others in order. */
  function MoveToBack<T>(s: seq<T>, i: nat): (r: seq<T>)
    requires i < |s|
    ensures |r| == |s| && r[|s| - 1] == s[i]
    ensures forall k :: 0 <= k < i ==> r[k] == s[k]
    ensures forall k :: i <= k < |s| - 1 ==> r[k] == s[k + 1]
  {
    RemoveAt(s, i) + [s[i]]
  }

  /** Moving to the front is removing, then inserting at position 0. */
  lemma MoveToFrontByInsert<T>(s: seq<T>, i: nat)
    requires i < |s|
    ensures MoveToFront(s, i) == InsertAt(RemoveAt(s, i), 0, s[i])
  {
    assert MoveToFront(s, i) == [s[i]] + RemoveAt(s, i);
  }

  /** Moving to the back is removing, then inserting at the end. */
  lemma MoveToBackByInsert<T>(s: seq<T>, i: nat)
    requires i < |s|
    ensures MoveToBack(s, i) == InsertAt(RemoveAt(s, i), |s| - 1, s[i])
  {
    assert MoveToBack(s, i) == RemoveAt(s, i) + [s[i]];
  }

  lemma RemoveAtMultiset<T>(s: seq<T>, i: nat)
    requires i < |s|
    ensures multiset(RemoveAt(s, i)) == multiset(s) - multiset{s[i]}
  {
    assert s == s[..i] + [s[i]] + s[i + 1..];
  }

  /** Relocation only reorders: the elements and their counts stay. */
  lemma MoveToFrontMultiset<T>(s: seq<T>, i: nat)
    requires i < |s|
    ensures multiset(MoveToFront(s, i)) == multiset(s)
  {
    RemoveAtMultiset(s, i);
  }

  lemma MoveToBackMultiset<T>(s: seq<T>, i: nat)
    requires i < |s|
    ensures multiset(MoveToBack(s, i)) == multiset(s)
  {
    RemoveAtMultiset(s, i);
  }

  /** Moving the first element to the front changes nothing. */
  lemma MoveToFrontFirst<T>(s: seq<T>)
    requires s != []
    ensures MoveToFront(s, 0) == s
  {
    assert s == [s[0]] + s[1..];
  }

  lemma DistinctMoveToFront<T>(s: seq<T>, i: nat)
    requires Distinct(s) && i < |s|
    ensures Distinct(MoveToFront(s, i))
  {
    DistinctRemoveAt(s, i);
    DistinctAppend([s[i]], RemoveAt(s, i));
  }
}
