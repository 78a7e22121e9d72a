/** The sortedness checker `isSorted` (src/main.go:123-130). */
module Sortedness {

  /** No adjacent pair of `s` decreases: the condition `isSorted` tests. */
  predicate Sorted(s: seq<int>) {
    forall k :: 1 <= k < |s| ==> s[k - 1] <= s[k]
  }

  /** The global reading of sortedness: every element is at most every later element. */
  predicate Ordered(s: seq<int>) {
    forall i, j :: 0 <= i < j < |s| ==> s[i] <= s[j]
  }

  /** `isSorted`: a left-to-right scan from index 1 that stops at the first descent.
      It answers true exactly on sorted slices, hence on every slice of length at most one;
      when it answers false the descent it stopped at is the first one, since the part of the
      slice before it is sorted. */
  method IsSorted(arr: seq<int>) returns (r: bool)
    ensures r <==> Sorted(arr)
    ensures |arr| <= 1 ==> r
    ensures !r ==> exists k :: 1 <= k < |arr| && arr[k] < arr[k - 1] && Sorted(arr[..k])
  {
    var i := 1;
    while i < |arr|
      invariant 1 <= i
      invariant forall k :: 1 <= k < i && k < |arr| ==> arr[k - 1] <= arr[k]
    {
      if arr[i] < arr[i - 1] {
        assert Sorted(arr[..i]);
        return false;
      }
      i := i + 1;
    }
    return true;
  }

  /** Adjacent non-decrease and global order are the same property. */
  lemma {:induction false} SortedIffOrdered(s: seq<int>)
    ensures Sorted(s) <==> Ordered(s)
  {
    if Sorted(s) {
      forall i, j | 0 <= i < j < |s|
        ensures s[i] <= s[j]
      {
        SortedChain(s, i, j);
      }
    }
  }

  lemma {:induction false} SortedChain(s: seq<int>, i: int, j: int)
    requires Sorted(s)
    requires 0 <= i <= j < |s|
    ensures s[i] <= s[j]
    decreases j - i
  {
    if i < j {
      SortedChain(s, i, j - 1);
    }
  }

  /** The two examples of the checker's contract: [1,2,2,3] is sorted, [2,1,3] is not. */
  lemma CheckerExamples()
    ensures Sorted([1, 2, 2, 3])
    ensures !Sorted([2, 1, 3])
  {
    assert [2, 1, 3][1] < [2, 1, 3][0];
  }
}
