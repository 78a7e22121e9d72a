/** The in-place shuffle `shuffleSlice` (src/main.go:112-117): position `i`, from left to right,
    swaps with a position `j` drawn from `[0, i]`. */
module Shuffle {
  import Rand

  /** Oracle answers a shuffle may receive: the answer at step `i` lies in `[0, i]`,
      the range of `rand.Intn(i + 1)`. */
  predicate ValidPicks(picks: seq<int>) {
    forall i :: 0 <= i < |picks| ==> 0 <= picks[i] <= i
  }

  /** Exchange the elements at positions `i` and `j` (Go's `arr[i], arr[j] = arr[j], arr[i]`). */
  function Swap(s: seq<int>, i: int, j: int): (r: seq<int>)
    requires 0 <= i < |s| && 0 <= j < |s|
    ensures |r| == |s|
    ensures multiset(r) == multiset(s)
  {
    s[i := s[j]][j := s[i]]
  }

  /** The slice after the first `|picks|` steps of the shuffle, step `i` swapping positions
      `i` and `picks[i]`. It is a permutation of `a` that leaves the unvisited suffix alone. */
  function ShuffleWith(a: seq<int>, picks: seq<int>): (b: seq<int>)
    requires |picks| <= |a| && ValidPicks(picks)
    ensures |b| == |a|
    decreases |picks|
  {
    if |picks| == 0 then a
    else
      var i := |picks| - 1;
      Swap(ShuffleWith(a, picks[..i]), i, picks[i])
  }

  /** `shuffleSlice`: copies the slice into an array, swaps every position `i` with the
      oracle's answer `j` in `[0, i]`, and returns the result together with the answers drawn.
      Every index is in bounds, and the result is a permutation of the input. */
  method ShuffleSlice(a: seq<int>) returns (b: seq<int>, ghost picks: seq<int>)
    ensures |b| == |a|
    ensures multiset(b) == multiset(a)
    ensures |picks| == |a| && ValidPicks(picks) && b == ShuffleWith(a, picks)
  {
    var arr := new int[|a|](k requires 0 <= k < |a| => a[k]);
    assert arr[..] == a;
    picks := [];
    var i := 0;
    while i < arr.Length
      invariant 0 <= i <= arr.Length == |a|
      invariant |picks| == i && ValidPicks(picks)
      invariant arr[..] == ShuffleWith(a, picks)
    {
      var j := Rand.Intn(i + 1);
      ghost var before := arr[..];
      ghost var done := picks;
      arr[i], arr[j] := arr[j], arr[i];
      assert arr[..] == Swap(before, i, j);
      ShuffleStep(a, done, j);
      picks := picks + [j];
      i := i + 1;
    }
    b := arr[..];
    ShuffleWithPermutes(a, picks);
  }

  /** Step `|done|` of the shuffle, with oracle answer `j`, is one swap. */
  lemma ShuffleStep(a: seq<int>, done: seq<int>, j: int)
    requires |done| < |a| && ValidPicks(done) && 0 <= j <= |done|
    ensures ValidPicks(done + [j])
    ensures ShuffleWith(a, done + [j]) == Swap(ShuffleWith(a, done), |done|, j)
  {
    assert (done + [j])[..|done|] == done;
  }

  /** Whatever the oracle answers, the shuffle only rearranges the slice. */
  lemma {:induction false} ShuffleWithPermutes(a: seq<int>, picks: seq<int>)
    requires |picks| <= |a| && ValidPicks(picks)
    ensures multiset(ShuffleWith(a, picks)) == multiset(a)
    decreases |picks|
  {
    if |picks| > 0 {
      ShuffleWithPermutes(a, picks[..|picks| - 1]);
    }
  }

  /** The steps before position `k` never touch positions from `k` on: shuffling a slice with
      fewer than `k` answers is shuffling its first `k` elements and keeping the rest. */
  lemma {:induction false} ShuffleWithPrefix(a: seq<int>, picks: seq<int>, k: int)
    requires |picks| <= k <= |a| && ValidPicks(picks)
    ensures ShuffleWith(a, picks) == ShuffleWith(a[..k], picks) + a[k..]
    decreases |picks|
  {
    if |picks| > 0 {
      var i := |picks| - 1;
      ShuffleWithPrefix(a, picks[..i], k);
      SwapInPrefix(ShuffleWith(a[..k], picks[..i]), a[k..], i, picks[i]);
    }
  }

  /** A swap inside the first part of a concatenation leaves the second part alone. */
  lemma SwapInPrefix(s: seq<int>, t: seq<int>, i: int, j: int)
    requires 0 <= i < |s| && 0 <= j < |s|
    ensures Swap(s + t, i, j) == Swap(s, i, j) + t
  {
  }

  /** Every permutation of the slice is the outcome of some sequence of oracle answers:
      together with the multiset guarantee of `ShuffleWith`, the possible results of one
      shuffle are exactly the permutations of its input. */
  lemma {:induction false} ShuffleReachesEveryPermutation(a: seq<int>, b: seq<int>)
    requires |b| == |a| && multiset(b) == multiset(a)
    ensures exists picks :: |picks| == |a| && ValidPicks(picks) && ShuffleWith(a, picks) == b
    decreases |a|
  {
    if |a| == 0 {
      assert ShuffleWith(a, []) == b;
    } else {
      var n := |a| - 1;
      var x := a[n];
      assert x in multiset(b);
      var j :| 0 <= j < |b| && b[j] == x;
      var c := Unswap(b, j);
      UnswapKeepsRest(a, b, j);
      ShuffleReachesEveryPermutation(a[..n], c);
      var p :| |p| == n && ValidPicks(p) && ShuffleWith(a[..n], p) == c;
      ShuffleExtend(a, p, j);
      UnswapThenSwap(b, j);
      assert ShuffleWith(a, p + [j]) == b;
    }
  }

  /** One more step of the shuffle on a slice whose last element has not been visited yet. */
  lemma ShuffleExtend(a: seq<int>, p: seq<int>, j: int)
    requires |a| > 0 && |p| == |a| - 1 && ValidPicks(p) && 0 <= j < |a|
    ensures ValidPicks(p + [j])
    ensures ShuffleWith(a, p + [j]) == Swap(ShuffleWith(a[..|a| - 1], p) + [a[|a| - 1]], |a| - 1, j)
  {
    var n := |a| - 1;
    ShuffleStep(a, p, j);
    ShuffleWithPrefix(a, p, n);
    assert a[n..] == [a[n]];
  }

  /** The slice that, after its last element `b[j]` is appended and swapped into position
      `j`, gives back `b`: `b` without its last element, with `b[j]` overwritten by that element. */
  function Unswap(b: seq<int>, j: int): (c: seq<int>)
    requires 0 <= j < |b|
    ensures |c| == |b| - 1
  {
    var n := |b| - 1;
    if j == n then b[..n] else b[..n][j := b[n]]
  }

  lemma UnswapThenSwap(b: seq<int>, j: int)
    requires 0 <= j < |b|
    ensures Swap(Unswap(b, j) + [b[j]], |b| - 1, j) == b
  {
  }

  lemma UnswapKeepsRest(a: seq<int>, b: seq<int>, j: int)
    requires |b| == |a| > 0 && multiset(b) == multiset(a)
    requires 0 <= j < |b| && b[j] == a[|a| - 1]
    ensures multiset(Unswap(b, j)) == multiset(a[..|a| - 1])
  {
    var n := |a| - 1;
    var x := a[n];
    MultisetOfLast(a);
    UnswapRemovesOne(b, j);
    CancelOne(multiset(Unswap(b, j)), multiset(a[..n]), x);
  }

  lemma MultisetOfLast(s: seq<int>)
    requires |s| > 0
    ensures multiset(s) == multiset(s[..|s| - 1]) + multiset{s[|s| - 1]}
  {
    assert s == s[..|s| - 1] + [s[|s| - 1]];
  }

  /** `Unswap(b, j)` holds the elements of `b` less one copy of `b[j]`. */
  lemma UnswapRemovesOne(b: seq<int>, j: int)
    requires 0 <= j < |b|
    ensures multiset(Unswap(b, j)) + multiset{b[j]} == multiset(b)
  {
    var n := |b| - 1;
    MultisetOfLast(b);
    if j < n {
      UnswapParts(b, j);
      Rearrange(multiset(b[..j]), multiset(b[j + 1..n]), b[j], b[n]);
    }
  }

  lemma UnswapParts(b: seq<int>, j: int)
    requires 0 <= j < |b| - 1
    ensures multiset(b[..|b| - 1]) == multiset(b[..j]) + multiset{b[j]} + multiset(b[j + 1..|b| - 1])
    ensures multiset(Unswap(b, j)) == multiset(b[..j]) + multiset{b[|b| - 1]} + multiset(b[j + 1..|b| - 1])
  {
    var n := |b| - 1;
    assert b[..n] == b[..j] + [b[j]] + b[j + 1..n];
    assert Unswap(b, j) == b[..j] + [b[n]] + b[j + 1..n];
  }

  lemma Rearrange(f: multiset<int>, k: multiset<int>, x: int, y: int)
    ensures f + multiset{y} + k + multiset{x} == f + multiset{x} + k + multiset{y}
  {
  }

  lemma CancelOne(m: multiset<int>, k: multiset<int>, x: int)
    requires m + multiset{x} == k + multiset{x}
    ensures m == k
  {
    assert m == m + multiset{x} - multiset{x};
    assert k == k + multiset{x} - multiset{x};
  }
}
