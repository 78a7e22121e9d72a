/** The unsorted/sorted step of the main loop (src/main.go:73-92): the throttled redraw, the
    sortedness check, the shuffle with its iteration counter, and the freeze once sorted. */
module MainLoop {
  import Config
  import Sortedness
  import Shuffle

  /** `count` is a Go `uint64`: its increment wraps modulo 2^64. */
  const Uint64Modulus: int := 0x1_0000_0000_0000_0000

  /** The arguments of one `visualizeArray` call the loop makes (elapsed time left out). */
  datatype Frame = Frame(slice: seq<int>, iteration: int, sorted: bool)

  /** The loop's variables `slice`, `count`, `isSortedNow` and `flag`, together with the
      redraws requested so far, oldest first. */
  datatype LoopState = LoopState(slice: seq<int>, count: int, isSortedNow: bool, flag: int, frames: seq<Frame>)

  /** The state on entry to the loop (src/main.go:73-76). */
  function Init(slice: seq<int>): LoopState {
    LoopState(slice, 0, false, 0, [])
  }

  /** Oracle answers for one shuffle of the state's slice. */
  predicate PicksFor(s: LoopState, picks: seq<int>) {
    |picks| == |s.slice| && Shuffle.ValidPicks(picks)
  }

  /** One pass of the loop body before the exit check. A frozen (sorted) state is left alone.
      Otherwise a redraw is requested when `flag` has reached the threshold, then `flag` is
      incremented; an unsorted slice is shuffled (with the given oracle answers) and counted,
      a sorted one sets `isSortedNow` and is drawn a final time. */
  function Step(s: LoopState, picks: seq<int>): (t: LoopState)
    requires PicksFor(s, picks)
    ensures |t.slice| == |s.slice| && multiset(t.slice) == multiset(s.slice)
    ensures s.isSortedNow ==> t == s
    ensures !s.isSortedNow && !Sortedness.Sorted(s.slice) ==>
      && !t.isSortedNow
      && t.count == (s.count + 1) % Uint64Modulus
      && t.slice == Shuffle.ShuffleWith(s.slice, picks)
    ensures !s.isSortedNow && Sortedness.Sorted(s.slice) ==>
      && t.isSortedNow
      && t.slice == s.slice && t.count == s.count
      && |t.frames| > 0 && t.frames[|t.frames| - 1] == Frame(s.slice, s.count, true)
  {
    if s.isSortedNow then s
    else
      var frames := ThrottledFrames(s);
      var flag := (if s.flag == Config.RenderThreshold then 0 else s.flag) + 1;
      if !Sortedness.Sorted(s.slice) then
        Shuffle.ShuffleWithPermutes(s.slice, picks);
        LoopState(Shuffle.ShuffleWith(s.slice, picks), (s.count + 1) % Uint64Modulus, false, flag, frames)
      else
        LoopState(s.slice, s.count, true, flag, frames + [Frame(s.slice, s.count, true)])
  }

  /** Oracle answers for every step of a run over slices of length `n`. */
  predicate Schedule(n: int, sched: seq<seq<int>>) {
    forall k :: 0 <= k < |sched| ==> |sched[k]| == n && Shuffle.ValidPicks(sched[k])
  }

  /** `|sched|` passes of the loop from `s`, the `k`-th one shuffling with `sched[k]`. */
  function Run(s: LoopState, sched: seq<seq<int>>): (t: LoopState)
    requires Schedule(|s.slice|, sched)
    ensures |t.slice| == |s.slice|
    decreases |sched|
  {
    if |sched| == 0 then s
    else Run(Step(s, sched[0]), sched[1..])
  }

  /** How many of the requested redraws are the final (sorted) one. */
  function FinalFrames(frames: seq<Frame>): (n: nat)
    ensures n <= |frames|
  {
    if |frames| == 0 then 0
    else FinalFrames(frames[..|frames| - 1]) + (if frames[|frames| - 1].sorted then 1 else 0)
  }

  /** The bookkeeping after `k` passes that all found the slice unsorted: `count` is `k` modulo
      2^64, `flag` has gone round the threshold, one throttled redraw per completed round
      (the first at pass `threshold + 1`) and no final redraw. */
  predicate UnsortedAfter(t: LoopState, k: nat) {
    && t.count == k % Uint64Modulus
    && t.flag == (if k == 0 then 0 else (k - 1) % Config.RenderThreshold + 1)
    && |t.frames| == (if k == 0 then 0 else (k - 1) / Config.RenderThreshold)
    && FinalFrames(t.frames) == 0
  }

  /** A frozen state: the slice is sorted, and the final redraw, showing this very slice and
      count, is the last one requested and the only final one. */
  predicate SortedFinal(t: LoopState) {
    && Sortedness.Sorted(t.slice)
    && FinalFrames(t.frames) == 1
    && |t.frames| > 0 && t.frames[|t.frames| - 1] == Frame(t.slice, t.count, true)
  }

  /** The bookkeeping invariant of a state reached after `k` passes: a frozen state has
      its final redraw, an unfrozen one has the counters of `k` unsorted passes. */
  predicate Bookkept(t: LoopState, k: nat) {
    && (t.isSortedNow ==> SortedFinal(t))
    && (!t.isSortedNow ==> UnsortedAfter(t, k))
  }

  /** Every run only rearranges the slice. */
  lemma {:induction false} RunKeepsMultiset(s: LoopState, sched: seq<seq<int>>)
    requires Schedule(|s.slice|, sched)
    ensures multiset(Run(s, sched).slice) == multiset(s.slice)
    decreases |sched|
  {
    if |sched| > 0 {
      RunKeepsMultiset(Step(s, sched[0]), sched[1..]);
    }
  }

  /** Once `isSortedNow` holds, no later pass changes anything: not the slice, not the count,
      and no redraw is requested. */
  lemma {:induction false} RunFrozen(s: LoopState, sched: seq<seq<int>>)
    requires Schedule(|s.slice|, sched) && s.isSortedNow
    ensures Run(s, sched) == s
    decreases |sched|
  {
    if |sched| > 0 {
      RunFrozen(Step(s, sched[0]), sched[1..]);
    }
  }

  /** A slice that starts sorted is never shuffled: the first pass freezes the loop with
      `count` still 0 and requests the final redraw, and no later pass changes the state.
      In the program that final redraw, with iteration 0, panics on the integer division
      by zero operations per second (src/main.go:148); the model records the request only. */
  lemma SortedStartNeverShuffles(slice: seq<int>, sched: seq<seq<int>>)
    requires Schedule(|slice|, sched) && |sched| > 0
    requires Sortedness.Sorted(slice)
    ensures Run(Init(slice), sched) == LoopState(slice, 0, true, 1, [Frame(slice, 0, true)])
  {
    var first := Step(Init(slice), sched[0]);
    assert first == LoopState(slice, 0, true, 1, [Frame(slice, 0, true)]);
    RunFrozen(first, sched[1..]);
  }

  /** The loop's bookkeeping from its entry state, for every oracle outcome: while unsorted,
      `count` is the number of passes (modulo 2^64) and redraws come once per threshold
      passes; once sorted, the final redraw has been requested exactly once and shows the
      frozen slice; and the slice is always a permutation of the initial one. */
  lemma RunFromInit(slice: seq<int>, sched: seq<seq<int>>)
    requires Schedule(|slice|, sched)
    ensures multiset(Run(Init(slice), sched).slice) == multiset(slice)
    ensures Run(Init(slice), sched).isSortedNow ==> SortedFinal(Run(Init(slice), sched))
    ensures !Run(Init(slice), sched).isSortedNow ==> UnsortedAfter(Run(Init(slice), sched), |sched|)
  {
    RunKeepsMultiset(Init(slice), sched);
    RunBookkept(Init(slice), 0, sched);
  }

  /** The bookkeeping invariant survives any number of passes. */
  lemma {:induction false} RunBookkept(s: LoopState, k: nat, sched: seq<seq<int>>)
    requires Schedule(|s.slice|, sched) && Bookkept(s, k)
    ensures Bookkept(Run(s, sched), k + |sched|)
    decreases |sched|
  {
    if |sched| > 0 {
      StepBookkeeping(s, sched[0], k + 1);
      RunBookkept(Step(s, sched[0]), k + 1, sched[1..]);
    }
  }

  /** One pass keeps the bookkeeping invariant, counting one more pass. */
  lemma StepBookkeeping(prev: LoopState, picks: seq<int>, k: int)
    requires PicksFor(prev, picks) && k >= 1
    requires Bookkept(prev, k - 1)
    ensures Bookkept(Step(prev, picks), k)
  {
    if !prev.isSortedNow {
      if Sortedness.Sorted(prev.slice) {
        StepFreezes(prev, picks, k);
      } else {
        StepCounts(prev, picks, k);
      }
    }
  }

  /** The redraws requested by the throttle in a pass from `s`, before the sortedness check. */
  function ThrottledFrames(s: LoopState): (frames: seq<Frame>)
    ensures |frames| == |s.frames| + (if s.flag == Config.RenderThreshold then 1 else 0)
    ensures frames[..|s.frames|] == s.frames
    ensures FinalFrames(frames) == FinalFrames(s.frames)
    ensures s.flag == Config.RenderThreshold ==> frames[|s.frames|] == Frame(s.slice, s.count, false)
  {
    if s.flag == Config.RenderThreshold then
      var frames := s.frames + [Frame(s.slice, s.count, false)];
      assert frames[..|frames| - 1] == s.frames;
      frames
    else s.frames
  }

  lemma StepFreezes(prev: LoopState, picks: seq<int>, k: int)
    requires PicksFor(prev, picks) && k >= 1
    requires !prev.isSortedNow && UnsortedAfter(prev, k - 1) && Sortedness.Sorted(prev.slice)
    ensures SortedFinal(Step(prev, picks))
  {
    var t := Step(prev, picks);
    var frames := ThrottledFrames(prev);
    assert t.frames == frames + [Frame(prev.slice, prev.count, true)];
    assert t.frames[..|t.frames| - 1] == frames;
  }

  lemma StepCounts(prev: LoopState, picks: seq<int>, k: int)
    requires PicksFor(prev, picks) && k >= 1
    requires !prev.isSortedNow && UnsortedAfter(prev, k - 1) && !Sortedness.Sorted(prev.slice)
    ensures UnsortedAfter(Step(prev, picks), k)
  {
    var t := Step(prev, picks);
    assert t.count == (prev.count + 1) % Uint64Modulus;
    assert t.flag == (if prev.flag == Config.RenderThreshold then 0 else prev.flag) + 1;
    assert t.frames == ThrottledFrames(prev);
    CountTick(k);
    if k > 1 {
      ThrottleTick(k - 2);
    }
  }

  /** Incrementing a count of `k - 1` passes modulo 2^64 gives `k` modulo 2^64. */
  lemma CountTick(k: int)
    requires k >= 1
    ensures ((k - 1) % Uint64Modulus + 1) % Uint64Modulus == k % Uint64Modulus
  {
  }

  /** The throttle after pass `m + 2`, from the throttle after pass `m + 1`: the flag wraps
      from the threshold back to 1 exactly when a redraw is requested. */
  lemma ThrottleTick(m: nat)
    ensures (if m % Config.RenderThreshold + 1 == Config.RenderThreshold then 0 else m % Config.RenderThreshold + 1) + 1
      == (m + 1) % Config.RenderThreshold + 1
    ensures m / Config.RenderThreshold + (if m % Config.RenderThreshold + 1 == Config.RenderThreshold then 1 else 0)
      == (m + 1) / Config.RenderThreshold
  {
  }
}
