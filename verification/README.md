# Bogosort visualiser — a Dafny model

The program is a terminal demo of bogosort. It fills a slice of 15 integers with random
values in `[1, screenHeight]`. It then loops: while the slice is unsorted it shuffles it in
place and counts the shuffle. Every 150000 passes it redraws the slice as vertical bars. Once
the slice is sorted it draws the final state one last time and stops changing anything.
In the program, a redraw whose iteration count is too small to give at least one operation
per second panics in the integer division of the estimated-time line at src/main.go:148. The
final redraw of a slice already sorted at entry, with count 0, is one such redraw. The model records that redraw
but not the panic.

This project models the computational core of `src/main.go`:

- `Config` (`config.dfy`): the compile-time constants (surface 20 x 20, 15 elements,
  redraw every 150000 passes, bars 4 columns apart).
- `Rand` (`rand.dfy`): `rand.Intn` as an oracle method. Its body is a nondeterministic choice
  of a value in `[0, n)`, so callers can rely only on that range. Every property below
  therefore holds for every answer the generator could give. `myRand` is built on it.
- `Sortedness` (`sortedness.dfy`): `isSorted`, its adjacent-pair predicate and the equivalent
  global ordering.
- `Shuffle` (`shuffle.dfy`): `shuffleSlice`. `ShuffleWith(a, picks)` is the pure
  reference: step `i` swaps positions `i` and `picks[i]`, with `0 <= picks[i] <= i`.
  `ShuffleSlice` runs the swap loop on an array copy of the slice and returns the result. It
  also returns the oracle answers it drew, as a ghost value.
- `Generate` (`generate.dfy`): `sliceRandomInitialize`.
- `Factorial` (`factorial.dfy`): `factorial` on Go's `int64`, with wrap-around written out.
  It is compared against the mathematical factorial `Fact`.
- `MainLoop` (`mainloop.dfy`): one pass of the main loop as `Step` over the state
  `(slice, count, isSortedNow, flag, frames)`. `frames` records the `visualizeArray` calls.
  `Run` applies the step over a schedule of oracle answers.
- `Bars` (`bars.dfy`): the cell coordinates that `visualizeArray`'s two nested loops pass to
  `SetContent`.

Every shuffle is a permutation of its input (`ShuffleWithPermutes`). Conversely, every
permutation is produced by some sequence of oracle answers
(`ShuffleReachesEveryPermutation`). So the possible results of one shuffle are exactly the
permutations of the slice. There are exactly `n!` valid answer sequences, so for distinct
elements this is a bijection. That is why the scan with `j` in `[0, i]` can be an unbiased
shuffle. The probability claim itself is not stated in Dafny.

Three details of the code shape the model:
- The throttle flag starts at 0 and a redraw happens when it equals the threshold before the
  increment. So the first throttled redraw comes on pass 150001, and later ones come every
  150000 passes (`UnsortedAfter`).
- `count` is a `uint64`, and its increment wraps modulo 2^64.
- `screenWidth` is never consulted. With 15 elements the bars reach column 56.

## Model

| member | source | states |
|---|---|---|
| Rand.Intn | src/main.go:114 | the oracle answer for `rand.Intn(n)` lies in `[0, n)`, and `n > 0` is required because `rand.Intn` panics otherwise |
| Rand.MyRand | src/main.go:119-121 | for `min <= max` the result lies in the closed range `[min, max]` |
| Sortedness.IsSorted | src/main.go:123-130 | the scan answers true exactly when no adjacent pair decreases, hence on every slice of length 0 or 1; when it answers false, the prefix before the descent it found is sorted, so it is the first descent |
| Sortedness.SortedIffOrdered | src/main.go:123-130 | checking adjacent pairs is the same as every element being at most every later one |
| Sortedness.CheckerExamples | src/main.go:123-130 | `[1,2,2,3]` passes the check and `[2,1,3]` fails it |
| Shuffle.Swap | src/main.go:115 | the tuple swap keeps length and multiset |
| Shuffle.ShuffleWith | src/main.go:112-117 | applying the first `|picks|` swap steps keeps the slice length |
| Shuffle.ShuffleSlice | src/main.go:112-117 | the in-place loop has every index in bounds, since `j <= i < len`; its result has the input's length and multiset, and it equals the reference shuffle for the answers drawn, each in `[0, i]` |
| Shuffle.ShuffleWithPermutes | src/main.go:112-117 | for every oracle outcome the shuffle result is a permutation of the input, with the same multiset |
| Shuffle.ShuffleWithPrefix | src/main.go:113-115 | steps before position `k` never touch positions `k` and after |
| Shuffle.ShuffleReachesEveryPermutation | src/main.go:112-117 | every permutation of the input is the result for some valid oracle answers |
| Generate.SliceRandomInitialize | src/main.go:104-110 | for `len >= 0` the result has `len` elements, each in `[1, screenHeight]` |
| Factorial.WrapInt64 | src/main.go:186 | the Go `int64` product is the unique `int64` congruent to the true product modulo 2^64 |
| Factorial.Fact | src/main.go:179-187 | the reference factorial is at least 1 |
| Factorial.Factorial | src/main.go:179-187 | the result is an `int64`, and it is the sentinel -1 for negative input |
| Factorial.FactorialCongruent | src/main.go:179-187 | for `n >= 0` the `int64` result agrees with `n!` modulo 2^64 |
| Factorial.FactorialExact | src/main.go:179-187 | for `0 <= n <= 20` the result is exactly `n!`, so it is positive and fits in `int64` |
| Factorial.FactorialWrapsAt21 | src/main.go:179-187 | 21! exceeds the `int64` range, and the computed value is negative (-4249290049419214848) |
| Factorial.FactorialOfArraySize | src/main.go:148 | the call `factorial(int64(arraySize))` with `arraySize = 15` yields exactly 1307674368000 |
| MainLoop.Step | src/main.go:77-92 | a frozen state is unchanged; an unsorted slice is shuffled, `count` rises by one modulo 2^64 and the state stays unfrozen; a sorted slice freezes the loop with slice and count unchanged and a final redraw of it; the multiset is always kept |
| MainLoop.Run | src/main.go:77-92 | repeated passes keep the slice length |
| MainLoop.ThrottledFrames | src/main.go:80-83 | the earlier redraws are kept and the number of final redraws is unchanged; when the flag has reached the threshold exactly one redraw is added, showing the current slice and count as not sorted, and none otherwise |
| MainLoop.RunKeepsMultiset | src/main.go:85-88 | any number of passes keeps the slice's multiset |
| MainLoop.RunFrozen | src/main.go:78-92 | from a frozen state, later passes change neither the slice, nor the count, nor the redraws |
| MainLoop.SortedStartNeverShuffles | src/main.go:73-92 | a slice that is already sorted at entry is never shuffled: the first pass freezes it with `count = 0` and exactly one final redraw |
| MainLoop.RunFromInit | src/main.go:73-92 | from loop entry, for every oracle outcome: the multiset is kept; a frozen state has a sorted slice and exactly one final redraw showing it; an unfrozen state after `k` passes has `count = k mod 2^64`, flag `(k-1) mod 150000 + 1` and `(k-1) div 150000` redraws |
| MainLoop.RunBookkept | src/main.go:77-92 | the bookkeeping invariant, counting passes, survives any schedule |
| MainLoop.StepBookkeeping | src/main.go:77-92 | one pass keeps the bookkeeping invariant and counts one more pass |
| MainLoop.StepFreezes | src/main.go:88-91 | the pass that finds the slice sorted leaves exactly one final redraw, the last one, of the frozen slice and count |
| MainLoop.StepCounts | src/main.go:80-87 | an unsorted pass moves count, flag and number of redraws from their values after `k - 1` passes to those after `k` |
| Bars.BarHeight | src/main.go:136-139 | the number of cells drawn for a value is 0 for values below 1, the value itself up to `screenHeight`, and `screenHeight` above it |
| Bars.BarCells | src/main.go:135-143 | the cells written are exactly the bar cells: column `4*i` and the bottom `BarHeight(arr[i])` rows. Each is written once, in left-to-right, bottom-up order, the count is the sum of the bar heights, and every row is on the surface |

## Left out

- The tcell screen (`NewScreen`, `Init`, `SetStyle`, `SetContent`, `Show`, `Clear`, `Sync`,
  `Fini`) is a foreign terminal library and pure I/O. `Bars.BarCells` returns the coordinates
  instead of drawing them.
- The event-polling goroutine, `exitChan` and the `select` on it (src/main.go:57-71, 94-100)
  are concurrency and process exit.
- `time.Now`, `time.Since`, `time.Sleep` and the elapsed-time display are wall-clock
  effects. `Frame` therefore carries no elapsed time.
- The ops/sec figure and the estimated-time line (src/main.go:146-148) are not modelled,
  only the factorial they use. The ops/sec float64 division gives Inf or NaN rather than
  failing. The estimated time is an int64 division by `int64(operationsPerSecond)`. That is a
  Go runtime panic ("integer divide by zero") whenever the conversion gives 0, so whenever
  fewer than one iteration per second has been counted. This happens on the final redraw of a
  slice sorted at entry (`MainLoop.SortedStartNeverShuffles`, count 0). The program then dies
  in that redraw, before `Show` and `Fini`, with exit status 2, and never idles in the sorted
  state. The model's frames record the redraw request only.
- The in-place update of the caller's slice by `shuffleSlice` is modelled as a returned
  value. Nothing else refers to the slice, so the two agree.
- Factorial.Factorial: returns a value for every `int64`, while Go's `factorial` recurses `n`
  levels deep and would exhaust the goroutine stack for very large `n`. The program only calls
  `factorial(15)`.
- The `fmt.Sprintf` text of the status lines (src/main.go:145-175) is formatting only.
- Uniformity of the shuffle is a probability claim. Only the range of `j`, preservation of
  the multiset, and reachability of every permutation are modelled.
- Rand.MyRand: does not model the overflow of `max - min + 1` in Go's `int` for extreme
  bounds, because the program only calls it with `(1, 20)`.
- The fatal startup errors (`log.Fatalf`, src/main.go:45-51) are process aborts before the
  loop starts.
