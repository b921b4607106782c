# Counting multiples three ways: sequential, chunked futures, fork/join

`FutureTest` counts the integers of a closed range `[first, last]` that a divisor divides, in
three ways:

- `divisibleBy` walks the range one integer at a time;
- `divisibleByFuture` cuts it into chunks of `THRESHOLD + 1` integers, submits one future per
  chunk to a fixed thread pool and adds up what the futures yield;
- `divisibleByFutureFork` runs a `DivisbleBy` fork/join task that splits its range in two until
  a piece spans at most `THRESHOLD`, counts the pieces directly and adds the halves back up.

The program's point is that the three agree. This model states that as theorems and says
exactly when it holds.

Layout, one module per concern:

- `java_int.dfy`, module `JavaInt`: Java's `int` as the newtype `int32`. Every sum and difference
  the Java code stores in an `int` is an `int32` operation here, so the verifier checks that none
  of them wraps. The module also has Java's truncating `%` (`Rem`), proved to test divisibility
  exactly as Dafny's Euclidean `%` does.
- `counting.dfy`, module `Counting`: `Count`, the reference count that all three strategies are
  proved against. Its lemmas cover the cardinality of the set of multiples, additivity over a cut
  point, and the closed form `last / d - (first - 1) / d`.
- `future_test.dfy`, module `FutureTest`: the constants `MAX_NUMBER` and `THRESHOLD`, the
  sequential loop, and the two loops of `divisibleByFuture`. The chunk specification is `Chunks`,
  `ChunkSum` and `Reach`, with its lemmas.
- `fork_join.dfy`, module `ForkJoin`: the task `DivisbleBy` as the value `Task`, its split, the
  recursive `compute` as a function, `computeDirectly` as a loop, and the leaves of the task tree.
- `demo.dfy`, module `Demo`: the three calls of `main`.

Each future and each forked task is modelled by the value it yields. The chunk loop's guard is
`i < MAX_NUMBER`, not `i <= last`. So the chunked sum counts `[first, min(last, Reach)]`, where
`Reach` is the last integer the final chunk could cover. The sum equals the sequential count
exactly when no multiple of the divisor lies in `[Reach + 1, last]`; for divisor 1, exactly when
`last <= Reach`. `last < MAX_NUMBER` is always enough.

In `compute` the left range `[first, first + amount/2]` holds `ceil(n/2)` of the `n` integers
and the right range `[first + amount/2 + 1, last]` holds `floor(n/2)`. An empty range
(`first > last`) counts 0.

## Model

| member | source | states |
|---|---|---|
| `JavaInt.RemZeroIff` | FutureTest.java:48 | Java's `i % divisor == 0` holds exactly when the divisor divides `i`, the test the reference count uses, for every sign of either operand |
| `Counting.Count` | FutureTest.java:45-53 | the count is 0 for an empty range (`first > last`) and never exceeds the `last - first + 1` integers of a non-empty one |
| `Counting.CountIsCardinality` | FutureTest.java:45-53 | the count equals the number of elements of the set of multiples of the divisor in `[first, last]` |
| `Counting.CountSplit` | FutureTest.java:124 | additivity: for any cut `first - 1 <= mid <= last`, `count(first, last) = count(first, mid) + count(mid + 1, last)` |
| `Counting.CountClosedForm` | FutureTest.java:45-53 | for a positive divisor the count is `last / d - (first - 1) / d`, an independent reference definition |
| `Counting.CountDivisorOne` | FutureTest.java:45-53 | with divisor 1 every integer of the range is counted: the result is `last - first + 1` |
| `Counting.CountSingle` | FutureTest.java:45-53 | a one-element range counts 1 if the divisor divides its element, else 0 |
| `FutureTest.DivisibleBy` | FutureTest.java:45-53 | the sequential loop returns the reference count of `[first, last]`, and no `i++` or `count++` leaves 32 bits |
| `FutureTest.ChunkAt` | FutureTest.java:64-66 | chunk `k` starts at `first + k * (THRESHOLD + 1)`, below the bound, and is `[start, min(last, start + THRESHOLD)]` |
| `FutureTest.ChunkCount` | FutureTest.java:64 | the loop submits exactly the starts below the bound: the last start is below it and the next one would not be |
| `FutureTest.ChunksWellFormed` | FutureTest.java:65-66 | every chunk holds at most `THRESHOLD + 1` integers, and one that starts past `last` is empty (`lst < fst`) |
| `FutureTest.ChunksAdjacent` | FutureTest.java:64-66 | consecutive chunks are disjoint and in order, and adjacent unless `last` clipped the earlier one |
| `FutureTest.ReachClosedForm` | FutureTest.java:64 | the last integer the chunks can cover is `first + ((bound - 1 - first) / (THRESHOLD + 1)) * (THRESHOLD + 1) + THRESHOLD` |
| `FutureTest.ReachEndsBeforeBound` | FutureTest.java:64 | the chunks stop at `bound - 1` exactly when `(bound - first) % (THRESHOLD + 1) == 0`, that is when the bound would be the next start |
| `FutureTest.ChunkSumCoverage` | FutureTest.java:64-75 | the chunked sum plus the count of `[Reach + 1, last]` is the sequential count of `[first, last]`, for any bound and any range |
| `FutureTest.ChunkSumIsPrefixCount` | FutureTest.java:64-75 | the chunked sum is the sequential count of `[first, min(last, Reach)]` |
| `FutureTest.ChunkedMatchesBelowMax` | FutureTest.java:64-75 | with the source's bound MAX_NUMBER the chunked sum equals the sequential count whenever `last < MAX_NUMBER` |
| `FutureTest.ChunkedMatchesExactly` | FutureTest.java:64-75 | the chunked sum equals the sequential count exactly when no multiple of the divisor lies in `[Reach + 1, last]` |
| `FutureTest.ChunkedMatchesIff` | FutureTest.java:64-75 | `last <= Reach` makes the chunked sum equal the sequential count for every divisor; with divisor 1 they are equal only then |
| `FutureTest.ChunkedMissesMaxNumber` | FutureTest.java:64 | when MAX_NUMBER would be the next chunk start and the divisor divides it, the chunked sum over `[first, MAX_NUMBER]` is one short |
| `FutureTest.ChunkedMissesMaxNumberExample` | FutureTest.java:64 | for `(1_999_899_999, MAX_NUMBER, 4)` the chunked sum is 25,000 while the sequential count is 25,001 |
| `FutureTest.ChunkTask` | FutureTest.java:65-69 | one future yields the sequential count of `[i, min(last, i + THRESHOLD)]`, computed without leaving 32 bits |
| `FutureTest.SubmitChunks` | FutureTest.java:64-71 | the task list has one entry per chunk of `Chunks`, in order, each holding that chunk's count |
| `FutureTest.JoinAll` | FutureTest.java:73-75 | adding up the task list in order gives the sum of the chunk counts, with no partial sum wrapping |
| `FutureTest.SubmitAndJoin` | FutureTest.java:58-79 | both loops together return the sequential count of `[first, min(last, Reach)]` |
| `FutureTest.DivisibleByFuture` | FutureTest.java:58-79 | divisibleByFuture returns the count of `[first, min(last, Reach)]`, which is the sequential count of `[first, last]` whenever `last < MAX_NUMBER` |
| `FutureTest.DivisibleByFutureToLast` | FutureTest.java:64 | with the guard `i <= last` the chunked sum equals the sequential count of `[first, last]` for every range that fits |
| `ForkJoin.Split` | FutureTest.java:114-122 | the halves are non-empty, adjacent, cover the parent exactly, hold `ceil(n/2)` and `floor(n/2)` integers, and both have a smaller span, so the recursion ends |
| `ForkJoin.ComputeDirectly` | FutureTest.java:130-138 | the base-case loop returns the reference count of the task's range, the same as divisibleBy over that range, under the same requirements as divisibleBy |
| `ForkJoin.Compute` | FutureTest.java:113-127 | the recursive compute, evaluated right half first as in `right.compute() + left.join()`, equals the sequential count of the task's range and stays within 32 bits |
| `ForkJoin.DivisibleByFutureFork` | FutureTest.java:84-91 | the fork/join entry point returns the sequential count of `[first, last]` |
| `ForkJoin.LeavesTile` | FutureTest.java:113-127 | the base-case ranges of a run start at `first`, end at `last` and follow one another without gap or overlap; each spans at most THRESHOLD and none is empty when the root is not |
| `ForkJoin.ComputeIsLeafSum` | FutureTest.java:113-127 | compute returns the sum of the direct counts of its base-case ranges |
| `Demo.DemoCount` | FutureTest.java:19-20 | for `(0, MAX_NUMBER, 4)` the count is 500,000,001, and the chunks starting at 0 reach 2,000,019,999, past MAX_NUMBER |
| `Demo.RunDemo` | FutureTest.java:22-40 | `main`'s three calls on `(0, MAX_NUMBER, 4)` all return 500,000,001, and none of them overflows |

## Left out

- Thread pools, scheduling and work stealing are not modelled: `Executors.newFixedThreadPool`, `ForkJoinPool`, the timing of `fork`/`join` and `getStealCount`. Each future and each forked task is its result value. Nothing else in the program depends on when tasks run.
- `NUM_THREADS` is not modelled. It changes only parallelism, never a result.
- Timing and printing are not modelled: `System.currentTimeMillis` and every `System.out.println` in `main` and `divisibleByFutureFork`.
- The `RecursiveTask` inheritance is not modelled. A `DivisbleBy` task is the value `Task`, and its constructor only stores the three fields.
- Division by zero is not modelled: every counting member requires a non-zero divisor. Java would throw `ArithmeticException` on the first `%` of a non-empty range.
- `FutureTest.DivisibleBy`: requires `last < Integer.MAX_VALUE`. Java's `i++` would wrap there and the loop would never end.
- `FutureTest.DivisibleBy`: requires `last - first < Integer.MAX_VALUE` for a non-empty range, so `count` cannot wrap. Java's silent wrap of `count` on wider ranges is not modelled.
- `ForkJoin.ComputeDirectly`: has the same two requirements as `FutureTest.DivisibleBy`: `last < Integer.MAX_VALUE`, and `last - first < Integer.MAX_VALUE` for a non-empty range.
- `ForkJoin.Compute`: requires, through `Valid`, a non-zero divisor and three conditions on the range:
  - `MIN_VALUE <= last - first`. Otherwise Java's `amount` wraps, for example `(2_000_000_000, -2_000_000_000)`, and a wrapped positive `amount` would make an empty range split.
  - `last - first < MAX_VALUE`. This keeps the top-level sum, which can reach `last - first + 1`, inside an `int`.
  - `last < MAX_VALUE`. The rightmost leaf ends at `last`, and its `i++` loop would never end there.
- `ForkJoin.DivisibleByFutureFork`: has the same requirements as `ForkJoin.Compute`, through `Valid`.
- `FutureTest.DivisibleByFuture`: requires `MAX_NUMBER + THRESHOLD - first <= Integer.MAX_VALUE`. This keeps the running sum within 32 bits. Starts far below 0 with a small divisor would make Java's `count` wrap, and that is not modelled.
- Threshold invariance is not modelled. `THRESHOLD` is a constant in the source, so varying it is outside what the code does. The proof that `Compute` equals the sequential count does not use its value.

## Findings

| source | as written | input that shows it | evidently intended | confidence | as-written member | corrected member |
|---|---|---|---|---|---|---|
| FutureTest.java:64 | the chunk loop runs while `i < MAX_NUMBER`, whatever `last` is | `(1_999_899_999, 2_000_000_000, 4)`: the chunked sum is 25,000, the sequential count 25,001 (more generally, the sum is short whenever a multiple of the divisor lies in `[Reach + 1, last]`) | chunks while `i <= last`, so the chunks cover `[first, last]` | not executed; high | `FutureTest.ChunkedMissesMaxNumberExample` | `FutureTest.DivisibleByFutureToLast` |

`main` calls `divisibleByFuture` as written, so `Demo.RunDemo` uses `FutureTest.DivisibleByFuture`. For the demo's input the as-written loop is correct (`Demo.DemoCount`).
