/**
 * FutureTest's `main` without its timing and printing: the same call, `(0, MAX_NUMBER, 4)`, made
 * with each of the three strategies.
 */
module Demo {

  import opened JavaInt
  import opened Counting
  import opened FutureTest
  import opened ForkJoin

  /**
   * For the demo's inputs the count is 500,000,001 (the multiples 0, 4, ..., 2,000,000,000), and the
   * chunks starting at 0 reach past MAX_NUMBER, so the chunked sum loses nothing.
   */
  lemma DemoCount()
    ensures Count(0, MAX_NUMBER as int, 4) == 500_000_001
    ensures Reach(0, MAX_NUMBER as int) == 2_000_019_999
  {
    CountClosedForm(0, MAX_NUMBER as int, 4);
    ReachClosedForm(0, MAX_NUMBER as int);
  }

  /** The three calls of `main`: all three are within 32 bits and all three give 500,000,001. */
  method RunDemo() returns (basic: int32, executor: int32, forkJoin: int32)
    ensures basic == 500_000_001 && executor == 500_000_001 && forkJoin == 500_000_001
  {
    basic := DivisibleBy(0, MAX_NUMBER, 4);
    executor := DivisibleByFuture(0, MAX_NUMBER, 4);
    forkJoin := DivisibleByFutureFork(0, MAX_NUMBER, 4);
    DemoCount();
  }
}
