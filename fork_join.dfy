/**
 * The fork/join side of FutureTest: the task class `DivisbleBy` and the entry point
 * `divisibleByFutureFork`. A task's fields are set once by its constructor, so a task is a value;
 * a forked task is modelled by the value its `join` yields, and the pool that runs it is left out.
 */
module ForkJoin {

  import opened JavaInt
  import opened Counting
  import opened FutureTest

  /** A `DivisbleBy` task: count the multiples of `divisor` in `[first, last]`. */
  datatype Task = Task(first: int32, last: int32, divisor: int32)

  /** The task's `amount`, `last - first`, read as a mathematical integer. */
  function Span(t: Task): (r: int)
  {
    t.last as int - t.first as int
  }

  /** The number of integers in the task's range. */
  function Size(t: Task): (r: int)
  {
    Span(t) + 1
  }

  /**
   * What `compute` needs of a task: a non-zero divisor, `last - first` that Java computes without
   * wrapping, a result that fits in an `int`, and `last < MAX_VALUE` so that `i++` in
   * computeDirectly cannot wrap.
   */
  predicate Valid(t: Task)
  {
    t.divisor != 0 && t.last as int < MAX_VALUE && MIN_VALUE <= Span(t) < MAX_VALUE
  }

  /**
   * The split of `compute`: with `amount = last - first`, left is `[first, first + amount / 2]` and
   * right is `[first + amount / 2 + 1, last]`. The two are non-empty, adjacent and cover the parent;
   * left holds `ceil(n / 2)` and right `floor(n / 2)` of the parent's `n` integers, and both spans
   * shrink, which is why the recursion ends.
   */
  function Split(t: Task): (children: (Task, Task))
    requires Valid(t) && Span(t) > THRESHOLD as int
    ensures var (left, right) := children;
      left.first == t.first && right.last == t.last &&
      left.last as int + 1 == right.first as int &&
      left.first <= left.last && right.first <= right.last &&
      Size(left) == (Size(t) + 1) / 2 && Size(right) == Size(t) / 2 &&
      0 <= Span(left) < Span(t) && 0 <= Span(right) < Span(t) &&
      left.divisor == t.divisor && right.divisor == t.divisor &&
      Valid(left) && Valid(right)
  {
    var amount := t.last - t.first;
    var half := amount / 2;
    (Task(t.first, t.first + half, t.divisor), Task(t.first + half + 1, t.last, t.divisor))
  }

  /**
   * computeDirectly: the base case's loop over `[first, last]`. It is the same count as the
   * sequential divisibleBy, which shares its specification Count.
   */
  method ComputeDirectly(t: Task) returns (count: int32)
    requires t.divisor != 0
    requires t.last as int < MAX_VALUE
    requires t.first <= t.last ==> Span(t) < MAX_VALUE
    ensures count as int == Count(t.first as int, t.last as int, t.divisor as int)
  {
    count := 0;
    var i := t.first;
    while i <= t.last
      invariant t.first <= i
      invariant i as int <= if t.first <= t.last then t.last as int + 1 else t.first as int
      invariant count as int == Count(t.first as int, i as int - 1, t.divisor as int)
      decreases t.last as int - i as int
    {
      RemZeroIff(i as int, t.divisor as int);
      if Rem(i as int, t.divisor as int) == 0 {
        count := count + 1;
      }
      i := i + 1;
    }
  }

  /**
   * compute: at or below THRESHOLD the count of the range (what computeDirectly returns), above it
   * `right.compute() + left.join()`. Whatever the order the two halves are evaluated in, the result
   * is the sequential count of the whole range, and the sum never leaves 32 bits.
   */
  function Compute(t: Task): (r: int32)
    requires Valid(t)
    ensures r as int == Count(t.first as int, t.last as int, t.divisor as int)
    decreases Span(t)
  {
    if t.last - t.first <= THRESHOLD then
      Count(t.first as int, t.last as int, t.divisor as int) as int32
    else
      var (left, right) := Split(t);
      CountSplit(t.first as int, left.last as int, t.last as int, t.divisor as int);
      Compute(right) + Compute(left)
  }

  /** divisibleByFutureFork: the pool invokes the root task over the whole range. */
  function DivisibleByFutureFork(first: int32, last: int32, divisor: int32): (r: int32)
    requires Valid(Task(first, last, divisor))
    ensures r as int == Count(first as int, last as int, divisor as int)
  {
    Compute(Task(first, last, divisor))
  }

  /**
   * The ranges `compute` ends up counting directly, left to right: they start at the root's `first`,
   * end at its `last`, follow one another without gap or overlap, each spans at most THRESHOLD,
   * and when the root is non-empty none of them is empty.
   */
  function Leaves(t: Task): (leaves: seq<Task>)
    requires Valid(t)
    decreases Span(t)
  {
    if Span(t) <= THRESHOLD as int then [t]
    else
      var (left, right) := Split(t);
      Leaves(left) + Leaves(right)
  }

  /** The leaves tile the root's range: no integer is skipped or counted twice. */
  predicate Tiles(leaves: seq<Task>, first: int, last: int)
  {
    |leaves| > 0 &&
    leaves[0].first as int == first && leaves[|leaves| - 1].last as int == last &&
    forall k :: 0 <= k < |leaves| - 1 ==> leaves[k].last as int + 1 == leaves[k + 1].first as int
  }

  /** Partition completeness: the base-case ranges of a run tile the root range, each small and valid. */
  lemma {:induction false} LeavesTile(t: Task)
    requires Valid(t)
    ensures Tiles(Leaves(t), t.first as int, t.last as int)
    ensures forall k :: 0 <= k < |Leaves(t)| ==>
      Valid(Leaves(t)[k]) && Span(Leaves(t)[k]) <= THRESHOLD as int && Leaves(t)[k].divisor == t.divisor &&
      (t.first <= t.last ==> Leaves(t)[k].first <= Leaves(t)[k].last)
    decreases Span(t)
  {
    if Span(t) > THRESHOLD as int {
      var (left, right) := Split(t);
      LeavesTile(left);
      LeavesTile(right);
      var ls: seq<Task>, rs: seq<Task> := Leaves(left), Leaves(right);
      assert Leaves(t) == ls + rs;
      forall k | 0 <= k < |ls + rs| - 1
        ensures (ls + rs)[k].last as int + 1 == (ls + rs)[k + 1].first as int
      {
        if k < |ls| - 1 {
        } else if k == |ls| - 1 {
        } else {
          assert (ls + rs)[k] == rs[k - |ls|] && (ls + rs)[k + 1] == rs[k - |ls| + 1];
        }
      }
    }
  }

  /** The sum of the direct counts of a sequence of tasks. */
  function LeafSum(leaves: seq<Task>): (r: int)
    requires forall k :: 0 <= k < |leaves| ==> leaves[k].divisor != 0
  {
    if leaves == [] then 0
    else Count(leaves[0].first as int, leaves[0].last as int, leaves[0].divisor as int) + LeafSum(leaves[1..])
  }

  lemma {:induction false} LeafSumAppend(a: seq<Task>, b: seq<Task>)
    requires forall k :: 0 <= k < |a| ==> a[k].divisor != 0
    requires forall k :: 0 <= k < |b| ==> b[k].divisor != 0
    ensures LeafSum(a + b) == LeafSum(a) + LeafSum(b)
  {
    if a != [] {
      assert (a + b)[1..] == a[1..] + b;
      LeafSumAppend(a[1..], b);
    } else {
      assert a + b == b;
    }
  }

  /** What `compute` returns is the sum of the direct counts of its leaves. */
  lemma {:induction false} ComputeIsLeafSum(t: Task)
    requires Valid(t)
    ensures forall k :: 0 <= k < |Leaves(t)| ==> Leaves(t)[k].divisor != 0
    ensures Compute(t) as int == LeafSum(Leaves(t))
    decreases Span(t)
  {
    LeavesTile(t);
    if Span(t) > THRESHOLD as int {
      var (left, right) := Split(t);
      ComputeIsLeafSum(left);
      ComputeIsLeafSum(right);
      LeafSumAppend(Leaves(left), Leaves(right));
    }
  }
}
