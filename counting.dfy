/** The quantity all three strategies compute: how many integers of `[first, last]` the divisor divides. */
module Counting {

  import JavaInt

  /** The number of `i` with `first <= i <= last` that `divisor` divides (counted from the top end). */
  function Count(first: int, last: int, divisor: int): (r: nat)
    requires divisor != 0
    ensures first > last ==> r == 0
    ensures first <= last ==> r <= last - first + 1
    decreases last - first
  {
    if first > last then 0
    else Count(first, last - 1, divisor) + (if last % divisor == 0 then 1 else 0)
  }

  /** The multiples of `divisor` in `[first, last]`, as a set. */
  function Multiples(first: int, last: int, divisor: int): set<int>
    requires divisor != 0
  {
    set i | first <= i <= last && i % divisor == 0
  }

  /** Count is exactly the number of multiples in the range. */
  lemma {:induction false} CountIsCardinality(first: int, last: int, divisor: int)
    requires divisor != 0
    ensures Count(first, last, divisor) == |Multiples(first, last, divisor)|
    decreases last - first
  {
    if first > last {
      assert Multiples(first, last, divisor) == {};
    } else {
      CountIsCardinality(first, last - 1, divisor);
      var below := Multiples(first, last - 1, divisor);
      if last % divisor == 0 {
        assert Multiples(first, last, divisor) == below + {last};
        assert last !in below;
      } else {
        assert Multiples(first, last, divisor) == below;
      }
    }
  }

  /** Additivity: cutting `[first, last]` after `mid` splits the count into the counts of the two parts. */
  lemma {:induction false} CountSplit(first: int, mid: int, last: int, divisor: int)
    requires divisor != 0
    requires first - 1 <= mid <= last
    ensures Count(first, last, divisor) == Count(first, mid, divisor) + Count(mid + 1, last, divisor)
    decreases last - mid
  {
    if mid < last {
      CountSplit(first, mid, last - 1, divisor);
    }
  }

  /** One step of the closed form: `x` adds one to `x / d` exactly when `d` divides it. */
  lemma DivStep(x: int, d: int)
    requires d > 0
    ensures x / d - (x - 1) / d == if x % d == 0 then 1 else 0
  {
    var q, r := x / d, x % d;
    assert x == d * q + r;
    if r == 0 {
      assert x - 1 == d * (q - 1) + (d - 1);
      JavaInt.DivModUnique(x - 1, d, q - 1, d - 1);
    } else {
      assert x - 1 == d * q + (r - 1);
      JavaInt.DivModUnique(x - 1, d, q, r - 1);
    }
  }

  /** For a positive divisor the count has the closed form `last / d - (first - 1) / d`. */
  lemma {:induction false} CountClosedForm(first: int, last: int, d: int)
    requires d > 0
    requires first - 1 <= last
    ensures Count(first, last, d) == last / d - (first - 1) / d
    decreases last - first
  {
    if first <= last {
      CountClosedForm(first, last - 1, d);
      DivStep(last, d);
    }
  }

  /** With divisor 1 every integer of the range is counted. */
  lemma {:induction false} CountDivisorOne(first: int, last: int)
    requires first - 1 <= last
    ensures Count(first, last, 1) == last - first + 1
    decreases last - first
  {
    if first <= last {
      CountDivisorOne(first, last - 1);
    }
  }

  /** A one-element range counts 1 if the divisor divides its element, else 0. */
  lemma CountSingle(x: int, divisor: int)
    requires divisor != 0
    ensures Count(x, x, divisor) == if x % divisor == 0 then 1 else 0
  {
  }
}
