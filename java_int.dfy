/** Java's 32-bit `int` and its remainder operator. */
module JavaInt {

  /** A Java `int`: every arithmetic result stored in one must be proved to fit. */
  newtype int32 = x: int | -0x8000_0000 <= x < 0x8000_0000

  const MIN_VALUE: int := -0x8000_0000
  const MAX_VALUE: int := 0x7fff_ffff

  function Abs(x: int): (r: nat)
  {
    if x < 0 then -x else x
  }

  function Min(a: int, b: int): (m: int)
    ensures m <= a && m <= b && (m == a || m == b)
  {
    if a <= b then a else b
  }

  /** Java's `a % b`: the remainder of division truncated toward zero, which takes the sign of `a`. */
  function Rem(a: int, b: int): (r: int)
    requires b != 0
  {
    if a >= 0 then a % Abs(b) else -((-a) % Abs(b))
  }

  /** If `n` is written as `m * q + r` with `0 <= r < m`, then `q` and `r` are Dafny's `n / m` and `n % m`. */
  lemma DivModUnique(n: int, m: int, q: int, r: int)
    requires m > 0 && 0 <= r < m && n == m * q + r
    ensures n / m == q && n % m == r
  {
    var k := n / m - q;
    assert m * k == r - n % m;
  }

  /** A multiple of `m` leaves Euclidean remainder 0, whatever the signs. */
  lemma MultipleModZero(n: int, m: int, q: int)
    requires m != 0 && n == m * q
    ensures n % m == 0
  {
    if m > 0 {
      DivModUnique(n, m, q, 0);
    } else {
      assert n == (-m) * (-q) + 0;
      DivModUnique(n, -m, -q, 0);
      assert n == (-m) * (-(n / m)) + n % m;
      DivModUnique(n, -m, -(n / m), n % m);
    }
  }

  /** `a` is a multiple of `b` exactly when `|a|` is a multiple of `|b|`. */
  lemma MultipleAbs(a: int, b: int, q: int)
    requires b != 0
    ensures a == b * q ==> Abs(a) == Abs(b) * Abs(q)
    ensures Abs(a) == Abs(b) * Abs(q) ==> a == b * (Abs(q) * (if (a < 0) == (b < 0) then 1 else -1))
  {
  }

  /** Java's `i % d == 0` and Dafny's Euclidean `i % d == 0` both say "`d` divides `i`". */
  lemma RemZeroIff(a: int, b: int)
    requires b != 0
    ensures Rem(a, b) == 0 <==> a % b == 0
  {
    var m := Abs(b);
    assert Rem(a, b) == 0 <==> Abs(a) % m == 0;
    if a % b == 0 {
      var q := a / b;
      assert a == b * q;
      MultipleAbs(a, b, q);
      MultipleModZero(Abs(a), m, Abs(q));
    }
    if Abs(a) % m == 0 {
      var q := Abs(a) / m;
      assert Abs(a) == m * q;
      MultipleAbs(a, b, q);
      MultipleModZero(a, b, Abs(q) * (if (a < 0) == (b < 0) then 1 else -1));
    }
  }
}
