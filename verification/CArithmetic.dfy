/** The C integer operators whose rounding differs from Dafny's, and finite sums. */
module CArithmetic {

  /** C's '/' on int: the quotient is rounded toward zero. */
  function TruncDiv(a: int, b: int): (q: int)
    requires b != 0
  {
    if a >= 0 then a / b else -((-a) / b)
  }

  /** C's '>>' by 16 of a signed int, as compilers implement it: rounds down. */
  function Shr16(a: int): (q: int)
    ensures q * 0x1_0000 <= a < (q + 1) * 0x1_0000
  {
    a / 0x1_0000
  }

  lemma MulNonNegative(x: int, y: int)
    requires x >= 0 && y >= 0
    ensures x * y >= 0
  {
  }

  lemma MulOrder(x: int, y: int, n: int)
    requires n > 0
    ensures x <= y <==> x * n <= y * n
  {
    assert (y - x) * n == y * n - x * n;
    if x <= y {
      MulNonNegative(y - x, n);
    } else {
      MulNonNegative(x - y - 1, n);
      assert (x - y - 1) * n == x * n - y * n - n;
    }
  }

  /** The truncated quotient by a positive divisor is the one quotient whose remainder has
      the sign of the dividend and is smaller than the divisor. */
  lemma TruncDivPositive(a: int, b: int)
    requires b > 0
    ensures a >= 0 ==> 0 <= TruncDiv(a, b) && TruncDiv(a, b) * b <= a < TruncDiv(a, b) * b + b
    ensures a <= 0 ==> TruncDiv(a, b) <= 0 && TruncDiv(a, b) * b - b < a <= TruncDiv(a, b) * b
  {
  }

  lemma TruncDivMonotone(a: int, a': int, b: int)
    requires b > 0 && a <= a'
    ensures TruncDiv(a, b) <= TruncDiv(a', b)
  {
    TruncDivPositive(a, b);
    TruncDivPositive(a', b);
    MulOrder(TruncDiv(a', b) + 1, TruncDiv(a, b), b);
  }

  /** A truncated mean lies between any integer bounds on the items it averages. */
  lemma TruncDivBetween(a: int, n: int, lo: int, hi: int)
    requires n > 0 && lo * n <= a <= hi * n
    ensures lo <= TruncDiv(a, n) <= hi
  {
    TruncDivPositive(a, n);
    var q := TruncDiv(a, n);
    MulOrder(q + 1, lo, n);
    MulOrder(hi + 1, q, n);
  }

  /** f(0) + ... + f(n-1) */
  ghost function Sum(n: nat, f: int -> int): int {
    if n == 0 then 0 else Sum(n - 1, f) + f(n - 1)
  }

  lemma {:induction false} SumExtensional(n: nat, f: int -> int, g: int -> int)
    requires forall i :: 0 <= i < n ==> f(i) == g(i)
    ensures Sum(n, f) == Sum(n, g)
  {
    if n > 0 { SumExtensional(n - 1, f, g); }
  }

  lemma {:induction false} SumAppend(m: nat, n: nat, f: int -> int)
    ensures Sum(m + n, f) == Sum(m, f) + Sum(n, j => f(m + j))
  {
    if n > 0 {
      SumAppend(m, n - 1, f);
      assert m + n - 1 == m + (n - 1);
    }
  }

  /** A sum over m*n consecutive indices is m row sums of n items each. */
  lemma {:induction false} SumRows(m: nat, n: nat, f: int -> int)
    ensures m * n >= 0
    ensures Sum(m * n, f) == Sum(m, i => Sum(n, j => f(i * n + j)))
  {
    var row := i => Sum(n, j => f(i * n + j));
    if m > 0 {
      SumRows(m - 1, n, f);
      assert m * n == (m - 1) * n + n;
      SumAppend((m - 1) * n, n, f);
    }
  }

  lemma {:induction false} SumBetween(n: nat, f: int -> int, lo: int, hi: int)
    requires forall i :: 0 <= i < n ==> lo <= f(i) <= hi
    ensures lo * n <= Sum(n, f) <= hi * n
  {
    if n > 0 {
      SumBetween(n - 1, f, lo, hi);
      assert lo * n == lo * (n - 1) + lo && hi * n == hi * (n - 1) + hi;
    }
  }
}
