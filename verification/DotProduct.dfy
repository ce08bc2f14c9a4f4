/** The INT8 dot products of arch_cpu.h. The data operand is always read through a pointer into a
    buffer (here an array and an offset); the weights stay in read-only model memory. */
module DotProduct {
  import opened Bytes
  import opened CArithmetic

  /** The longest operand for which no partial sum can leave int32. */
  const MAX_SIZE := 131071

  /** C promotes both int8 operands to int before it multiplies. */
  function Mul(x: int8, y: int8): (p: int)
    ensures -16256 <= p <= 16384
  {
    var x': int, y': int := x, y;
    assert -16256 <= x' * y' <= 16384 by {
      MulBounds(x', y');
    }
    x' * y'
  }

  lemma MulBounds(x: int, y: int)
    requires -128 <= x <= 127 && -128 <= y <= 127
    ensures -16256 <= x * y <= 16384
  {
    if x > 0 {
      MulOrder(-128, y, x);
      MulOrder(y, 127, x);
    } else if x < 0 {
      MulOrder(-128, y, -x);
      MulOrder(y, 127, -x);
      assert y * -x == -(x * y);
    }
  }

  ghost function Products(a: seq<int8>, b: seq<int8>): int -> int {
    i => if 0 <= i < |a| && i < |b| then Mul(a[i], b[i]) else 0
  }

  /** a[0]*b[0] + a[1]*b[1] + ... */
  ghost function Dot(a: seq<int8>, b: seq<int8>): int
    requires |a| == |b|
  {
    Sum(|a|, Products(a, b))
  }

  /** Every partial sum of n products lies between -16256*n and 16384*n. */
  lemma {:induction false} PartialSumBound(a: seq<int8>, b: seq<int8>, n: nat)
    ensures -16256 * n <= Sum(n, Products(a, b)) <= 16384 * n
  {
    var f := Products(a, b);
    SumBetween(n, f, -16256, 16384);
  }

  /** One more product keeps the accumulator in int32 while n < MAX_SIZE. */
  lemma Accumulate(a: seq<int8>, b: seq<int8>, n: nat)
    requires n < |a| == |b| <= MAX_SIZE
    ensures Sum(n + 1, Products(a, b)) == Sum(n, Products(a, b)) + Mul(a[n], b[n])
    ensures -0x8000_0000 <= Sum(n + 1, Products(a, b)) < 0x8000_0000
  {
    PartialSumBound(a, b, n + 1);
  }

  /** The bound MAX_SIZE is the largest possible: one more product of -128 by -128 and the sum
      is exactly 2^31. */
  lemma MaxSizeIsTight(a: seq<int8>)
    requires |a| == MAX_SIZE + 1 && forall i :: 0 <= i < |a| ==> a[i] == -128
    ensures Dot(a, a) == 0x8000_0000
  {
    var f := Products(a, a);
    SumBetween(|a|, f, 16384, 16384);
  }

  /** The operand that a pointer at offset off into s walks over. */
  ghost predicate Operand(a: seq<int8>, s: seq<int8>, off: nat) {
    off + |a| <= |s| && forall i :: 0 <= i < |a| ==> a[i] == s[off + i]
  }

  lemma NoProducts(a: seq<int8>, b: seq<int8>)
    ensures Sum(0, Products(a, b)) == 0
  {
  }

  /** One line of the unrolled loops: sum += sptr[i] * kptr[i]; i++. */
  method MulAdd(s: array<int8>, so: nat, k: seq<int8>, ko: nat,
                ghost a: seq<int8>, ghost b: seq<int8>, sum: int32, i: nat)
    returns (sum': int32, i': nat)
    requires i < |a| == |b| <= MAX_SIZE && so + i < s.Length && ko + i < |k|
    requires a[i] == s[so + i] && b[i] == k[ko + i] && sum == Sum(i, Products(a, b))
    ensures i' == i + 1 && sum' == Sum(i', Products(a, b))
  {
    Accumulate(a, b, i);
    sum', i' := sum + Mul(s[so + i], k[ko + i]), i + 1;
  }

  /** tm_dot_prod: eight products a turn over the largest multiple of eight, then the rest. */
  method DotProd(s: array<int8>, so: nat, k: seq<int8>, ko: nat, size: nat,
                 ghost a: seq<int8>, ghost b: seq<int8>) returns (sum: int32)
    requires |a| == |b| == size <= MAX_SIZE && Operand(a, s[..], so) && Operand(b, k, ko)
    ensures sum == Dot(a, b)
  {
    hide Sum, Products;
    sum := 0;
    NoProducts(a, b);
    var i := 0;
    var cnt := size / 8 * 8;
    assert cnt <= size;
    while i + 8 - 1 < cnt
      invariant 0 <= i <= cnt <= size
      invariant sum == Sum(i, Products(a, b))
    {
      sum, i := MulAdd(s, so, k, ko, a, b, sum, i);
      sum, i := MulAdd(s, so, k, ko, a, b, sum, i);
      sum, i := MulAdd(s, so, k, ko, a, b, sum, i);
      sum, i := MulAdd(s, so, k, ko, a, b, sum, i);
      sum, i := MulAdd(s, so, k, ko, a, b, sum, i);
      sum, i := MulAdd(s, so, k, ko, a, b, sum, i);
      sum, i := MulAdd(s, so, k, ko, a, b, sum, i);
      sum, i := MulAdd(s, so, k, ko, a, b, sum, i);
    }
    while i < size
      invariant 0 <= i <= size
      invariant sum == Sum(i, Products(a, b))
    {
      sum, i := MulAdd(s, so, k, ko, a, b, sum, i);
    }
  }

  /** One line of tm_dot_prod_pack2: the same datum goes into both sums. */
  method MulAdd2(s: array<int8>, so: nat, k: seq<int8>, k0: nat, k1: nat,
                 ghost a: seq<int8>, ghost b0: seq<int8>, ghost b1: seq<int8>,
                 sum0: int32, sum1: int32, i: nat)
    returns (sum0': int32, sum1': int32, i': nat)
    requires i < |a| == |b0| == |b1| <= MAX_SIZE
    requires so + i < s.Length && k0 + i < |k| && k1 + i < |k|
    requires a[i] == s[so + i] && b0[i] == k[k0 + i] && b1[i] == k[k1 + i]
    requires sum0 == Sum(i, Products(a, b0)) && sum1 == Sum(i, Products(a, b1))
    ensures i' == i + 1 && sum0' == Sum(i', Products(a, b0)) && sum1' == Sum(i', Products(a, b1))
  {
    sum0', i' := MulAdd(s, so, k, k0, a, b0, sum0, i);
    sum1', i' := MulAdd(s, so, k, k1, a, b1, sum1, i);
  }

  /** tm_dot_prod_pack2: one data operand against two consecutive weight rows. */
  method DotProdPack2(s: array<int8>, so: nat, k: seq<int8>, ko: nat, size: nat, result: array<int>,
                      ghost a: seq<int8>, ghost b0: seq<int8>, ghost b1: seq<int8>)
    requires |a| == |b0| == |b1| == size <= MAX_SIZE && result.Length == 2
    requires Operand(a, s[..], so) && Operand(b0, k, ko) && Operand(b1, k, ko + size)
    modifies result
    ensures result[0] == Dot(a, b0) && result[1] == Dot(a, b1)
  {
    hide Sum, Products;
    var k0, k1 := ko, ko + size;
    var sum0: int32, sum1: int32 := 0, 0;
    NoProducts(a, b0);
    NoProducts(a, b1);
    var i := 0;
    var cnt := size / 8 * 8;
    assert cnt <= size;
    while i + 8 - 1 < cnt
      invariant 0 <= i <= cnt <= size
      invariant sum0 == Sum(i, Products(a, b0)) && sum1 == Sum(i, Products(a, b1))
    {
      sum0, sum1, i := MulAdd2(s, so, k, k0, k1, a, b0, b1, sum0, sum1, i);
      sum0, sum1, i := MulAdd2(s, so, k, k0, k1, a, b0, b1, sum0, sum1, i);
      sum0, sum1, i := MulAdd2(s, so, k, k0, k1, a, b0, b1, sum0, sum1, i);
      sum0, sum1, i := MulAdd2(s, so, k, k0, k1, a, b0, b1, sum0, sum1, i);
      sum0, sum1, i := MulAdd2(s, so, k, k0, k1, a, b0, b1, sum0, sum1, i);
      sum0, sum1, i := MulAdd2(s, so, k, k0, k1, a, b0, b1, sum0, sum1, i);
      sum0, sum1, i := MulAdd2(s, so, k, k0, k1, a, b0, b1, sum0, sum1, i);
      sum0, sum1, i := MulAdd2(s, so, k, k0, k1, a, b0, b1, sum0, sum1, i);
    }
    while i < size
      invariant 0 <= i <= size
      invariant sum0 == Sum(i, Products(a, b0)) && sum1 == Sum(i, Products(a, b1))
    {
      sum0, sum1, i := MulAdd2(s, so, k, k0, k1, a, b0, b1, sum0, sum1, i);
    }
    result[0] := sum0;
    result[1] := sum1;
  }

  /** tm_dot_prod_3x3x1: nine products in one expression. */
  method DotProd3x3x1(s: array<int8>, so: nat, k: seq<int8>, ko: nat, ghost a: seq<int8>, ghost b: seq<int8>)
    returns (sum: int32)
    requires |a| == |b| == 9 && Operand(a, s[..], so) && Operand(b, k, ko)
    ensures sum == Dot(a, b)
  {
    Accumulate(a, b, 0); Accumulate(a, b, 1); Accumulate(a, b, 2);
    Accumulate(a, b, 3); Accumulate(a, b, 4); Accumulate(a, b, 5);
    Accumulate(a, b, 6); Accumulate(a, b, 7); Accumulate(a, b, 8);
    sum := Mul(s[so], k[ko]) + Mul(s[so + 1], k[ko + 1]) + Mul(s[so + 2], k[ko + 2]) +
           Mul(s[so + 3], k[ko + 3]) + Mul(s[so + 4], k[ko + 4]) + Mul(s[so + 5], k[ko + 5]) +
           Mul(s[so + 6], k[ko + 6]) + Mul(s[so + 7], k[ko + 7]) + Mul(s[so + 8], k[ko + 8]);
  }
}
