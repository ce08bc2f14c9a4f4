/** What the bytes of the float layers stand for. val reads a float word as a real number; where the float
    operations of one byte are exact, that byte, dequantized, is within one quantum of the operation on
    the real numbers its operands stand for: real = scale*(q - zeropoint). */
module Quantization {
  import opened Bytes
  import opened CArithmetic
  import opened DotProduct
  import opened FloatWords
  import opened Layers

  // ---------- dequantizing and requantizing one value ----------

  /** n*s is computed exactly. */
  ghost predicate ExactDequant(ops: FloatOps, val: uint32 -> real, n: int, s: uint32) {
    val((ops.ofInt)(n)) == n as real && val((ops.times)((ops.ofInt)(n), s)) == n as real * val(s)
  }

  /** f/s + zp is computed exactly, and the cast drops the fraction of a value in range. */
  ghost predicate ExactQuant(ops: FloatOps, val: uint32 -> real, f: uint32, s: uint32, zp: int) {
    var d := (ops.over)(f, s);
    var x := (ops.plus)(d, (ops.ofInt)(zp));
    && val(s) > 0.0 && val(d) * val(s) == val(f)
    && val((ops.ofInt)(zp)) == zp as real && val(x) == val(d) + zp as real
    && -129.0 < val(x) < 128.0 && Truncates(val(x), (ops.toInt8)(x))
  }

  /** r is x without its fraction, as a C cast rounds. */
  predicate Truncates(x: real, r: int8) {
    if x >= 0.0 then r as real <= x < r as real + 1.0 else r as real - 1.0 < x <= r as real
  }

  /** v stands for x up to one quantum of s. */
  predicate Within(v: int8, zp: int, s: real, x: real) {
    x - s < s * (v - zp) as real < x + s
  }

  lemma DequantIs(ops: FloatOps, val: uint32 -> real, n: int, s: uint32)
    requires ExactDequant(ops, val, n, s)
    ensures val(Dequant(ops, n, s)) == val(s) * n as real
  {
  }

  lemma QuantIs(ops: FloatOps, val: uint32 -> real, f: uint32, s: uint32, zp: int)
    requires ExactQuant(ops, val, f, s, zp)
    ensures Within(Quant(ops, f, s, zp), zp, val(s), val(f))
  {
    var q, v, k := val((ops.over)(f, s)), Quant(ops, f, s, zp), val(s);
    var x := val((ops.plus)((ops.over)(f, s), (ops.ofInt)(zp)));
    assert x - 1.0 < v as real < x + 1.0;
    assert (v - zp) as real == v as real - zp as real;
    var n := (v - zp) as real;
    ScaledWithinOne(k, q, n, val(f));
  }

  lemma ScaledWithinOne(k: real, q: real, n: real, f: real)
    requires k > 0.0 && q - 1.0 < n < q + 1.0 && q * k == f
    ensures f - k < k * n < f + k
  {
    var e := n - q;
    Scaled(k, e);
    Distribute(k, q, e);
    assert n == q + e;
    assert k * n == k * (q + e);
    assert k * q == f;
    assert k * n == f + k * e;
  }

  lemma Distribute(k: real, q: real, e: real)
    ensures k * (q + e) == k * q + k * e
  {
  }

  lemma Scaled(k: real, e: real)
    requires k > 0.0 && -1.0 < e < 1.0
    ensures -k < k * e < k
  {
  }

  // ---------- pooling ----------

  ghost predicate GapExact(ops: FloatOps, val: uint32 -> real, l: Gap, mean: int) {
    && ExactDequant(ops, val, mean - l.inZp, l.inS)
    && ExactQuant(ops, val, (ops.times)((ops.ofInt)(mean - l.inZp), l.inS), l.outS, l.outZp)
  }

  /** A pooled byte stands for the truncated mean of its channel. */
  lemma GapMeaning(ops: FloatOps, val: uint32 -> real, l: Gap, inp: seq<int8>, ch: nat)
    requires GapRunnable(l, inp) && GapExact(ops, val, l, TruncDiv(ChannelSum(l, inp, ch), l.h * l.w))
    ensures Within(GapByte(ops, l, inp, ch), l.outZp, val(l.outS),
                   val(l.inS) * (TruncDiv(ChannelSum(l, inp, ch), l.h * l.w) - l.inZp) as real)
  {
    hide ChannelSum, TruncDiv, Quant, ExactQuant;
    var n := TruncDiv(ChannelSum(l, inp, ch), l.h * l.w) - l.inZp;
    DequantIs(ops, val, n, l.inS);
    QuantIs(ops, val, Dequant(ops, n, l.inS), l.outS, l.outZp);
  }

  // ---------- full connection ----------

  /** The accumulator of output c, cell by cell. */
  ghost function FcSum(l: Fc, inp: seq<int8>, c: nat): int
    requires |inp| == l.ic && |l.w| == l.oc * l.ic && |l.b| == l.oc && c < l.oc
  {
    Sum(l.ic, i => FcProduct(l, inp, c, i)) + l.b[c]
  }

  /** Input i times the weight at (c, i). */
  ghost function FcProduct(l: Fc, inp: seq<int8>, c: nat, i: int): int
    requires |inp| == l.ic && |l.w| == l.oc * l.ic && c < l.oc
  {
    if 0 <= i < l.ic then
      FcRow(l, c);
      inp[i] as int * (l.w[c * l.ic + i] as int)
    else 0
  }

  lemma FcDotIs(l: Fc, inp: seq<int8>, c: nat)
    requires FcRunnable(l, inp) && c < l.oc
    ensures Dot(inp, FcWeights(l, c)) + l.b[c] == FcSum(l, inp, c)
  {
    var f, g := Products(inp, FcWeights(l, c)), i => FcProduct(l, inp, c, i);
    FcRow(l, c);
    forall i | 0 <= i < l.ic ensures f(i) == g(i) {
      assert FcWeights(l, c)[i] == l.w[c * l.ic + i];
    }
    SumExtensional(l.ic, f, g);
  }

  ghost predicate FcExact(ops: FloatOps, val: uint32 -> real, l: Fc, sum: int) {
    var d := (ops.times)((ops.ofInt)(sum), l.inS);
    && ExactDequant(ops, val, sum, l.inS) && val((ops.times)(d, l.ws)) == val(d) * val(l.ws)
    && ExactQuant(ops, val, (ops.times)(d, l.ws), l.outS, l.outZp)
  }

  /** An output byte stands for its accumulator, scaled by the scales of input and weights. */
  lemma FcMeaning(ops: FloatOps, val: uint32 -> real, l: Fc, inp: seq<int8>, c: nat)
    requires FcRunnable(l, inp) && c < l.oc && FcExact(ops, val, l, FcSum(l, inp, c))
    ensures Within(FcByte(ops, l, inp, c), l.outZp, val(l.outS), val(l.inS) * FcSum(l, inp, c) as real * val(l.ws))
  {
    hide FcSum, Dot, FcWeights, Quant, ExactQuant;
    FcDotIs(l, inp, c);
    var d := Dequant(ops, FcSum(l, inp, c), l.inS);
    DequantIs(ops, val, FcSum(l, inp, c), l.inS);
    QuantIs(ops, val, (ops.times)(d, l.ws), l.outS, l.outZp);
  }

  // ---------- addition ----------

  ghost predicate AddExact(ops: FloatOps, val: uint32 -> real, l: Add, x: int8, y: int8) {
    var u, v := (ops.times)((ops.ofInt)(x - l.zp0), l.s0), (ops.times)((ops.ofInt)(y - l.zp1), l.s1);
    && ExactDequant(ops, val, x - l.zp0, l.s0) && ExactDequant(ops, val, y - l.zp1, l.s1)
    && val((ops.plus)(u, v)) == val(u) + val(v)
    && ExactQuant(ops, val, (ops.plus)(u, v), l.outS, l.outZp)
  }

  /** A byte of the sum stands for the sum of what the operands' bytes stand for. */
  lemma AddMeaning(ops: FloatOps, val: uint32 -> real, l: Add, d0: seq<int8>, d1: seq<int8>, i: nat)
    requires |d0| == |d1| && i < |d0| && AddExact(ops, val, l, d0[i], d1[i])
    ensures Within(AddOf(ops, l, d0, d1)[i], l.outZp, val(l.outS),
                   val(l.s0) * (d0[i] - l.zp0) as real + val(l.s1) * (d1[i] - l.zp1) as real)
  {
    hide AddOf, Quant, ExactQuant;
    var u, v := Dequant(ops, d0[i] - l.zp0, l.s0), Dequant(ops, d1[i] - l.zp1, l.s1);
    DequantIs(ops, val, d0[i] - l.zp0, l.s0);
    DequantIs(ops, val, d1[i] - l.zp1, l.s1);
    QuantIs(ops, val, (ops.plus)(u, v), l.outS, l.outZp);
  }

  // ---------- softmax ----------

  /** The comparison orders the start value and the logits like key, and the start value is below all. */
  ghost predicate OrderedFrom(ops: FloatOps, f: seq<uint32>, key: uint32 -> real) {
    && (forall i :: 0 <= i < |f| ==> (ops.above)(f[i], ops.lowest))
    && (forall i, j :: 0 <= i < |f| && 0 <= j < |f| ==> ((ops.above)(f[i], f[j]) <==> key(f[i]) > key(f[j])))
  }

  /** m is one of the first n logits, and none of them is above it. */
  ghost predicate IsMaximum(f: seq<uint32>, n: nat, key: uint32 -> real, m: uint32)
    requires n <= |f|
  {
    (exists i :: 0 <= i < n && f[i] == m) && forall j :: 0 <= j < n ==> key(f[j]) <= key(m)
  }

  /** The running maximum is the maximum. */
  lemma {:induction false} LargestIsMaximum(ops: FloatOps, f: seq<uint32>, n: nat, key: uint32 -> real)
    requires 0 < n <= |f| && OrderedFrom(ops, f, key)
    ensures IsMaximum(f, n, key, Largest(ops, f, n))
  {
    if n == 1 {
      assert Largest(ops, f, 0) == ops.lowest && Largest(ops, f, 1) == f[0];
    } else {
      LargestIsMaximum(ops, f, n - 1, key);
      var i :| 0 <= i < n - 1 && f[i] == Largest(ops, f, n - 1);
      assert (ops.above)(f[n - 1], f[i]) <==> key(f[n - 1]) > key(f[i]);
    }
  }

  /** p holds the partial sums of e from the left, starting with zero. */
  ghost predicate RunningSums(ops: FloatOps, e: seq<uint32>, p: seq<uint32>) {
    && |p| == |e| + 1 && p[0] == ops.zero
    && forall i :: 0 <= i < |e| ==> p[i + 1] == (ops.plus)(p[i], e[i])
  }

  /** What softmax gives for position i, from the input alone: x are the dequantized logits, m is the
      largest of them, e the exponentials of their distances to it, p the partial sums of e; the byte
      is the exponential at i, less epsilon, divided by the whole sum, requantized. */
  ghost predicate IsSoftmax(ops: FloatOps, l: Softmax, inp: seq<int8>, key: uint32 -> real, i: nat, v: int8,
                            x: seq<uint32>, m: uint32, e: seq<uint32>, p: seq<uint32>)
    requires i < |inp|
  {
    && |x| == |e| == |inp|
    && (forall c :: 0 <= c < |x| ==> x[c] == (ops.times)((ops.ofInt)(inp[c] - l.inZp), l.inS))
    && IsMaximum(x, |x|, key, m)
    && (forall c :: 0 <= c < |e| ==> e[c] == (ops.exp)((ops.minus)(x[c], m)))
    && RunningSums(ops, e, p)
    && v == (ops.toInt8)((ops.plus)((ops.over)((ops.over)((ops.minus)(e[i], ops.epsilon), p[|inp|]), l.outS),
                                    (ops.ofInt)(l.outZp)))
  }

  ghost function Exponentials(ops: FloatOps, f: seq<uint32>, m: uint32, n: nat): (e: seq<uint32>)
    requires n <= |f|
    ensures |e| == n && forall c :: 0 <= c < n ==> e[c] == (ops.exp)((ops.minus)(f[c], m))
  {
    if n == 0 then [] else Exponentials(ops, f, m, n - 1) + [(ops.exp)((ops.minus)(f[n - 1], m))]
  }

  /** The sums the second pass goes through are the running sums. */
  lemma {:induction false} TotalsRun(ops: FloatOps, f: seq<uint32>, m: uint32, n: nat) returns (p: seq<uint32>)
    requires n <= |f|
    ensures RunningSums(ops, Exponentials(ops, f, m, n), p) && p[n] == Total(ops, f, m, n)
  {
    if n == 0 {
      p := [ops.zero];
    } else {
      var p' := TotalsRun(ops, f, m, n - 1);
      var e', e := Exponentials(ops, f, m, n - 1), Exponentials(ops, f, m, n);
      p := p' + [(ops.plus)(p'[n - 1], e[n - 1])];
      assert e == e' + [e[n - 1]];
      assert forall i :: 0 <= i < n - 1 ==> e[i] == e'[i];
    }
  }

  /** Every byte tml_softmax leaves is that. */
  lemma SoftmaxMeaning(ops: FloatOps, l: Softmax, inp: seq<int8>, key: uint32 -> real, i: nat)
    returns (x: seq<uint32>, m: uint32, e: seq<uint32>, p: seq<uint32>)
    requires i < |inp| && OrderedFrom(ops, Logits(ops, l, inp), key)
    ensures IsSoftmax(ops, l, inp, key, i, SoftmaxOf(ops, l, inp)[i], x, m, e, p)
  {
    hide Largest, Total, IsMaximum, RunningSums, OrderedFrom, Exponentials, Logits, Kept, Quantized;
    x := Logits(ops, l, inp);
    m := Largest(ops, x, |x|);
    e := Exponentials(ops, x, m, |x|);
    LargestIsMaximum(ops, x, |x|, key);
    p := TotalsRun(ops, x, m, |x|);
  }

  /** The same in real numbers: sum of the first n values of e. */
  ghost function RealSum(val: uint32 -> real, e: seq<uint32>, n: nat): real
    requires n <= |e|
  {
    if n == 0 then 0.0 else RealSum(val, e, n - 1) + val(e[n - 1])
  }

  ghost predicate SumsExact(ops: FloatOps, val: uint32 -> real, e: seq<uint32>, p: seq<uint32>)
    requires |p| == |e| + 1
  {
    val(ops.zero) == 0.0 &&
    forall i :: 0 <= i < |e| ==> val((ops.plus)(p[i], e[i])) == val(p[i]) + val(e[i])
  }

  lemma {:induction false} SumIsReal(ops: FloatOps, val: uint32 -> real, e: seq<uint32>, p: seq<uint32>, n: nat)
    requires n <= |e| && RunningSums(ops, e, p) && SumsExact(ops, val, e, p)
    ensures val(p[n]) == RealSum(val, e, n)
  {
    if n > 0 {
      SumIsReal(ops, val, e, p, n - 1);
      assert p[n - 1 + 1] == (ops.plus)(p[n - 1], e[n - 1]);
    }
  }

  /** Where the sums and the last divisions are exact, the byte stands for the share of its exponential
      in the sum of all. */
  lemma SoftmaxShare(ops: FloatOps, val: uint32 -> real, l: Softmax, inp: seq<int8>, key: uint32 -> real, i: nat,
                     v: int8, x: seq<uint32>, m: uint32, e: seq<uint32>, p: seq<uint32>)
    requires i < |inp| == |e| && |p| == |e| + 1
    requires IsSoftmax(ops, l, inp, key, i, v, x, m, e, p) && SumsExact(ops, val, e, p)
    requires RealSum(val, e, |e|) > 0.0
    requires val((ops.minus)(e[i], ops.epsilon)) == val(e[i]) - val(ops.epsilon)
    requires var d := (ops.over)((ops.minus)(e[i], ops.epsilon), p[|inp|]);
             val(d) * val(p[|inp|]) == val((ops.minus)(e[i], ops.epsilon)) && ExactQuant(ops, val, d, l.outS, l.outZp)
    ensures Within(v, l.outZp, val(l.outS), (val(e[i]) - val(ops.epsilon)) / RealSum(val, e, |e|))
  {
    hide IsMaximum, RunningSums, SumsExact, RealSum, ExactQuant;
    SumIsReal(ops, val, e, p, |inp|);
    var d := (ops.over)((ops.minus)(e[i], ops.epsilon), p[|inp|]);
    QuantIs(ops, val, d, l.outS, l.outZp);
    QuotientIs(val(d), RealSum(val, e, |e|), val(e[i]) - val(ops.epsilon));
  }

  lemma QuotientIs(q: real, s: real, n: real)
    requires s > 0.0 && q * s == n
    ensures q == n / s
  {
  }
}
