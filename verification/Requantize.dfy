/** tm_postprocess_sum with TM_FASTSCALE: the fixed-point requantizer of arch_cpu.h. */
module Requantize {
  import opened Bytes
  import opened CArithmetic

  const RELU := 1
  const RELU6 := 3
  /** 6 << TM_FASTSCALE_SHIFT */
  const SIX := 1536

  function Max(x: int, y: int): int { if x >= y then x else y }
  function Min(x: int, y: int): int { if x <= y then x else y }

  /** (sum << 8) / scale */
  function Scaled(sum: int, scale: int): int
    requires scale != 0
  {
    TruncDiv(sum * 0x100, scale)
  }

  function Activate(act: int, sumf: int): int {
    if act == RELU then Max(sumf, 0)
    else if act == RELU6 then Min(Max(sumf, 0), SIX)
    else sumf
  }

  /** The value before the cast to int8. */
  function Requant(sum: int, act: int, scale: int, outScale: int, zp: int): int
    requires scale != 0
  {
    Shr16(Activate(act, Scaled(sum, scale)) * outScale) + zp
  }

  predicate FitsInt32(x: int) { -0x8000_0000 <= x < 0x8000_0000 }

  /** The C expression divides by a non-zero scale and never leaves int32 on the way. */
  predicate Defined(sum: int, act: int, scale: int, outScale: int, zp: int) {
    && scale != 0
    && FitsInt32(sum) && FitsInt32(sum * 0x100) && FitsInt32(Scaled(sum, scale))
    && FitsInt32(Activate(act, Scaled(sum, scale)) * outScale)
    && FitsInt32(Requant(sum, act, scale, outScale, zp))
  }

  function RequantByte(sum: int, act: int, scale: int, outScale: int, zp: int): int8
    requires scale != 0
  {
    ToInt8(Requant(sum, act, scale, outScale, zp))
  }

  /** The body of tm_postprocess_sum's loop, every intermediate held in an int32. */
  method PostprocessOne(acc: int, bias: int, act: int, scale: int, outScale: int, zp: int) returns (r: int8)
    requires Defined(acc + bias, act, scale, outScale, zp)
    ensures r == RequantByte(acc + bias, act, scale, outScale, zp)
    ensures IsOutput(acc + bias, act, scale, outScale, zp, r)
  {
    hide IsOutput;
    RequantByteIsOutput(acc + bias, act, scale, outScale, zp);
    var sum: int32 := acc + bias;
    var shifted: int32 := sum * 0x100;
    var sumf: int32 := TruncDiv(shifted, scale);
    if act == RELU {
      sumf := if sumf > 0 then sumf else 0;
    } else if act == RELU6 {
      sumf := if sumf > 0 then sumf else 0;
      sumf := if sumf > SIX then SIX else sumf;
    }
    var product: int32 := sumf * outScale;
    var shifted': int32 := Shr16(product) + zp;
    r := ToInt8(shifted');
  }

  /** The operands of channel c, whose sum is sums[c - c0], are free of undefined behaviour. */
  predicate DefinedAt(sums: seq<int>, c0: nat, bs: seq<int>, act: int, scales: seq<int>, outScale: int, zp: int, c: nat)
    requires c0 <= c < c0 + |sums| && c < |bs| && c < |scales|
  {
    Defined(sums[c - c0] + bs[c], act, scales[c], outScale, zp)
  }

  /** The byte those operands give. */
  function ByteAt(sums: seq<int>, c0: nat, bs: seq<int>, act: int, scales: seq<int>, outScale: int, zp: int, c: nat)
    : int8
    requires c0 <= c < c0 + |sums| && c < |bs| && c < |scales|
    requires DefinedAt(sums, c0, bs, act, scales, outScale, zp, c)
  {
    RequantByte(sums[c - c0] + bs[c], act, scales[c], outScale, zp)
  }

  /** tm_postprocess_sum: the sums of the channels from c0 on, each with its own bias and scale,
      to consecutive bytes. */
  method PostprocessSum(sums: seq<int>, c0: nat, bs: seq<int>, act: int, outp: array<int8>, oo: nat,
                        scales: seq<int>, outScale: int, zp: int)
    requires c0 + |sums| <= |bs| && c0 + |sums| <= |scales| && oo + |sums| <= outp.Length
    requires forall c :: c0 <= c < c0 + |sums| ==> DefinedAt(sums, c0, bs, act, scales, outScale, zp, c)
    modifies outp
    ensures forall c :: c0 <= c < c0 + |sums| ==>
      outp[oo + (c - c0)] == ByteAt(sums, c0, bs, act, scales, outScale, zp, c)
    ensures forall j :: 0 <= j < oo || oo + |sums| <= j < outp.Length ==> outp[j] == old(outp[j])
  {
    hide Requant, Scaled, Activate, TruncDiv, FitsInt32, ToInt8, IsOutput;
    var i := 0;
    while i < |sums|
      invariant 0 <= i <= |sums|
      invariant forall c :: c0 <= c < c0 + i ==>
        outp[oo + (c - c0)] == ByteAt(sums, c0, bs, act, scales, outScale, zp, c)
      invariant forall j :: 0 <= j < oo || oo + |sums| <= j < outp.Length ==> outp[j] == old(outp[j])
    {
      assert DefinedAt(sums, c0, bs, act, scales, outScale, zp, c0 + i);
      var r := PostprocessOne(sums[i], bs[c0 + i], act, scales[c0 + i], outScale, zp);
      outp[oo + i] := r;
      i := i + 1;
    }
  }

  /** A larger accumulator never gives a smaller output. */
  lemma Monotone(sum: int, sum': int, act: int, scale: int, outScale: int, zp: int)
    requires scale > 0 && outScale >= 0 && sum <= sum'
    ensures Requant(sum, act, scale, outScale, zp) <= Requant(sum', act, scale, outScale, zp)
  {
    TruncDivMonotone(sum * 0x100, sum' * 0x100, scale);
    var q, q' := Activate(act, Scaled(sum, scale)), Activate(act, Scaled(sum', scale));
    assert (q' - q) * outScale == q' * outScale - q * outScale;
    MulNonNegative(q' - q, outScale);
  }

  /** Both roundings together stay within 1 + outScale/65536 of the exact rational value, and
      only outScale/65536 above it. */
  lemma ErrorBound(sum: int, act: int, scale: int, outScale: int, zp: int)
    requires scale > 0 && outScale >= 0 && act != RELU && act != RELU6
    ensures var exact := (sum * outScale) as real / (256 * scale) as real + zp as real;
            var slack := outScale as real / 65536.0;
            exact - 1.0 - slack < Requant(sum, act, scale, outScale, zp) as real <= exact + slack
  {
    var q := Scaled(sum, scale);
    var r := Shr16(q * outScale);
    TruncDivPositive(sum * 0x100, scale);
    Roundings(sum, q, r, scale, outScale);
    Divide(sum * outScale, r, scale, outScale);
  }

  /** Both rounding errors on one common denominator, 65536*scale. */
  lemma Roundings(sum: int, q: int, r: int, scale: int, outScale: int)
    requires scale > 0 && outScale >= 0
    requires -scale < q * scale - sum * 0x100 < scale
    requires r * 0x1_0000 <= q * outScale < (r + 1) * 0x1_0000
    ensures (r * 0x1_0000) * scale <= 0x100 * (sum * outScale) + scale * outScale
    ensures 0x100 * (sum * outScale) - scale * outScale < ((r + 1) * 0x1_0000) * scale
  {
    var d, p := q * scale - sum * 0x100, q * outScale;
    ScaledError(sum, q, scale, outScale);
    ProductBetween(d, scale, outScale);
    MulOrder(r * 0x1_0000, p, scale);
    MulOrder(p + 1, (r + 1) * 0x1_0000, scale);
    assert (p + 1) * scale == p * scale + scale;
  }

  /** The error of the first rounding, carried through the multiplication. */
  lemma ScaledError(sum: int, q: int, scale: int, outScale: int)
    ensures (q * scale - sum * 0x100) * outScale == (q * outScale) * scale - 0x100 * (sum * outScale)
  {
    assert (q * scale - sum * 0x100) * outScale == (q * scale) * outScale - (sum * 0x100) * outScale;
    assert (q * scale) * outScale == (q * outScale) * scale;
    assert (sum * 0x100) * outScale == 0x100 * (sum * outScale);
  }

  lemma ProductBetween(d: int, bound: int, factor: int)
    requires -bound < d < bound && factor >= 0
    ensures -(bound * factor) <= d * factor <= bound * factor
  {
    MulNonNegative(bound - d, factor);
    assert (bound - d) * factor == bound * factor - d * factor;
    MulNonNegative(bound + d, factor);
    assert (bound + d) * factor == bound * factor + d * factor;
  }

  /** From integer to rational: bounds on 65536*scale*r against 256*t. */
  lemma Divide(t: int, r: int, scale: int, outScale: int)
    requires scale > 0
    requires (r * 0x1_0000) * scale <= 0x100 * t + scale * outScale
    requires 0x100 * t - scale * outScale < ((r + 1) * 0x1_0000) * scale
    ensures var exact := t as real / (256 * scale) as real;
            var slack := outScale as real / 65536.0;
            exact - 1.0 - slack < r as real <= exact + slack
  {
    var s, x, o := scale as real, t as real, outScale as real;
    var exact := x / (256 * scale) as real;
    assert exact * (256.0 * s) == x;
    var e := exact * s;
    assert 256.0 * e == x;
    assert (r * 0x1_0000 * scale) as real == 65536.0 * (r as real * s);
    assert (scale * outScale) as real == s * o;
    assert 65536.0 * (r as real * s) <= 65536.0 * e + s * o;
    assert (((r + 1) * 0x1_0000) * scale) as real == 65536.0 * (r as real * s) + 65536.0 * s;
    assert 65536.0 * e - s * o < 65536.0 * (r as real * s) + 65536.0 * s;
    RealOrder(s, r as real, exact + o / 65536.0);
    RealOrder(s, exact - 1.0 - o / 65536.0, r as real);
  }

  lemma RealOrder(s: real, x: real, y: real)
    requires s > 0.0
    ensures x <= y <==> s * x <= s * y
    ensures x < y <==> s * x < s * y
  {
  }

  /** In the quantized domain RELU is a clamp from below at the zero point. */
  lemma ReluClamps(sum: int, scale: int, outScale: int, zp: int)
    requires scale > 0 && outScale >= 0
    ensures Requant(sum, RELU, scale, outScale, zp) == Max(Requant(sum, 0, scale, outScale, zp), zp)
  {
    ShrOrder(Scaled(sum, scale), 0, outScale);
  }

  /** RELU6 is that clamp and one from above, at the requantized 6.0. */
  lemma Relu6Clamps(sum: int, scale: int, outScale: int, zp: int)
    requires scale > 0 && outScale >= 0
    ensures Requant(sum, RELU6, scale, outScale, zp)
         == Min(Max(Requant(sum, 0, scale, outScale, zp), zp), Shr16(SIX * outScale) + zp)
  {
    var q := Scaled(sum, scale);
    ShrOrder(q, 0, outScale);
    ShrOrder(q, SIX, outScale);
    ShrOrder(0, SIX, outScale);
  }

  lemma ShrOrder(q: int, q': int, outScale: int)
    requires outScale >= 0
    ensures q <= q' ==> Shr16(q * outScale) <= Shr16(q' * outScale)
    ensures q >= q' ==> Shr16(q * outScale) >= Shr16(q' * outScale)
  {
    assert (q' - q) * outScale == q' * outScale - q * outScale;
    if q <= q' {
      MulNonNegative(q' - q, outScale);
    } else {
      MulNonNegative(q - q', outScale);
      assert (q - q') * outScale == q * outScale - q' * outScale;
    }
  }

  // ---------- the output byte, exactly ----------

  /** q is n/d rounded toward zero: the remainder is smaller than d and has the sign of n. */
  ghost predicate IsQuotient(n: int, d: int, q: int) {
    var r := n - q * d;
    && (if d > 0 then -d < r < d else d < r < -d)
    && (r > 0 ==> n > 0) && (r < 0 ==> n < 0)
  }

  /** a is q after the activation: 1 cuts off below 0, 3 also above 6.0, which is 1536 here. */
  ghost predicate IsActivated(act: int, q: int, a: int) {
    if act == 1 then (a == q && q >= 0) || (a == 0 && q < 0)
    else if act == 3 then (a == q && 0 <= q <= 1536) || (a == 0 && q < 0) || (a == 1536 && q > 1536)
    else a == q
  }

  /** y is a*o/65536 rounded down. */
  ghost predicate IsShifted(a: int, o: int, y: int) {
    y * 65536 <= a * o < (y + 1) * 65536
  }

  /** v is what the requantizer makes of sum: the low byte of y + zp, so y + zp itself if that is a byte. */
  ghost predicate IsOutput(sum: int, act: int, scale: int, outScale: int, zp: int, v: int8) {
    exists q, a, y ::
      && IsQuotient(sum * 256, scale, q) && IsActivated(act, q, a) && IsShifted(a, outScale, y)
      && (v - (y + zp)) % 256 == 0 && (-128 <= y + zp < 128 ==> v == y + zp)
  }

  lemma TruncDivIsQuotient(n: int, d: int)
    requires d != 0
    ensures IsQuotient(n, d, TruncDiv(n, d))
  {
    var m := if n >= 0 then n else -n;
    Euclid(m, d);
    SignedQuotient(n, d, m / d, m % d);
  }

  lemma Euclid(m: int, d: int)
    requires d != 0
    ensures m == m / d * d + m % d && (m == 0 ==> m % d == 0) && 0 <= m % d < if d > 0 then d else -d
  {
  }

  lemma SignedQuotient(n: int, d: int, k: int, e: int)
    requires d != 0 && 0 <= e < (if d > 0 then d else -d) && (if n >= 0 then n else -n) == k * d + e
    requires n == 0 ==> e == 0
    ensures IsQuotient(n, d, if n >= 0 then k else -k)
  {
    hide IsQuotient;
    if n >= 0 {
      QuotientOf(n, d, k, e);
    } else {
      NegatedProduct(k, d);
      QuotientOf(n, d, -k, -e);
    }
  }

  lemma NegatedProduct(k: int, d: int)
    ensures (-k) * d == -(k * d)
  {
  }

  lemma QuotientOf(n: int, d: int, q: int, r: int)
    requires n == q * d + r && (if d > 0 then -d < r < d else d < r < -d) && (r > 0 ==> n > 0) && (r < 0 ==> n < 0)
    ensures IsQuotient(n, d, q)
  {
  }

  /** The quotient is the only one. */
  lemma QuotientUnique(n: int, d: int, q: int, q': int)
    requires d != 0 && IsQuotient(n, d, q) && IsQuotient(n, d, q')
    ensures q == q'
  {
    var r, r' := n - q * d, n - q' * d;
    assert (q - q') * d == r' - r;
    var k, e := if q > q' then q - q' else q' - q, if d > 0 then d else -d;
    assert k * e == (q - q') * d || k * e == -((q - q') * d) by { SignOfProduct(q - q', d); }
    assert -e < r' - r < e;
    if k > 0 { MulOrder(1, k, e); }
  }

  lemma SignOfProduct(x: int, d: int)
    ensures var k, e := if x > 0 then x else -x, if d > 0 then d else -d; k * e == x * d || k * e == -(x * d)
  {
    assert (-x) * d == -(x * d) && x * (-d) == -(x * d) && (-x) * (-d) == x * d;
  }

  /** The byte computed is that output ... */
  lemma RequantByteIsOutput(sum: int, act: int, scale: int, outScale: int, zp: int)
    requires scale != 0
    ensures IsOutput(sum, act, scale, outScale, zp, RequantByte(sum, act, scale, outScale, zp))
  {
    hide IsQuotient, TruncDiv;
    var q := Scaled(sum, scale);
    var a := Activate(act, q);
    var y := Shr16(a * outScale);
    TruncDivIsQuotient(sum * 256, scale);
    assert IsQuotient(sum * 256, scale, q) && IsActivated(act, q, a) && IsShifted(a, outScale, y);
    LowByte(y + zp);
  }

  lemma LowByte(x: int)
    ensures (ToInt8(x) - x) % 256 == 0 && (-128 <= x < 128 ==> ToInt8(x) == x)
  {
  }

  /** ... and no other byte is. */
  lemma OutputUnique(sum: int, act: int, scale: int, outScale: int, zp: int, v: int8, v': int8)
    requires scale != 0 && IsOutput(sum, act, scale, outScale, zp, v) && IsOutput(sum, act, scale, outScale, zp, v')
    ensures v == v'
  {
    hide IsQuotient, IsActivated, IsShifted;
    var q, a, y :| IsQuotient(sum * 256, scale, q) && IsActivated(act, q, a) && IsShifted(a, outScale, y)
      && (v - (y + zp)) % 256 == 0 && (-128 <= y + zp < 128 ==> v == y + zp);
    var q', a', y' :| IsQuotient(sum * 256, scale, q') && IsActivated(act, q', a') && IsShifted(a', outScale, y')
      && (v' - (y' + zp)) % 256 == 0 && (-128 <= y' + zp < 128 ==> v' == y' + zp);
    QuotientUnique(sum * 256, scale, q, q');
    ActivationUnique(act, q, a, a');
    ShiftUnique(a, outScale, y, y');
    SameByte(v, v', y + zp);
  }

  lemma ActivationUnique(act: int, q: int, a: int, a': int)
    requires IsActivated(act, q, a) && IsActivated(act, q, a')
    ensures a == a'
  {
  }

  lemma ShiftUnique(a: int, o: int, y: int, y': int)
    requires IsShifted(a, o, y) && IsShifted(a, o, y')
    ensures y == y'
  {
  }

  lemma SameByte(v: int8, v': int8, x: int)
    requires (v - x) % 256 == 0 && (v' - x) % 256 == 0
    ensures v == v'
  {
  }
}
