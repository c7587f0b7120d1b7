/** Rust's `n as f32` for an unsigned integer, on IEEE-754 binary32 bit
    patterns: round to nearest, ties to even. */
module F32Cast {
  import opened Common

  function Pow2(k: nat): (r: nat)
    ensures r >= 1
  {
    if k == 0 then 1 else 2 * Pow2(k - 1)
  }

  lemma {:induction false} Pow2Add(a: nat, b: nat)
    ensures Pow2(a + b) == Pow2(a) * Pow2(b)
  {
    if a > 0 {
      Pow2Add(a - 1, b);
    }
  }

  lemma {:induction false} Pow2Monotone(a: nat, b: nat)
    ensures a <= b ==> Pow2(a) <= Pow2(b)
    decreases b
  {
    if a < b {
      Pow2Monotone(a, b - 1);
    }
  }

  lemma Pow2OfMantissa()
    ensures Pow2(23) == MANTISSA_UNIT && Pow2(24) == 2 * MANTISSA_UNIT
  {
    assert Pow2(12) == 0x1000;
  }

  /** The position of the highest set bit. */
  function Log2(n: nat): (r: nat)
    requires n >= 1
    ensures Pow2(r) <= n < Pow2(r + 1)
  {
    if n == 1 then 0 else 1 + Log2(n / 2)
  }

  const MANTISSA_UNIT: nat := 0x80_0000  // 2^23
  const EXPONENT_BIAS: nat := 127
  const F32_INFINITY: F32 := 0x7F80_0000

  /** The significand of a number with highest bit `e > 23`, rounded to 24
      bits, nearest and ties to even. */
  function RoundedSignificand(n: nat, e: nat): (r: nat)
    requires e > 23
  {
    var s := e - 23;
    var q := n / Pow2(s);
    var rem := n % Pow2(s);
    var half := Pow2(s - 1);
    if rem > half || (rem == half && q % 2 == 1) then q + 1 else q
  }

  /** A positive finite bit pattern from its biased exponent and its 23-bit
      fraction field. */
  function Encode(exponent: nat, fraction: int): (r: F32)
    requires exponent < 255
  {
    exponent * MANTISSA_UNIT + fraction % MANTISSA_UNIT
  }

  /** The bit pattern of a number with highest bit `e <= 23`, which needs no
      rounding: the fraction is `n` without its leading bit, shifted up. */
  function ExactBits(n: nat, e: nat): (r: F32)
    requires e <= 23 && Pow2(e) <= n
  {
    Encode(EXPONENT_BIAS + e, (n - Pow2(e)) * Pow2(23 - e))
  }

  /** `n as f32`. */
  function CountAsF32(n: nat): (r: F32)
  {
    if n == 0 then F32_ZERO
    else
      var e := Log2(n);
      if e >= 128 then F32_INFINITY
      else if e <= 23 then ExactBits(n, e)
      else
        var q := RoundedSignificand(n, e);
        if q < 2 * MANTISSA_UNIT then Encode(EXPONENT_BIAS + e, q - MANTISSA_UNIT)
        else if e + 1 == 128 then F32_INFINITY
        else Encode(EXPONENT_BIAS + e + 1, 0)
  }

  /** The non-negative integer a bit pattern stands for exactly, if any:
      `+0.0`, `-0.0` and finite positive normals with no fractional part. */
  function ExactCount(b: F32): (r: Option<nat>)
  {
    var bits := b;
    var sign := bits / 0x8000_0000;
    var exponent := bits / MANTISSA_UNIT % 256;
    var significand := MANTISSA_UNIT + bits % MANTISSA_UNIT;
    if bits % 0x8000_0000 == 0 then Some(0)
    else if sign != 0 || exponent < EXPONENT_BIAS || exponent == 255 then None
    else
      var e := exponent - EXPONENT_BIAS;
      if e <= 23 then
        if significand % Pow2(23 - e) == 0 then Some(significand / Pow2(23 - e)) else None
      else Some(significand * Pow2(e - 23))
  }

  /** Reading the fields of a non-negative bit pattern back. */
  lemma ExactCountOfNormal(exponent: nat, fraction: nat)
    requires EXPONENT_BIAS <= exponent <= EXPONENT_BIAS + 23 && fraction < MANTISSA_UNIT
    ensures var k := Pow2(EXPONENT_BIAS + 23 - exponent);
            ExactCount(exponent * MANTISSA_UNIT + fraction)
              == if (MANTISSA_UNIT + fraction) % k == 0 then Some((MANTISSA_UNIT + fraction) / k) else None
  {
    var bits := exponent * MANTISSA_UNIT + fraction;
    DivModUnique(exponent, MANTISSA_UNIT, fraction);
    DivModUnique(0, 0x8000_0000, bits);
  }

  /** A significand that is `v` shifted up exactly reads back as `v`. */
  lemma ExactCountOfShifted(exponent: nat, fraction: nat, v: nat)
    requires EXPONENT_BIAS <= exponent <= EXPONENT_BIAS + 23 && fraction < MANTISSA_UNIT
    requires MANTISSA_UNIT + fraction == v * Pow2(EXPONENT_BIAS + 23 - exponent)
    ensures ExactCount(exponent * MANTISSA_UNIT + fraction) == Some(v)
  {
    ExactCountOfNormal(exponent, fraction);
    DivModUnique(v, Pow2(EXPONENT_BIAS + 23 - exponent), 0);
  }

  lemma Distribute(a: nat, b: nat, k: nat)
    ensures (a + b) * k == a * k + b * k
  {
  }

  /** A fraction below the leading bit stays below it once both are shifted. */
  lemma ShiftedFraction(d: nat, p: nat, k: nat, unit: nat) returns (dk: nat)
    requires d < p && p * k == unit && k > 0
    ensures dk == d * k && dk < unit
    ensures unit + dk == (d + p) * k
  {
    dk := d * k;
    MulMonotone(d + 1, p, k);
    Distribute(d, 1, k);
    Distribute(d, p, k);
  }

  /** For `2^e <= n < 2^(e+1)` with `e <= 23`, the 23-bit fraction field of
      `n`, whose significand is `n` shifted up by `23 - e`. */
  lemma FractionOfCount(n: nat, e: nat) returns (m: nat)
    requires e <= 23 && Pow2(e) <= n < Pow2(e + 1)
    ensures m == (n - Pow2(e)) * Pow2(23 - e) && m < MANTISSA_UNIT
    ensures MANTISSA_UNIT + m == n * Pow2(23 - e)
  {
    Pow2Add(e, 23 - e);
    Pow2OfMantissa();
    m := ShiftedFraction(n - Pow2(e), Pow2(e), Pow2(23 - e), MANTISSA_UNIT);
  }

  /** A fraction that fits its field is stored as it is. */
  lemma EncodeFraction(exponent: nat, fraction: nat)
    requires exponent < 255 && fraction < MANTISSA_UNIT
    ensures Encode(exponent, fraction) == exponent * MANTISSA_UNIT + fraction
  {
    DivModUnique(0, MANTISSA_UNIT, fraction);
  }

  /** Every count below 2^24 converts exactly: reading the float back gives
      the count. */
  lemma CountAsF32Exact(n: nat)
    requires n < 2 * MANTISSA_UNIT
    ensures ExactCount(CountAsF32(n)) == Some(n)
  {
    if n > 0 {
      var e, m := SmallCountFields(n);
      ExactCountOfShifted(EXPONENT_BIAS + e, m, n);
    }
  }

  /** Below 2^24 a count is stored with exponent `e` and a fraction that is
      the count shifted up by `23 - e` without its leading bit. */
  lemma SmallCountFields(n: nat) returns (e: nat, m: nat)
    requires 0 < n < 2 * MANTISSA_UNIT
    ensures e <= 23 && m < MANTISSA_UNIT
    ensures CountAsF32(n) == (EXPONENT_BIAS + e) * MANTISSA_UNIT + m
    ensures MANTISSA_UNIT + m == n * Pow2(23 - e)
  {
    e := Log2(n);
    assert e <= 23 by {
      Pow2Monotone(24, e);
      Pow2OfMantissa();
    }
    m := FractionOfCount(n, e);
    EncodeFraction(EXPONENT_BIAS + e, m);
    assert CountAsF32(n) == ExactBits(n, e);
  }
}
