/** The field decoder: gives each raw field of a binary32 pattern its
    real-number meaning, as `decode` does: the sign value (-1)^sign, the
    unbiased exponent, and the significand accumulated bit by bit from an
    implicit leading 1. The bias is applied uniformly: exponent field 0 decodes
    to -127 and field 255 to 128, with no case for zeros, subnormals,
    infinities or NaN. */
module Decoder {
  import opened U32Ops
  import opened Extractor

  const BIAS: int := 127
  const MANTISSA_BITS: nat := 23
  /** 2^23: the weight of the implicit leading 1 relative to the mantissa's last bit. */
  const MANTISSA_SCALE: real := 8388608.0

  /** An `i32` computation that either gives a value or overflows (a panic in a
      debug build). */
  datatype Checked<T> = Ok(value: T) | Overflow

  /** The decoded fields. The exponent is kept as the integer power of two;
      raising 2 to it in `f32` is not part of this model. */
  datatype DecodedFields = DecodedFields(signValue: real, exponent: int, mantissaValue: real)

  /** (-1)^signBits, the exact value of `(-1.0_f32).powf(sign_bits as f32)`. */
  function SignValue(signBits: U32): (r: real)
    ensures r == 1.0 <==> signBits % 2 == 0
    ensures r == -1.0 <==> signBits % 2 == 1
  {
    if signBits == 0 then 1.0 else -SignValue(signBits - 1)
  }

  /** The sign value of a parsed pattern is -1 exactly when bit 31 is set. */
  lemma ParsedSignValue(bits: U32)
    ensures SignValue(Parse(bits).sign) == if bits >= 0x8000_0000 then -1.0 else 1.0
  {
    var s := Parse(bits).sign;
    if bits >= 0x8000_0000 {
      assert s == 1;
    } else {
      assert s == 0;
    }
  }

  /** `x as i32` on a `u32`: the same 32 bits read in two's complement. */
  function AsI32(x: U32): (r: int)
    ensures I32_MIN <= r <= I32_MAX
    ensures (r - x) % U32_MODULUS == 0
  {
    if x <= I32_MAX then x else x - U32_MODULUS
  }

  /** `(exponent_bits as i32) - BIAS` with `i32` overflow checking. */
  function UnbiasedExponent(exponentBits: U32): (r: Checked<int>)
    ensures r == Overflow <==> 0x8000_0000 <= exponentBits < 0x8000_0000 + BIAS
    ensures r.Ok? ==> I32_MIN <= r.value && r.value + BIAS <= I32_MAX
    ensures r.Ok? ==> (r.value + BIAS) % U32_MODULUS == exponentBits
    ensures exponentBits <= 0xff ==> r == Ok(exponentBits - BIAS)
  {
    var d := AsI32(exponentBits) - BIAS;
    if I32_MIN <= d then Ok(d) else Overflow
  }

  /** Every exponent field that `parse` produces decodes without overflow to a
      power in [-127, 128], and adding the bias back recovers the field. */
  lemma ParsedExponentRange(bits: U32)
    ensures UnbiasedExponent(Parse(bits).exponent).Ok?
    ensures -127 <= UnbiasedExponent(Parse(bits).exponent).value <= 128
    ensures UnbiasedExponent(Parse(bits).exponent).value + BIAS == Parse(bits).exponent
  {
    assert Parse(bits).exponent <= 0xff;
  }

  /** 2^e for an integer e: the exact value of `2_f32.powf(e as f32)`. */
  function Pow2Real(e: int): (r: real)
    ensures r > 0.0
  {
    if e >= 0 then Pow2(e) as real else 1.0 / Pow2(-e) as real
  }

  /** If a * b == 2^23 then 1/b is a units of 2^-23. */
  lemma ReciprocalScale(a: nat, b: nat)
    requires a * b == 0x80_0000
    ensures b > 0 && 1.0 / b as real == a as real / MANTISSA_SCALE
  {
    var ra, rb := a as real, b as real;
    assert ra * rb == MANTISSA_SCALE;
    var w := 1.0 / rb;
    assert w * rb == 1.0;
    assert w * MANTISSA_SCALE == (w * rb) * ra;
  }

  /** The weight 2^(i-23) of mantissa bit i is 2^i units of 2^-23. */
  lemma BitWeight(i: nat)
    requires i <= MANTISSA_BITS
    ensures Pow2Real(i - MANTISSA_BITS) == Pow2(i) as real / MANTISSA_SCALE
  {
    Pow2Values();
    if i < MANTISSA_BITS {
      Pow2Add(i, MANTISSA_BITS - i);
      ReciprocalScale(Pow2(i), Pow2(MANTISSA_BITS - i));
    }
  }

  /** The significand the loop of `decode` is specified to produce: the implicit
      leading 1 plus the low 23 bits read as a fraction of 2^23. */
  function MantissaValue(mantissaBits: U32): (r: real)
  {
    1.0 + (mantissaBits % 0x80_0000) as real / MANTISSA_SCALE
  }

  /** The significand lies in [1, 2), and is exactly 1 when the mantissa bits are all 0. */
  lemma MantissaRange(mantissaBits: U32)
    ensures 1.0 <= MantissaValue(mantissaBits) < 2.0
    ensures MantissaValue(mantissaBits) == 1.0 <==> mantissaBits % 0x80_0000 == 0
  {
  }

  /** Distinct 23-bit mantissa fields decode to distinct significands. */
  lemma MantissaInjective(m1: U32, m2: U32)
    requires m1 <= 0x7f_ffff && m2 <= 0x7f_ffff
    requires MantissaValue(m1) == MantissaValue(m2)
    ensures m1 == m2
  {
  }

  /** The significand of a parsed mantissa field m is 1 + m / 2^23, in [1, 2). */
  lemma ParsedMantissaValue(bits: U32)
    ensures MantissaValue(Parse(bits).mantissa) == 1.0 + Parse(bits).mantissa as real / MANTISSA_SCALE
    ensures 1.0 <= MantissaValue(Parse(bits).mantissa) < 2.0
  {
    var m := Parse(bits).mantissa;
    assert m <= 0x7f_ffff;
    FieldMantissaValue(m);
    MantissaRange(m);
  }

  lemma FieldMantissaValue(m: U32)
    requires m <= 0x7f_ffff
    ensures MantissaValue(m) == 1.0 + m as real / MANTISSA_SCALE
  {
    assert m % 0x80_0000 == m;
  }

  /** The mantissa accumulation loop of `decode`. */
  method DecodeMantissa(mantissaBits: U32) returns (value: real)
    ensures value == MantissaValue(mantissaBits)
  {
    value := 1.0;
    for i := 0 to MANTISSA_BITS
      invariant value == 1.0 + (mantissaBits % Pow2(i)) as real / MANTISSA_SCALE
    {
      Pow2Monotone(i, 31);
      Pow2Values();
      var mask := Shl(1, i);
      var oneAtBitI := And(mantissaBits, mask);
      AndSingleBit(mantissaBits, i);
      ModPow2Step(mantissaBits, i);
      if oneAtBitI != 0 {
        var weight := Pow2Real(i - MANTISSA_BITS);
        BitWeight(i);
        value := value + weight;
      }
    }
    Pow2Values();
  }

  /** `decode`: the sign value, the unbiased exponent (or the overflow a debug
      build would panic on) and the significand. */
  method Decode(signBits: U32, exponentBits: U32, mantissaBits: U32) returns (r: Checked<DecodedFields>)
    ensures r == Overflow <==> UnbiasedExponent(exponentBits) == Overflow
    ensures r.Ok? ==> r.value == DecodedFields(SignValue(signBits), UnbiasedExponent(exponentBits).value,
                                               MantissaValue(mantissaBits))
  {
    var signValue := SignValue(signBits);
    var exponent := UnbiasedExponent(exponentBits);
    if exponent == Overflow {
      return Overflow;
    }
    var mantissaValue := DecodeMantissa(mantissaBits);
    r := Ok(DecodedFields(signValue, exponent.value, mantissaValue));
  }

  /** The pipeline of the program on one pattern: `parse`, then `decode` of its
      fields. Decoding parsed fields never overflows, and each decoded field has
      the meaning binary32 gives it. */
  method Inspect(bits: U32) returns (raw: RawFields, decoded: DecodedFields)
    ensures raw == Parse(bits)
    ensures decoded.signValue == if bits >= 0x8000_0000 then -1.0 else 1.0
    ensures -127 <= decoded.exponent <= 128 && decoded.exponent + BIAS == raw.exponent
    ensures 1.0 <= decoded.mantissaValue < 2.0
    ensures decoded.mantissaValue == 1.0 + raw.mantissa as real / MANTISSA_SCALE
  {
    raw := Parse(bits);
    ParsedSignValue(bits);
    ParsedExponentRange(bits);
    ParsedMantissaValue(bits);
    var r := Decode(raw.sign, raw.exponent, raw.mantissa);
    assert r.Ok?;
    decoded := r.value;
  }
}
