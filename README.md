# visualizing-f32: binary32 field decomposition, modelled in Dafny

The program takes a 32-bit IEEE 754 binary32 value and splits its bit
pattern into three fields: the sign (bit 31), the biased exponent
(bits 30..23) and the mantissa (bits 22..0). This is `parse`. It then gives
each field a real-number meaning. This is `decode`:

- the sign value is (-1)^sign;
- the exponent is the field minus the bias 127;
- the significand starts at an implicit leading 1 and adds 2^(i-23) for each
  set mantissa bit i.

The binary interchange format is the one in section 3.4 of IEEE 754-2008.

The model has three modules:

- `U32Ops` (`u32_ops.dfy`) holds Rust's `u32` as the subset type
  `U32 = 0 <= x < 2^32`. It gives the shifts and the bitwise AND their exact
  meaning on naturals: `Shr` is division by 2^k, `Shl` is multiplication by
  2^k modulo 2^32, and `And` is the bitwise AND, taken one digit at a time.
  It also proves what masking with 2^k-1 and with 2^i computes.
- `Extractor` (`extractor.dfy`) models `parse` on the bit pattern that
  `n.to_bits()` returns. `Parse` performs the source's shifts and masks
  exactly. `Assemble` is its inverse: it writes the three fields side by side.
- `Decoder` (`decoder.dfy`) models `decode`:
  - `SignValue` is the sign value.
  - `UnbiasedExponent` is `(exponent_bits as i32) - BIAS`, with `i32`
    overflow checking.
  - `DecodeMantissa` is the accumulation loop, proved against the
    specification function `MantissaValue`.
  - `Decode` is `decode` as a whole.
  - `Inspect` runs the program's pipeline (`parse`, then `decode`) on one
    pattern.

The bias is applied uniformly, as in the source. Exponent field 0 decodes to
-127 and field 255 to 128. Zeros, subnormals, infinities and NaN get no
special case.

The source's `f32` arithmetic is modelled by its exact mathematical value:

- `(-1.0).powf(s)` is (-1)^s;
- `2.0.powf(i - 23.0)` is 2^(i-23).

Every partial sum of the mantissa loop is a dyadic rational with at most 24
significant bits. `f32` holds all of them exactly, so the model uses `real`.

`(exponent_bits as i32) - BIAS` is not defined on every `u32`. It overflows
`i32` for arguments in [2^31, 2^31 + 127), and a debug build panics on these.
`UnbiasedExponent` and `Decode` return `Overflow` there. `ParsedExponentRange`
and `Inspect` prove that `parse` never produces such a field, so the program
never reaches that case.

The program's formula comment (src/main.rs:21) gives the exponent value as the
radix 2 raised, in floating point, to the exponent field minus the bias. The
model keeps the integer `e - 127` instead (see Left out).

## Model

| member | source | states |
|---|---|---|
| U32Ops.Shr | src/main.rs:51-52 | `x >> k` never exceeds x, so the shifted pattern is again a `u32`; its value bits div 2^k on the program's shifts is fixed by `MasksAsArithmetic` |
| U32Ops.Shl | src/main.rs:66 | `1 << i`, like any left shift that does not overflow `u32`, is the operand times 2^i |
| U32Ops.And | src/main.rs:67 | a bitwise AND is never larger than either operand |
| U32Ops.AndLowMask | src/main.rs:52-53 | masking with 2^k-1 (the masks `0xff` and `0x7fffff`) leaves the pattern modulo 2^k |
| U32Ops.AndSingleBit | src/main.rs:66-68 | `x & (1 << i)` is 2^i when bit i of x is set and 0 when it is clear, so the test `!= 0` is exactly "bit i is set" |
| U32Ops.ModPow2Step | src/main.rs:64-73 | the low i+1 bits of x are the low i bits plus 2^i when bit i is set: the step of the mantissa loop |
| Extractor.MasksAsArithmetic | src/main.rs:51-53 | the three shift-and-mask expressions are bits div 2^31, (bits div 2^23) mod 256, and bits mod 2^23 |
| Extractor.Parse | src/main.rs:48-56 | defined for all 2^32 patterns, NaN and infinity encodings included, with no error path; sign <= 1, exponent <= 255, mantissa < 2^23; sign*2^31 + exponent*2^23 + mantissa gives back the pattern; sign is 1 exactly when bit 31 is set |
| Extractor.Assemble | src/main.rs:14-17 | writing the fields side by side gives a pattern >= 2^31 exactly when the sign field is 1 |
| Extractor.AssembleInjective | src/main.rs:14-17 | distinct well-formed field triples give distinct patterns |
| Extractor.ParseAssemble | src/main.rs:48-56 | parsing an assembled pattern gives back the fields; with `Parse`'s contract, parse is a bijection between the 2^32 patterns and the well-formed field triples |
| Extractor.SignedZeros | src/main.rs:24 | a pattern parses to (0,0,0) exactly when it is 0x00000000 (+0.0), and to (1,0,0) exactly when it is 0x80000000 (-0.0); the two zeros differ only in the sign bit |
| Decoder.SignValue | src/main.rs:59 | (-1)^s is +1 for an even s (sign bit 0) and -1 for an odd s (sign bit 1), and nothing else |
| Decoder.ParsedSignValue | src/main.rs:59 | for every pattern, the sign value of the parsed sign field is -1 exactly when bit 31 is set and +1 otherwise |
| Decoder.AsI32 | src/main.rs:61 | `as i32` gives a value in the i32 range that is congruent to the `u32` modulo 2^32 |
| Decoder.UnbiasedExponent | src/main.rs:61 | overflows exactly for arguments in [2^31, 2^31+127); otherwise the result lies in the i32 range, and adding the bias back gives the argument modulo 2^32; for an 8-bit field f the result is f - 127 |
| Decoder.ParsedExponentRange | src/main.rs:61 | the exponent field from any pattern decodes without overflow to a value in [-127, 128], and adding 127 recovers the field |
| Decoder.Pow2Real | src/main.rs:70 | 2^e is positive for every integer e; for e = i - 23 with i <= 23 it equals 2^i / 2^23 by `BitWeight` |
| Decoder.BitWeight | src/main.rs:69-70 | the weight 2^(i-23) added for bit i (i <= 23) is 2^i / 2^23 |
| Decoder.MantissaRange | src/main.rs:64-73 | the significand lies in [1, 2), and equals 1 exactly when the low 23 mantissa bits are all 0 |
| Decoder.MantissaInjective | src/main.rs:64-73 | distinct 23-bit mantissa fields give distinct significands |
| Decoder.FieldMantissaValue | src/main.rs:64-73 | for a 23-bit mantissa field m the significand is exactly 1 + m / 2^23 |
| Decoder.ParsedMantissaValue | src/main.rs:64-73 | for every pattern, the significand of the parsed mantissa field m is 1 + m / 2^23 and lies in [1, 2) |
| Decoder.DecodeMantissa | src/main.rs:64-73 | the loop ends with 1 + (m mod 2^23) / 2^23; its invariant is that after bits 0..i the accumulator is 1 + (m mod 2^i) / 2^23 |
| Decoder.Decode | src/main.rs:58-76 | the result is the sign value (-1)^s, the unbiased exponent and the significand; it is `Overflow` exactly when the exponent subtraction overflows |
| Decoder.Inspect | src/main.rs:37-38 | for every pattern: decoding the parsed fields never overflows; the sign value is -1 exactly when bit 31 is set and +1 otherwise; the exponent lies in [-127, 128] and equals field - 127; the significand lies in [1, 2) and equals 1 + mantissa / 2^23 |

## Left out

- Command-line handling is not modelled. This covers reading the argument,
  `str::parse::<f32>` and its two fatal `expect` paths (src/main.rs:31-35).
  It is I/O plus a library parser whose code is not part of this model.
- `f32::to_bits` (src/main.rs:49) is not modelled. It is a bit
  reinterpretation done by the standard library. The model takes the `u32`
  pattern as its input instead.
- `RADIX.powf(...)` for the exponent value (src/main.rs:62) is not modelled.
  It is floating-point arithmetic: it overflows to infinity at exponent 128
  and gives subnormal results for small exponents. The model keeps the
  integer exponent.
- `recalculate` (src/main.rs:78-80) is not modelled. It multiplies three `f32`
  values with rounding.
- Output formatting with `println!` (src/main.rs:41-45) is not modelled.
- The three test functions (src/main.rs:85-98) are empty and assert nothing.
- Decoder.SignValue: gives the exact (-1)^s for every `u32` s. It ignores that
  `sign_bits as f32` rounds arguments above 2^24, which can change their
  parity. `parse` only produces 0 and 1, and these are exact.
- Decoder.UnbiasedExponent: follows a debug build, where `i32` overflow
  panics (the `Overflow` result). A release build would wrap instead. Both
  agree on every field `parse` produces.
- Decoder.DecodeMantissa: adds the weights with exact `real` arithmetic. The
  `f32` additions of the source give the same values, because every partial
  sum is a dyadic rational with at most 24 significant bits.
