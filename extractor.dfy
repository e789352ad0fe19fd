/** The field extractor: splits the 32-bit pattern of an IEEE 754 binary32
    value into its sign bit (bit 31), its biased exponent (bits 30..23) and its
    mantissa (bits 22..0), by the shifts and masks of `parse`. */
module Extractor {
  import opened U32Ops

  const SIGN_SHIFT: nat := 31
  const EXPONENT_SHIFT: nat := 23
  const SIGN_MASK: nat := 1
  const EXPONENT_MASK: nat := 0xff
  const MANTISSA_MASK: nat := 0x7f_ffff

  /** The three fields, each held in a `u32` as `parse` returns them. */
  datatype RawFields = RawFields(sign: U32, exponent: U32, mantissa: U32)

  /** Each field fits its width: 1, 8 and 23 bits. */
  predicate WellFormed(f: RawFields)
  {
    f.sign <= 1 && f.exponent <= 0xff && f.mantissa <= 0x7f_ffff
  }

  /** The 32-bit pattern made by writing the sign, the exponent and the
      mantissa one after the other, most significant first. */
  function Assemble(f: RawFields): (bits: U32)
    requires WellFormed(f)
    ensures bits >= 0x8000_0000 <==> f.sign == 1
  {
    f.sign * 0x8000_0000 + f.exponent * 0x80_0000 + f.mantissa
  }

  /** `parse`: accepts every pattern (NaN and infinity encodings included),
      yields fields of the right widths, and loses nothing. */
  function Parse(bits: U32): (r: RawFields)
    ensures WellFormed(r)
    ensures Assemble(r) == bits
    ensures r.sign == 1 <==> bits >= 0x8000_0000
  {
    var sign := And(Shr(bits, SIGN_SHIFT), SIGN_MASK);
    var exponent := And(Shr(bits, EXPONENT_SHIFT), EXPONENT_MASK);
    var mantissa := And(bits, MANTISSA_MASK);
    MasksAsArithmetic(bits);
    Reassembly(bits);
    RawFields(sign, exponent, mantissa)
  }

  /** What the shifts and masks of `parse` compute, as quotients and remainders. */
  lemma MasksAsArithmetic(bits: U32)
    ensures And(Shr(bits, SIGN_SHIFT), SIGN_MASK) == bits / 0x8000_0000
    ensures And(Shr(bits, EXPONENT_SHIFT), EXPONENT_MASK) == (bits / 0x80_0000) % 0x100
    ensures And(bits, MANTISSA_MASK) == bits % 0x80_0000
  {
    Pow2Values();
    assert Pow2(1) == 2;
    AndLowMask(Shr(bits, SIGN_SHIFT), 1);
    AndLowMask(Shr(bits, EXPONENT_SHIFT), 8);
    AndLowMask(bits, 23);
  }

  lemma Reassembly(bits: U32)
    ensures (bits / 0x8000_0000) * 0x8000_0000 + ((bits / 0x80_0000) % 0x100) * 0x80_0000
            + bits % 0x80_0000 == bits
  {
    HalveThenDivide(bits / 0x80_0000, 0x80);
    assert bits / 0x80_0000 / 0x100 == bits / 0x8000_0000;
  }

  /** Well-formed fields are determined by the pattern they assemble to. */
  lemma AssembleInjective(f: RawFields, g: RawFields)
    requires WellFormed(f) && WellFormed(g) && Assemble(f) == Assemble(g)
    ensures f == g
  {
    var bits := Assemble(f);
    DivModUnique(bits, 0x80_0000, f.sign * 0x100 + f.exponent, f.mantissa);
    DivModUnique(bits, 0x80_0000, g.sign * 0x100 + g.exponent, g.mantissa);
    DivModUnique(bits / 0x80_0000, 0x100, f.sign, f.exponent);
    DivModUnique(bits / 0x80_0000, 0x100, g.sign, g.exponent);
  }

  /** Parsing the pattern assembled from well-formed fields gives the fields back:
      together with Parse's own contract, Parse and Assemble are inverse bijections
      between the 2^32 patterns and the well-formed field triples. */
  lemma ParseAssemble(f: RawFields)
    requires WellFormed(f)
    ensures Parse(Assemble(f)) == f
  {
    var g := Parse(Assemble(f));
    AssembleInjective(g, f);
  }

  /** The patterns of +0.0 (sign 0) and -0.0 (sign 1) are the only ones with
      exponent and mantissa both 0: they differ in the sign bit alone. */
  lemma SignedZeros(bits: U32, sign: U32)
    requires sign <= 1
    ensures Parse(bits) == RawFields(sign, 0, 0) <==> bits == sign * 0x8000_0000
  {
    var zero := RawFields(sign, 0, 0);
    if bits == Assemble(zero) {
      ParseAssemble(zero);
    } else {
      assert Assemble(Parse(bits)) != Assemble(zero);
    }
  }
}
