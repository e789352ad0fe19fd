/** Rust's unsigned 32-bit integer and the primitive operations the binary32
    decomposition applies to it: logical shifts and bitwise AND, given their
    exact meaning on natural numbers, and the powers of two they are built on. */
module U32Ops {

  const U32_MODULUS: nat := 0x1_0000_0000
  const I32_MIN: int := -0x8000_0000
  const I32_MAX: int := 0x7fff_ffff

  /** A value of Rust's `u32`. */
  type U32 = x: int | 0 <= x < 0x1_0000_0000

  /** 2^k. */
  function Pow2(k: nat): (r: nat)
    ensures r >= 1
  {
    if k == 0 then 1 else 2 * Pow2(k - 1)
  }

  /** `x >> k` on `u32`: the bits below position k fall off, so the result
      is never larger than x. */
  function Shr(x: U32, k: nat): (r: U32)
    requires k < 32
    ensures r <= x
  {
    Quotient(x, Pow2(k))
  }

  /** Unsigned division, which never exceeds the dividend. */
  function Quotient(x: U32, d: nat): (r: U32)
    requires d > 0
    ensures r <= x
  {
    DivAtMost(x, d);
    x / d
  }

  /** `x << k` on `u32`: the bits pushed past position 31 are lost. */
  function Shl(x: U32, k: nat): (r: U32)
    requires k < 32
    ensures x * Pow2(k) < U32_MODULUS ==> r == x * Pow2(k)
  {
    (x * Pow2(k)) % U32_MODULUS
  }

  /** `a & b`: bitwise AND, one binary digit at a time from the least significant. */
  function And(a: nat, b: nat): (r: nat)
    ensures r <= a && r <= b
    decreases a
  {
    if a == 0 || b == 0 then 0
    else 2 * And(a / 2, b / 2) + (if a % 2 == 1 && b % 2 == 1 then 1 else 0)
  }

  /** Bit i of x (0 is the least significant). */
  predicate BitSet(x: nat, i: nat)
  {
    (x / Pow2(i)) % 2 == 1
  }

  lemma {:induction false} Pow2Add(a: nat, b: nat)
    ensures Pow2(a + b) == Pow2(a) * Pow2(b)
  {
    if a > 0 {
      Pow2Add(a - 1, b);
    }
  }

  lemma Pow2Values()
    ensures Pow2(8) == 0x100 && Pow2(23) == 0x80_0000
    ensures Pow2(31) == 0x8000_0000 && Pow2(32) == U32_MODULUS
  {
    Pow2Add(8, 15);
    Pow2Add(23, 8);
    Pow2Add(31, 1);
  }

  lemma Pow2Monotone(a: nat, b: nat)
    requires a <= b
    ensures Pow2(a) <= Pow2(b)
  {
    Pow2Add(a, b - a);
  }

  lemma MulAtLeast(d: int, k: int)
    requires d > 0 && k >= 1
    ensures d * k >= d
  {
    assert d * k == d * (k - 1) + d;
  }

  /** Quotient and remainder are the only ones: x == d * q + r with 0 <= r < d. */
  lemma DivModUnique(x: int, d: int, q: int, r: int)
    requires d > 0 && 0 <= r < d && x == d * q + r
    ensures x / d == q && x % d == r
  {
    var q', r' := x / d, x % d;
    assert x == d * q' + r';
    assert d * (q - q') == r' - r by {
      assert d * (q - q') == d * q - d * q';
    }
    if q > q' {
      MulAtLeast(d, q - q');
    } else if q < q' {
      MulAtLeast(d, q' - q);
    }
  }

  lemma DivAtMost(x: nat, d: nat)
    requires d > 0
    ensures x / d <= x
  {
    assert x == d * (x / d) + x % d;
    if x / d >= 1 {
      MulAtLeast(x / d, d);
      assert d * (x / d) == (x / d) * d;
    }
  }

  /** Dividing by 2 and then by p is dividing by 2p; the remainders combine likewise. */
  lemma HalveThenDivide(x: nat, p: nat)
    requires p > 0
    ensures x / (2 * p) == (x / 2) / p
    ensures x % (2 * p) == 2 * ((x / 2) % p) + x % 2
  {
    var h := x / 2;
    assert x == 2 * (p * (h / p) + h % p) + x % 2;
    assert x == (2 * p) * (h / p) + (2 * (h % p) + x % 2);
    DivModUnique(x, 2 * p, h / p, 2 * (h % p) + x % 2);
  }

  /** Taking one more low bit adds that bit's weight to the remainder. */
  lemma ModPow2Step(x: nat, i: nat)
    ensures x % Pow2(i + 1) == x % Pow2(i) + (if BitSet(x, i) then Pow2(i) else 0)
  {
    var p := Pow2(i);
    var q := x / p;
    assert x == p * (2 * (q / 2) + q % 2) + x % p;
    assert x == (2 * p) * (q / 2) + (p * (q % 2) + x % p);
    DivModUnique(x, 2 * p, q / 2, p * (q % 2) + x % p);
  }

  /** Masking with k one-bits keeps the k low bits. */
  lemma {:induction false} AndLowMask(x: nat, k: nat)
    ensures And(x, Pow2(k) - 1) == x % Pow2(k)
  {
    if k == 0 {
      assert Pow2(k) == 1;
    } else if x == 0 {
      DivModUnique(x, Pow2(k), 0, 0);
    } else {
      var p := Pow2(k - 1);
      var mask := Pow2(k) - 1;
      assert mask == 2 * (p - 1) + 1;
      assert mask / 2 == p - 1 && mask % 2 == 1;
      calc {
        And(x, mask);
        2 * And(x / 2, p - 1) + x % 2;
        { AndLowMask(x / 2, k - 1); }
        2 * ((x / 2) % p) + x % 2;
        { HalveThenDivide(x, p); }
        x % (2 * p);
      }
    }
  }

  /** Masking with the single bit 2^i keeps that bit alone. */
  lemma {:induction false} AndSingleBit(x: nat, i: nat)
    ensures And(x, Pow2(i)) == if BitSet(x, i) then Pow2(i) else 0
  {
    if i == 0 {
      assert And(x / 2, 0) == 0;
    } else if x == 0 {
      DivModUnique(x, Pow2(i), 0, 0);
    } else {
      var p := Pow2(i - 1);
      assert Pow2(i) == 2 * p;
      assert Pow2(i) / 2 == p && Pow2(i) % 2 == 0;
      calc {
        And(x, Pow2(i));
        2 * And(x / 2, p);
        { AndSingleBit(x / 2, i - 1); }
        2 * (if BitSet(x / 2, i - 1) then p else 0);
        { HalveThenDivide(x, p); }
        if BitSet(x, i) then Pow2(i) else 0;
      }
    }
  }
}
