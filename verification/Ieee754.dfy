/** Powers of two. */
module Powers {

  function Pow2(n: nat): (r: nat)
    ensures r > 0
  {
    if n == 0 then 1 else 2 * Pow2(n - 1)
  }

  lemma {:induction false} Pow2Add(m: nat, n: nat)
    ensures Pow2(m + n) == Pow2(m) * Pow2(n)
  {
    if m > 0 {
      Pow2Add(m - 1, n);
      Pow2Step(m + n);
      Pow2Step(m);
      DoubleProduct(Pow2(m - 1), Pow2(n));
    }
  }

  lemma Pow2Step(n: nat)
    requires n > 0
    ensures Pow2(n) == 2 * Pow2(n - 1)
  {
  }

  lemma DoubleProduct(a: nat, b: nat)
    ensures 2 * (a * b) == (2 * a) * b
  {
  }

  lemma {:induction false} Pow2Monotone(m: nat, n: nat)
    requires m <= n
    ensures Pow2(m) <= Pow2(n)
  {
    if m < n {
      Pow2Monotone(m, n - 1);
    }
  }

  lemma MulMonotone(a: int, b: int, k: nat)
    requires a <= b
    ensures a * k <= b * k
  {
  }

  lemma MulStrict(a: int, b: int, k: nat)
    requires a < b && k > 0
    ensures a * k < b * k
  {
  }

  lemma DivMod(x: int, d: nat)
    requires d > 0
    ensures x == (x / d) * d + x % d
    ensures 0 <= x % d < d
  {
  }

  /** The quotient and remainder of a number put together from both. */
  lemma DivModUnique(x: int, q: int, r: int, d: nat)
    requires 0 <= r < d
    requires x == q * d + r
    ensures x / d == q && x % d == r
  {
    DivMod(x, d);
    if x / d < q {
      MulMonotone(x / d + 1, q, d);
      assert false;
    }
    if x / d > q {
      MulMonotone(q + 1, x / d, d);
      assert false;
    }
  }

  /** Quotient and remainder of natural numbers. */
  function Quot(x: nat, d: nat): (q: nat)
    requires d > 0
  {
    x / d
  }

  function Rem(x: nat, d: nat): (r: nat)
    requires d > 0
    ensures r < d
  {
    x % d
  }

  /** Where a number lies tells where its quotient lies, and the other way round. */
  lemma QuotBounds(x: nat, d: nat, low: nat, high: nat)
    requires d > 0
    ensures low <= Quot(x, d) <==> low * d <= x
    ensures Quot(x, d) < high <==> x < high * d
  {
    QuotRem(x, d);
    QuotAbove(x, d, low);
    QuotAbove(x, d, high);
  }

  lemma QuotAbove(x: nat, d: nat, k: nat)
    requires d > 0
    ensures k <= Quot(x, d) <==> k * d <= x
  {
    QuotRem(x, d);
    if k <= Quot(x, d) {
      MulMonotone(k, Quot(x, d), d);
    } else {
      MulMonotone(Quot(x, d) + 1, k, d);
    }
  }

  lemma QuotRemUnique(x: nat, q: nat, r: nat, d: nat)
    requires r < d && x == q * d + r
    ensures Quot(x, d) == q && Rem(x, d) == r
  {
    DivModUnique(x, q, r, d);
  }

  lemma QuotRem(x: nat, d: nat)
    requires d > 0
    ensures x == Quot(x, d) * d + Rem(x, d)
  {
    DivMod(x, d);
  }
}

/**
 * IEEE 754 binary interchange formats: what a bit pattern denotes.
 *
 * Every finite number of a format is a whole multiple of its smallest positive number, so a
 * finite value is represented here by that multiple, an integer; comparisons and distances of
 * values are then comparisons and distances of integers.
 */
module Ieee754 {
  import opened Powers

  /** `sig` stored significand bits and `exp` exponent bits; the sign bit comes on top. */
  datatype Format = Format(sig: nat, exp: nat) {

    predicate Valid() {
      sig > 0 && exp > 1
    }

    function SignBit(): (r: nat) {
      Pow2(sig + exp)
    }

    /** The exponent field that marks infinities and NaNs. */
    function MaxExponent(): (r: nat) {
      Pow2(exp) - 1
    }

    function Bias(): (r: nat)
      requires Valid()
    {
      Pow2(exp - 1) - 1
    }

    /** The bit pattern of infinity, without its sign. */
    function InfinityBits(): (r: nat) {
      MaxExponent() * Pow2(sig)
    }

    /** Multiplying a value by this gives its number of units: 2^(bias + sig - 1) units make 1. */
    function UnitsPerOne(): (r: nat)
      requires Valid()
    {
      Pow2(Bias() + sig - 1)
    }
  }

  const Binary32 := Format(23, 8)
  const Binary64 := Format(52, 11)
  const Binary128 := Format(112, 15)

  datatype Value = NaN | Infinite(negative: bool) | Finite(units: int)

  /** The magnitude, in units, of exponent field `e` and stored significand `m` over `p` == 2^sig. */
  function Scaled(p: nat, e: nat, m: nat): (r: nat) {
    if e == 0 then m else (p + m) * Pow2(e - 1)
  }

  /** The magnitude, in units, that the bits below the sign denote when they are below infinity. */
  function Magnitude(f: Format, abs: nat): (r: nat) {
    Scaled(Pow2(f.sig), Quot(abs, Pow2(f.sig)), Rem(abs, Pow2(f.sig)))
  }

  function Abs(f: Format, bits: nat): (r: nat) {
    Rem(bits, f.SignBit())
  }

  predicate Negative(f: Format, bits: nat) {
    bits >= f.SignBit()
  }

  function Decode(f: Format, bits: nat): (v: Value) {
    var abs := Abs(f, bits);
    if abs > f.InfinityBits() then NaN
    else if abs == f.InfinityBits() then Infinite(Negative(f, bits))
    else Finite(if Negative(f, bits) then -(Magnitude(f, abs) as int) else Magnitude(f, abs))
  }

  /** The `<` of the number line with both infinities; NaN is not comparable. */
  predicate ValueLess(a: Value, b: Value) {
    match (a, b)
    case (Finite(x), Finite(y)) => x < y
    case (Infinite(n), Finite(_)) => n
    case (Finite(_), Infinite(n)) => !n
    case (Infinite(n), Infinite(m)) => n && !m
    case _ => false
  }

  lemma ScaledStrict(p: nat, ea: nat, ma: nat, eb: nat, mb: nat)
    requires ma < p && mb < p
    requires ea < eb || (ea == eb && ma < mb)
    ensures Scaled(p, ea, ma) < Scaled(p, eb, mb)
  {
    if ea == eb {
      if ea > 0 {
        MulStrict(p + ma, p + mb, Pow2(ea - 1));
      }
    } else {
      MulMonotone(p, p + mb, Pow2(eb - 1));
      Pow2Monotone(ea, eb - 1);
      MulMonotone(Pow2(ea), Pow2(eb - 1), p);
      if ea > 0 {
        MulStrict(p + ma, p + p, Pow2(ea - 1));
        assert (p + p) * Pow2(ea - 1) == p * Pow2(ea);
      }
    }
  }

  /** The bit patterns without sign order like the magnitudes they denote. */
  lemma MagnitudeStrict(f: Format, a: nat, b: nat)
    requires a < b
    ensures Magnitude(f, a) < Magnitude(f, b)
  {
    var p := Pow2(f.sig);
    QuotRem(a, p);
    QuotRem(b, p);
    if Quot(a, p) > Quot(b, p) {
      MulMonotone(Quot(b, p) + 1, Quot(a, p), p);
      assert false;
    }
    ScaledStrict(p, Quot(a, p), Rem(a, p), Quot(b, p), Rem(b, p));
  }

}
