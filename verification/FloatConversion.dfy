/**
 * Conversions between 128-bit integers and IEEE 754 numbers: floattidf.c, floatuntidf.c,
 * fixunsdfti.c, fixunstfti.c, fixdfti.c and __clzti2 of int_t.h.
 *
 * A shift is a division or multiplication by a power of two, a mask of low bits a remainder, and
 * an "or" of fields that do not overlap a sum; every width that could wrap is written out.
 */
module FloatConversion {
  import opened Powers
  import opened Ieee754

  /** DBL_MANT_DIG. */
  const MantissaDigits := 53

  // ---------------------------------------------------------------- counting leading zeros

  /** The number of significant binary digits. */
  function BitLength(x: nat): (n: nat) {
    if x == 0 then 0 else 1 + BitLength(x / 2)
  }

  lemma {:induction false} BitLengthBounds(x: nat)
    requires x > 0
    ensures BitLength(x) > 0 && Pow2(BitLength(x) - 1) <= x < Pow2(BitLength(x))
  {
    if x > 1 {
      BitLengthBounds(x / 2);
    } else {
      assert BitLength(1) == 1 + BitLength(0);
    }
  }

  lemma BitLengthUnique(x: nat, n: nat)
    requires n > 0 && Pow2(n - 1) <= x < Pow2(n)
    ensures BitLength(x) == n
  {
    BitLengthBounds(x);
    if BitLength(x) < n {
      Pow2Monotone(BitLength(x), n - 1);
    } else if BitLength(x) > n {
      Pow2Monotone(n, BitLength(x) - 1);
    }
  }

  /** __builtin_clzll, for a non-zero 64-bit word. */
  function Clz64(x: nat): (n: int)
    requires 0 < x < Pow2(64)
  {
    64 - BitLength(x)
  }

  /** __clzti2: looks at the high word, and at the low one when the high one is zero. */
  function Clzti2(a: nat): (n: int)
    requires 0 < a < Pow2(128)
  {
    var high, low := Quot(a, Pow2(64)), Rem(a, Pow2(64));
    Halves(a);
    if high == 0 then Clz64(low) + 64 else Clz64(high)
  }

  lemma Halves(a: nat)
    requires 0 < a < Pow2(128)
    ensures Quot(a, Pow2(64)) < Pow2(64)
    ensures Quot(a, Pow2(64)) == 0 ==> Rem(a, Pow2(64)) == a
  {
    hide Pow2, Quot, Rem;
    Pow2Add(64, 64);
    QuotRem(a, Pow2(64));
    if Quot(a, Pow2(64)) >= Pow2(64) {
      MulMonotone(Pow2(64), Quot(a, Pow2(64)), Pow2(64));
    }
  }

  /** Leading zeros and significant digits make up all 128 digits. */
  lemma Clzti2Correct(a: nat)
    requires 0 < a < Pow2(128)
    ensures 128 - Clzti2(a) == BitLength(a) <= 128
  {
    hide Pow2, Quot, Rem, BitLength;
    Halves(a);
    AtMost128(a);
    if Quot(a, Pow2(64)) > 0 {
      HighWordDigits(a, Pow2(64), 64);
    }
  }

  lemma AtMost128(a: nat)
    requires 0 < a < Pow2(128)
    ensures BitLength(a) <= 128
  {
    hide Pow2, BitLength;
    BitLengthBounds(a);
    if BitLength(a) > 128 {
      Pow2Monotone(128, BitLength(a) - 1);
    }
  }

  /** The high part of a number decides how long it is. */
  lemma HighWordDigits(a: nat, d: nat, k: nat)
    requires d == Pow2(k) && Quot(a, d) > 0
    ensures BitLength(a) == BitLength(Quot(a, d)) + k
  {
    hide Pow2, Quot, BitLength;
    var n := BitLength(Quot(a, d));
    BitLengthBounds(Quot(a, d));
    Pow2Add(n - 1, k);
    Pow2Add(n, k);
    QuotBounds(a, d, Pow2(n - 1), Pow2(n));
    BitLengthUnique(a, n + k);
  }

  // ---------------------------------------------------------------- what correct rounding is

  function Distance(x: int, y: int): (d: nat) {
    if x < y then y - x else x - y
  }

  /** `bits` is a number of the format; in units of the smallest positive one. */
  ghost predicate IsFinite(f: Format, bits: nat) {
    bits < 2 * f.SignBit() && Decode(f, bits).Finite?
  }

  /**
   * roundTiesToEven of section 4.3.1 of IEEE 754-2008: no number of the format is nearer to the
   * target, and of two nearest ones the one with an even significand is taken.
   */
  ghost predicate NearestEven(f: Format, target: int, bits: nat) {
    && IsFinite(f, bits)
    && forall x: nat | IsFinite(f, x) ::
         var mine, other := Distance(Decode(f, bits).units, target), Distance(Decode(f, x).units, target);
         mine <= other && (mine == other && Decode(f, x) != Decode(f, bits) ==> bits % 2 == 0)
  }

  /** The bits below the sign and with the sign set. */
  lemma DecodeSigned(f: Format, abs: nat)
    requires f.Valid() && abs < f.InfinityBits()
    ensures abs < f.SignBit()
    ensures Decode(f, abs) == Finite(Magnitude(f, abs))
    ensures Decode(f, abs + f.SignBit()) == Finite(-(Magnitude(f, abs) as int))
    ensures (abs + f.SignBit()) % 2 == abs % 2
  {
    hide Pow2, Magnitude, Quot, Rem;
    var s := f.SignBit();
    assert abs < s by {
      Pow2Add(f.exp, f.sig);
      MulMonotone(f.MaxExponent(), Pow2(f.exp), Pow2(f.sig));
    }
    QuotRemUnique(abs, 0, abs, s);
    QuotRemUnique(abs + s, 1, abs, s);
    assert s == 2 * Pow2(f.sig + f.exp - 1) by {
      Pow2Add(1, f.sig + f.exp - 1);
      Pow2One();
    }
  }

  lemma Pow2One()
    ensures Pow2(1) == 2
  {
  }

  /** A finite number is at most the one just below the target or at least the one just above it. */
  lemma NoneBetween(f: Format, low: nat, x: nat)
    requires f.Valid() && IsFinite(f, x)
    ensures Decode(f, x).units <= Magnitude(f, low) || Decode(f, x).units >= Magnitude(f, low + 1)
    ensures -Decode(f, x).units <= Magnitude(f, low) || -Decode(f, x).units >= Magnitude(f, low + 1)
  {
    var abs := Abs(f, x);
    if abs < low {
      MagnitudeStrict(f, abs, low);
    } else if abs > low + 1 {
      MagnitudeStrict(f, low + 1, abs);
    }
    if low > 0 {
      MagnitudeStrict(f, 0, low);
    }
  }

  /** The better of the two neighbours of a target is correctly rounded, for both signs. */
  lemma NeighbourIsNearest(f: Format, target: nat, low: nat, bits: nat)
    requires f.Valid() && low + 1 < f.InfinityBits()
    requires Magnitude(f, low) <= target <= Magnitude(f, low + 1)
    requires bits == low || bits == low + 1
    requires var down, up := target - Magnitude(f, low), Magnitude(f, low + 1) - target;
             if bits == low then down < up || (down == up && low % 2 == 0) else up < down || (down == up && low % 2 == 1)
    ensures NearestEven(f, target, bits)
    ensures NearestEven(f, -(target as int), bits + f.SignBit())
  {
    hide Pow2, Magnitude, Quot, Rem, Decode;
    DecodeSigned(f, bits);
    MagnitudeStrict(f, low, low + 1);
    forall x: nat | IsFinite(f, x)
      ensures var mine, other := Distance(Magnitude(f, bits), target), Distance(Decode(f, x).units, target);
              mine <= other && (mine == other && Decode(f, x) != Decode(f, bits) ==> bits % 2 == 0)
      ensures var mine, other := Distance(-(Magnitude(f, bits) as int), -(target as int)), Distance(Decode(f, x).units, -(target as int));
              mine <= other && (mine == other && Decode(f, x) != Decode(f, bits + f.SignBit()) ==> (bits + f.SignBit()) % 2 == 0)
    {
      NoneBetween(f, low, x);
    }
  }

  // ---------------------------------------------------------------- integer to double

  /** What rounding to 53 digits must give: `q` with `r` left over out of `d`. */
  function RoundHalfEven(q: nat, r: nat, d: nat): (m: nat)
    ensures m == q || m == q + 1
  {
    if 2 * r < d || (2 * r == d && q % 2 == 0) then q else q + 1
  }

  /**
   * The common part of ___floatuntidf and ___floattidf, over `sd` significant digits: brings `a` to exactly 53 digits,
   * rounded, and returns the exponent that goes with them.
   */
  method RoundToMantissa(input: nat, sd: nat) returns (a: nat, e: nat)
    requires 0 < input < Pow2(128) && sd == BitLength(input) <= 128
    ensures sd <= MantissaDigits ==> e == sd - 1 && a == input * Pow2(MantissaDigits - sd)
    ensures sd > MantissaDigits ==>
              var d := Pow2(sd - MantissaDigits);
              var m := RoundHalfEven(Quot(input, d), Rem(input, d), d);
              if m < Pow2(53) then e == sd - 1 && a == m else e == sd && a == Pow2(52) && m == Pow2(53)
    ensures Pow2(52) <= a < Pow2(53)
  {
    hide Pow2, Quot, Rem, BitLength, RoundHalfEven, Guarded, OrOne;
    BitLengthBounds(input);
    a := input;
    e := sd - 1;
    if sd > MantissaDigits {
      ghost var d := Pow2(sd - MantissaDigits);
      ghost var q, r := Quot(input, d), Rem(input, d);
      LeadingDigits(input, sd);
      if sd == MantissaDigits + 1 {
        a := Rem(a * 2, Pow2(128));
      } else if sd == MantissaDigits + 2 {
      } else {
        var sticky := Rem(a, Pow2(sd - (MantissaDigits + 2))) != 0;
        a := Quot(a, Pow2(sd - (MantissaDigits + 2)));
        a := if sticky then OrOne(a) else a;
      }
      GuardDigits(input, sd, a);
      RoundingStep(q, r, d, a);
      // or P into R, round, and drop Q and R
      a := if a / 4 % 2 == 1 then OrOne(a) else a;
      a := a + 1;
      a := a / 4;
      CarryBit(a);
      if Quot(a, Pow2(MantissaDigits)) % 2 == 1 {
        a := a / 2;
        e := e + 1;
      }
    } else {
      ExactDigits(input, sd);
      a := Rem(a * Pow2(MantissaDigits - sd), Pow2(128));
    }
  }

  /** The only rounded mantissa with the carry bit set is 2^53. */
  lemma CarryBit(a: nat)
    requires Pow2(52) <= a <= Pow2(53)
    ensures Quot(a, Pow2(53)) == if a == Pow2(53) then 1 else 0
    ensures a == Pow2(53) ==> a / 2 == Pow2(52)
    ensures Pow2(52) < Pow2(53)
  {
    hide Pow2, Quot;
    Pow2One();
    Pow2Add(1, 52);
    if a == Pow2(53) {
      QuotRemUnique(a, 1, 0, Pow2(53));
    } else {
      QuotRemUnique(a, 0, a, Pow2(53));
    }
  }

  /** A number of at most 53 digits is moved up to 53 digits without loss. */
  lemma ExactDigits(a: nat, sd: nat)
    requires a > 0 && sd == BitLength(a) <= MantissaDigits
    ensures Pow2(52) <= a * Pow2(MantissaDigits - sd) < Pow2(53)
    ensures Rem(a * Pow2(MantissaDigits - sd), Pow2(128)) == a * Pow2(MantissaDigits - sd)
  {
    hide Pow2, BitLength;
    var k := Pow2(MantissaDigits - sd);
    BitLengthBounds(a);
    Pow2Add(sd - 1, MantissaDigits - sd);
    Pow2Add(sd, MantissaDigits - sd);
    MulMonotone(Pow2(sd - 1), a, k);
    MulStrict(a, Pow2(sd), k);
    Pow2Monotone(53, 128);
    QuotRemUnique(a * k, 0, a * k, Pow2(128));
  }

  /** Sets the lowest bit. */
  function OrOne(a: nat): (r: nat) {
    if a % 2 == 0 then a + 1 else a
  }

  /** The top 53 digits, and what is below them. */
  lemma LeadingDigits(a: nat, sd: nat)
    requires a > 0 && sd == BitLength(a) > MantissaDigits
    ensures Pow2(52) <= Quot(a, Pow2(sd - MantissaDigits)) < Pow2(53)
  {
    hide Pow2, Quot, BitLength;
    var s: nat := sd - MantissaDigits;
    BitLengthBounds(a);
    Pow2Add(52, s);
    Pow2Add(53, s);
    QuotBounds(a, Pow2(s), Pow2(52), Pow2(53));
  }

  /** After the shift, two guard digits below the mantissa say on which side of the half the rest is. */
  ghost predicate Guarded(q: nat, r: nat, d: nat, a: nat) {
    && 4 * q <= a <= 4 * q + 3
    && (a - 4 * q < 2 <==> 2 * r < d)
    && (a - 4 * q == 2 <==> 2 * r == d)
  }

  /** Or-ing the last kept digit into the guard digits, adding one and dropping them rounds. */
  lemma RoundingStep(q: nat, r: nat, d: nat, a: nat)
    requires Guarded(q, r, d, a)
    ensures ((if a / 4 % 2 == 1 then OrOne(a) else a) + 1) / 4 == RoundHalfEven(q, r, d)
  {
    hide OrOne;
    var t := a - 4 * q;
    Quarter(q, t);
    var kept := if q % 2 == 1 then OrOne(a) else a;
    OrOneIs(a);
    if t == 0 {
      Quarter(q, if q % 2 == 1 then 2 else 1);
    } else if t == 1 {
      Quarter(q, 2);
    } else if t == 2 && q % 2 == 0 {
      Quarter(q, 3);
    } else {
      Quarter(q + 1, 0);
    }
    assert kept + 1 == if t == 0 then (if q % 2 == 1 then 4 * q + 2 else 4 * q + 1) else if t == 1 then 4 * q + 2
                       else if t == 2 && q % 2 == 0 then 4 * q + 3 else 4 * (q + 1);
  }

  lemma OrOneIs(a: nat)
    ensures OrOne(a) == if a % 2 == 0 then a + 1 else a
  {
  }

  lemma Quarter(q: nat, t: nat)
    requires t < 4
    ensures (4 * q + t) / 4 == q && (4 * q + t) % 2 == t % 2
  {
    DivModUnique(4 * q + t, q, t, 4);
    DivModUnique(4 * q + t, 2 * q + (if t < 2 then 0 else 1), if t < 2 then t else t - 2, 2);
  }

  lemma GuardDigits(input: nat, sd: nat, a: nat)
    requires 0 < input < Pow2(128) && sd == BitLength(input) > MantissaDigits
    requires sd == MantissaDigits + 1 ==> a == Rem(input * 2, Pow2(128))
    requires sd == MantissaDigits + 2 ==> a == input
    requires sd > MantissaDigits + 2 ==>
               var c := Pow2(sd - (MantissaDigits + 2));
               a == if Rem(input, c) != 0 then OrOne(Quot(input, c)) else Quot(input, c)
    ensures var d := Pow2(sd - MantissaDigits); Guarded(Quot(input, d), Rem(input, d), d, a)
  {
    hide Pow2, Quot, Rem, BitLength;
    var d := Pow2(sd - MantissaDigits);
    QuotRem(input, d);
    Pow2One();
    if sd == MantissaDigits + 1 {
      BitLengthBounds(input);
      Pow2Monotone(55, 128);
      Pow2Add(1, 54);
      assert Rem(input * 2, Pow2(128)) == input * 2 by { QuotRemUnique(input * 2, 0, input * 2, Pow2(128)); }
    } else if sd == MantissaDigits + 2 {
      Pow2Add(1, 1);
    } else {
      var c := Pow2(sd - (MantissaDigits + 2));
      Pow2Add(1, 1);
      Pow2Add(2, sd - (MantissaDigits + 2));
      GuardSticky(input, c);
    }
  }

  lemma GuardSticky(x: nat, c: nat)
    requires c > 0
    ensures Guarded(Quot(x, 4 * c), Rem(x, 4 * c), 4 * c, if Rem(x, c) != 0 then OrOne(Quot(x, c)) else Quot(x, c))
  {
    var y, z := Quot(x, c), Rem(x, c);
    QuotRem(x, c);
    assert (y / 4 * 4 + y % 4) * c == y / 4 * (4 * c) + y % 4 * c;
    MulMonotone(y % 4, 3, c);
    DivModUnique(x, y / 4, y % 4 * c + z, 4 * c);
    assert y % 4 == 0 || y % 4 == 1 || y % 4 == 2 || y % 4 == 3;
  }

  /** The two 32-bit words of a double: sign and exponent over the top of the mantissa, and its low half. */
  function PackDouble(negative: bool, e: nat, a: nat): (bits: nat) {
    var high := (if negative then 0x8000_0000 else 0) + (e + 1023) * 0x10_0000 + a / 0x1_0000_0000 % 0x10_0000;
    var low := a % 0x1_0000_0000;
    high * 0x1_0000_0000 + low
  }

  lemma Double()
    ensures Binary64.Valid() && Pow2(52) == 0x10_0000_0000_0000 && Pow2(53) == 0x20_0000_0000_0000
    ensures Binary64.Bias() == 1023 && Binary64.MaxExponent() == 2047 && Binary64.UnitsPerOne() == Pow2(1074)
    ensures Binary64.SignBit() == 0x8000_0000_0000_0000
  {
    assert Pow2(11) == 2048 && Pow2(10) == 1024;
    assert Pow2(13) == 0x2000 && Pow2(26) == Pow2(13) * Pow2(13) by { Pow2Add(13, 13); }
    Pow2Add(26, 26);
    Pow2Add(1, 52);
    Pow2Add(52, 11);
  }

  lemma PackedBits(negative: bool, e: nat, a: nat)
    requires Pow2(52) <= a < Pow2(53)
    ensures PackDouble(negative, e, a) == (if negative then Binary64.SignBit() else 0) + (e + 1022) * Pow2(52) + a
  {
    hide Pow2, Format.SignBit;
    Double();
    WordsOf(a);
  }

  lemma WordsOf(a: nat)
    requires 0x10_0000_0000_0000 <= a < 0x20_0000_0000_0000
    ensures a / 0x1_0000_0000 % 0x10_0000 * 0x1_0000_0000 + a % 0x1_0000_0000 == a - 0x10_0000_0000_0000
  {
  }

  /** The bits that a mantissa of 53 digits, or the carry out of it, gets at exponent field `e` + 1. */
  lemma MagnitudeAt(e: nat, q: nat)
    requires Pow2(52) <= q <= Pow2(53)
    ensures Magnitude(Binary64, e * Pow2(52) + q) == q * Pow2(e)
  {
    hide Pow2, Quot, Rem;
    Double();
    var p := Pow2(52);
    if q < Pow2(53) {
      QuotRemUnique(e * p + q, e + 1, q - p, p);
    } else {
      QuotRemUnique(e * p + q, e + 2, 0, p);
      Pow2Add(1, e);
      Pow2One();
      assert q * Pow2(e) == p * Pow2(e + 1);
    }
  }

  /** Powers of two as wide as the exponents of a double. */
  lemma UnitShift(sd: nat)
    ensures sd >= 53 ==> Pow2(sd - 53) * Pow2(1074) == Pow2(sd + 1021)
    ensures sd <= 53 ==> Pow2(53 - sd) * Pow2(sd + 1021) == Pow2(1074)
  {
    if sd >= 53 {
      Pow2Add(sd - 53, 1074);
    }
    if sd <= 53 {
      Pow2Add(53 - sd, sd + 1021);
    }
  }

  lemma ExponentRange(e: nat, q: nat)
    requires e <= 1149 && q <= Pow2(53)
    ensures e * Pow2(52) + q + 1 < Binary64.InfinityBits()
  {
    hide Pow2;
    Double();
    MulMonotone(e, 1149, Pow2(52));
  }

  function ShiftedLeft(x: nat, n: nat): (r: nat) {
    x * Pow2(n)
  }

  /** The bits with the exponent field one above `e` and the mantissa digits `q`, of which the first is not stored. */
  function Pattern(e: nat, q: nat): (r: nat) {
    e * Pow2(52) + q
  }

  /** The bits are those of the double nearest to the integer and, with the sign, to its negation. */
  ghost predicate NearestBoth(input: nat, bits: nat) {
    && NearestEven(Binary64, ShiftedLeft(input, 1074), bits)
    && NearestEven(Binary64, -(ShiftedLeft(input, 1074) as int), bits + Binary64.SignBit())
  }

  /** The neighbours of an integer of more than 53 digits, and how far it is from both. */
  lemma NearestInteger(input: nat, sd: nat)
    requires 0 < input && sd == BitLength(input) && MantissaDigits < sd <= 128
    ensures var d := Pow2(sd - 53);
            NearestBoth(input, Pattern(sd + 1021, RoundHalfEven(Quot(input, d), Rem(input, d), d)))
  {
    hide Pow2, Quot, Rem, BitLength, Magnitude, Decode, NearestEven;
    Double();
    var d := Pow2(sd - 53);
    var q, r, u, g := Quot(input, d), Rem(input, d), Pow2(1074), Pow2(sd + 1021);
    LeadingDigits(input, sd);
    QuotRem(input, d);
    UnitShift(sd);
    var low := (sd + 1021) * Pow2(52) + q;
    MagnitudeAt(sd + 1021, q);
    MagnitudeAt(sd + 1021, q + 1);
    ExponentRange(sd + 1021, q);
    Residues(q, r, d, u, g);
    EvenPattern(sd + 1021, q);
    NeighbourIsNearest(Binary64, input * u, low, (sd + 1021) * Pow2(52) + RoundHalfEven(q, r, d));
  }

  lemma EvenPattern(e: nat, q: nat)
    ensures (e * Pow2(52) + q) % 2 == q % 2
  {
    hide Pow2;
    Pow2Add(1, 51);
    Pow2One();
    EvenProduct(e, Pow2(51));
    DivModUnique(e * Pow2(52) + q, e * Pow2(51) + q / 2, q % 2, 2);
  }

  lemma EvenProduct(e: nat, h: nat)
    ensures e * (2 * h) == 2 * (e * h)
  {
  }

  /** How far `q * d + r` is from `q * d` and `(q + 1) * d`, scaled by `u`. */
  lemma Residues(q: nat, r: nat, d: nat, u: nat, g: nat)
    requires r < d && u > 0 && g == d * u
    ensures (q * d + r) * u - q * g == r * u
    ensures (q + 1) * g - (q * d + r) * u == (d - r) * u
    ensures q * g <= (q * d + r) * u <= (q + 1) * g
    ensures 2 * r < d <==> r * u < (d - r) * u
    ensures 2 * r == d <==> r * u == (d - r) * u
  {
    assert (q * d + r) * u == q * (d * u) + r * u;
    assert (q + 1) * g == q * g + d * u;
    assert (d - r) * u == d * u - r * u;
    if r < d - r {
      MulStrict(r, d - r, u);
    } else if r > d - r {
      MulStrict(d - r, r, u);
    }
  }

  /** An integer of at most 53 digits is a double. */
  lemma ExactInteger(input: nat, sd: nat)
    requires 0 < input && sd == BitLength(input) <= MantissaDigits
    ensures var bits := Pattern(sd + 1021, ShiftedLeft(input, 53 - sd));
            NearestBoth(input, bits) && Decode(Binary64, bits) == Finite(ShiftedLeft(input, 1074))
  {
    hide Pow2, Quot, Rem, BitLength, Magnitude, Decode, NearestEven;
    Double();
    var m := input * Pow2(53 - sd);
    ExactDigits(input, sd);
    UnitShift(sd);
    assert m * Pow2(sd + 1021) == input * Pow2(1074);
    var bits := (sd + 1021) * Pow2(52) + m;
    MagnitudeAt(sd + 1021, m);
    MagnitudeStrict(Binary64, bits, bits + 1);
    ExponentRange(sd + 1021, m);
    DecodeSigned(Binary64, bits);
    NeighbourIsNearest(Binary64, input * Pow2(1074), bits, bits);
  }

  /** ___floatuntidf: every unsigned 128-bit integer is rounded to the nearest double, ties to even. */
  method FloatUnTiDf(a: nat) returns (bits: nat)
    requires a < Pow2(128)
    ensures NearestEven(Binary64, a * Binary64.UnitsPerOne(), bits)
  {
    hide Pow2, BitLength, NearestEven, RoundHalfEven, PackDouble, Clzti2;
    Double();
    if a == 0 {
      ZeroIsNearest();
      return 0;
    }
    Clzti2Correct(a);
    var sd := 128 - Clzti2(a);
    var m, e := RoundToMantissa(a, sd);
    bits := PackDouble(false, e, m);
    RoundedBits(false, a, sd, m, e);
  }

  /**
   * ___floattidf: every signed 128-bit integer is rounded to the nearest double, ties to even; the
   * two's complement absolute value of the most negative one is its own bit pattern.
   */
  method FloatTiDf(input: int) returns (bits: nat)
    requires -(Pow2(127) as int) <= input < Pow2(127)
    ensures NearestEven(Binary64, input * Binary64.UnitsPerOne(), bits)
  {
    hide Pow2, BitLength, NearestEven, RoundHalfEven, PackDouble, Clzti2;
    Double();
    if input == 0 {
      ZeroIsNearest();
      return 0;
    }
    var s := if input < 0 then -1 else 0;
    TwosComplement(input);
    var a := ((if s == -1 then -1 - input else input) - s) % Pow2(128);
    Clzti2Correct(a);
    var sd := 128 - Clzti2(a);
    var m, e := RoundToMantissa(a, sd);
    bits := PackDouble(s == -1, e, m);
    RoundedBits(s == -1, a, sd, m, e);
    assert input < 0 ==> -((a * Pow2(1074)) as int) == input * Pow2(1074);
  }

  lemma ZeroIsNearest()
    ensures NearestEven(Binary64, 0, 0)
  {
    hide Pow2, Quot, Rem, Decode, Magnitude, NearestEven;
    Double();
    assert Magnitude(Binary64, 0) == 0 by { MagnitudeOfZero(Binary64); }
    MagnitudeStrict(Binary64, 0, 1);
    ExponentRange(0, 0);
    NeighbourIsNearest(Binary64, 0, 0, 0);
  }

  lemma MagnitudeOfZero(f: Format)
    ensures Magnitude(f, 0) == 0
  {
  }

  lemma TwosComplement(input: int)
    requires -(Pow2(127) as int) <= input < Pow2(127)
    ensures ((if input < 0 then -1 - input else input) - (if input < 0 then -1 else 0)) % Pow2(128)
            == (if input < 0 then -input else input)
            < Pow2(128)
  {
    hide Pow2;
    Pow2One();
    Pow2Add(1, 127);
    var x := if input < 0 then -input else input;
    DivModUnique(x, 0, x, Pow2(128));
  }

  /** The words that were packed are the bits of the correctly rounded number. */
  lemma RoundedBits(negative: bool, a: nat, sd: nat, m: nat, e: nat)
    requires 0 < a < Pow2(128) && sd == BitLength(a) <= 128
    requires Pow2(52) <= m < Pow2(53)
    requires sd <= MantissaDigits ==> e == sd - 1 && m == a * Pow2(MantissaDigits - sd)
    requires sd > MantissaDigits ==>
              var d := Pow2(sd - MantissaDigits);
              var r := RoundHalfEven(Quot(a, d), Rem(a, d), d);
              if r < Pow2(53) then e == sd - 1 && m == r else e == sd && m == Pow2(52) && r == Pow2(53)
    ensures NearestEven(Binary64, if negative then -((a * Pow2(1074)) as int) else a * Pow2(1074), PackDouble(negative, e, m))
  {
    hide Pow2, Quot, Rem, BitLength, NearestEven, RoundHalfEven, PackDouble, Format.SignBit;
    Double();
    PackedBits(negative, e, m);
    if sd <= MantissaDigits {
      BitLengthBounds(a);
      ExactInteger(a, sd);
    } else {
      NearestInteger(a, sd);
    }
  }
}
