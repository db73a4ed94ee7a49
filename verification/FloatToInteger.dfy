/** fixunsdfti.c, fixunstfti.c and fixdfti.c: truncation of a floating-point number to 128 bits. */
module FloatToInteger {
  import opened Powers
  import opened Ieee754
  import opened FloatConversion

  const MaxUnsigned: nat := Pow2(128) - 1
  const MaxSigned: nat := Pow2(127) - 1

  /** The exponent a bit pattern stands for, without its bias. */
  function Exponent(f: Format, abs: nat): (e: int)
    requires f.Valid()
  {
    Quot(abs, Pow2(f.sig)) - f.Bias()
  }

  /** The significand with its implicit bit. */
  function Significand(f: Format, abs: nat): (s: nat) {
    Rem(abs, Pow2(f.sig)) + Pow2(f.sig)
  }

  /** The magnitude of the result for 0 <= exponent < 128: a shift right below the point, left above it. */
  function Shifted(f: Format, abs: nat): (r: nat)
    requires f.Valid() && Exponent(f, abs) >= 0
  {
    var e := Exponent(f, abs);
    if e < f.sig then Quot(Significand(f, abs), Pow2(f.sig - e)) else Significand(f, abs) * Pow2(e - f.sig)
  }

  /** ___fixunsdfti for binary64 and ___fixunstfti for binary128. */
  function FixUnsigned(f: Format, bits: nat): (r: nat)
    requires f.Valid() && bits < 2 * f.SignBit()
  {
    var abs := Abs(f, bits);
    if Negative(f, bits) || Exponent(f, abs) < 0 then 0
    else if Exponent(f, abs) >= 128 then MaxUnsigned
    else Shifted(f, abs)
  }

  /** A 128-bit pattern read as a signed integer. */
  function ToSigned(x: int): (r: int) {
    var y := x % Pow2(128);
    if y < Pow2(127) then y else y - Pow2(128)
  }

  /** ___fixdfti, with its products and left shifts taken modulo 2^128. */
  function FixSigned(bits: nat): (r: int)
    requires bits < 2 * Binary64.SignBit()
  {
    var abs := Abs(Binary64, bits);
    var e := Exponent(Binary64, abs);
    if e < 0 then 0
    else if e >= 128 then (if Negative(Binary64, bits) then -(MaxSigned as int) - 1 else MaxSigned)
    else ToSigned((if Negative(Binary64, bits) then -1 else 1) * ToSigned(Shifted(Binary64, abs)))
  }

  // ---------------------------------------------------------------- what truncation is

  /** Truncation toward zero of a number of units. */
  function Truncate(f: Format, units: int): (r: int)
    requires f.Valid()
  {
    if units >= 0 then Quot(units, f.UnitsPerOne()) else -(Quot(-units, f.UnitsPerOne()) as int)
  }

  function Clamp(low: int, x: int, high: int): (r: int) {
    if x < low then low else if x > high then high else x
  }

  /** The integer that a conversion to [low, high] must give: truncated, then clamped; an infinity goes to its end. */
  ghost function Converted(f: Format, v: Value, low: int, high: int): (r: int)
    requires f.Valid() && v != NaN
  {
    match v
    case Infinite(n) => if n then low else high
    case Finite(u) => Clamp(low, Truncate(f, u), high)
  }

  lemma QuotScaled(x: nat, d: nat, k: nat)
    requires d > 0 && k > 0
    ensures d * k > 0 && Quot(x * k, d * k) == Quot(x, d)
  {
    hide Quot, Rem;
    var q, r := Quot(x, d), Rem(x, d);
    QuotRem(x, d);
    assert x * k == q * (d * k) + r * k by { assert (q * d + r) * k == q * (d * k) + r * k; }
    MulStrict(r, d, k);
    QuotRemUnique(x * k, q, r * k, d * k);
  }

  lemma QuotExact(x: nat, d: nat)
    requires d > 0
    ensures Quot(x * d, d) == x
  {
    QuotRemUnique(x * d, x, 0, d);
  }

  /** For a number that is at least 1, the shift computes the integral part of the magnitude. */
  lemma ShiftIsIntegralPart(f: Format, abs: nat)
    requires f.Valid() && Exponent(f, abs) >= 0
    ensures Shifted(f, abs) == Quot(Magnitude(f, abs), f.UnitsPerOne())
  {
    hide Pow2, Quot, Rem;
    BiasPositive(f);
    var e := Exponent(f, abs);
    var s := Significand(f, abs);
    var field := Quot(abs, Pow2(f.sig));
    assert Magnitude(f, abs) == s * Pow2(field - 1);
    if e < f.sig {
      Pow2Add(f.sig - e, field - 1);
      assert f.UnitsPerOne() == Pow2(f.sig - e) * Pow2(field - 1);
      QuotScaled(s, Pow2(f.sig - e), Pow2(field - 1));
    } else {
      Pow2Add(e - f.sig, f.Bias() + f.sig - 1);
      assert Pow2(field - 1) == Pow2(e - f.sig) * f.UnitsPerOne();
      assert s * (Pow2(e - f.sig) * f.UnitsPerOne()) == (s * Pow2(e - f.sig)) * f.UnitsPerOne();
      QuotExact(s * Pow2(e - f.sig), f.UnitsPerOne());
    }
  }

  lemma BiasPositive(f: Format)
    requires f.Valid()
    ensures f.Bias() >= 1 && f.MaxExponent() == 2 * f.Bias() + 1
  {
    Pow2Monotone(1, f.exp - 1);
  }

  /** The exponent is the position of the leading digit of the integral part. */
  lemma IntegralPartRange(f: Format, abs: nat)
    requires f.Valid()
    ensures Exponent(f, abs) < 0 <==> Quot(Magnitude(f, abs), f.UnitsPerOne()) == 0
    ensures Exponent(f, abs) >= 0 ==>
              var e := Exponent(f, abs); Pow2(e) <= Quot(Magnitude(f, abs), f.UnitsPerOne()) < Pow2(e + 1)
  {
    hide Pow2, Quot, Rem;
    BiasPositive(f);
    var e := Exponent(f, abs);
    if e < 0 {
      BelowOne(f, abs);
    } else {
      AtLeastOne(f, abs);
    }
  }

  lemma AtLeastOne(f: Format, abs: nat)
    requires f.Valid() && Exponent(f, abs) >= 0
    ensures var e := Exponent(f, abs); 1 <= Pow2(e) <= Quot(Magnitude(f, abs), f.UnitsPerOne()) < Pow2(e + 1)
  {
    hide Pow2, Quot, Rem;
    BiasPositive(f);
    var p, u, s := Pow2(f.sig), f.UnitsPerOne(), Significand(f, abs);
    var e, field := Exponent(f, abs), Quot(abs, p);
    var k := Pow2(field - 1);
    assert Pow2(e) * u == p * k && Pow2(e + 1) * u == (p + p) * k by {
      Pow2Add(e, f.Bias() + f.sig - 1);
      Pow2Add(f.sig, field - 1);
      Pow2Add(1, e);
      Pow2One();
      assert (p + p) * k == 2 * (p * k) && (2 * Pow2(e)) * u == 2 * (Pow2(e) * u);
    }
    assert Magnitude(f, abs) == s * k;
    MulMonotone(p, s, k);
    MulStrict(s, p + p, k);
    QuotBounds(Magnitude(f, abs), u, Pow2(e), Pow2(e + 1));
  }

  lemma BelowOne(f: Format, abs: nat)
    requires f.Valid() && Exponent(f, abs) < 0
    ensures Quot(Magnitude(f, abs), f.UnitsPerOne()) == 0
  {
    hide Pow2, Quot, Rem, Magnitude, Exponent;
    BelowOneUnit(f, abs);
    QuotRemUnique(Magnitude(f, abs), 0, Magnitude(f, abs), f.UnitsPerOne());
  }

  lemma BelowOneUnit(f: Format, abs: nat)
    requires f.Valid() && Exponent(f, abs) < 0
    ensures Magnitude(f, abs) < f.UnitsPerOne()
  {
    hide Pow2, Quot, Rem;
    BiasPositive(f);
    var p := Pow2(f.sig);
    var field := Quot(abs, p);
    Pow2Add(f.sig, f.Bias() - 1);
    if field == 0 {
      MulMonotone(1, Pow2(f.Bias() - 1), p);
    } else {
      Pow2Monotone(field, f.Bias() - 1);
      Pow2Add(1, field - 1);
      Pow2One();
      MulStrict(Significand(f, abs), p + p, Pow2(field - 1));
      TwiceProduct(p, Pow2(field - 1));
      MulMonotone(Pow2(field), Pow2(f.Bias() - 1), p);
    }
  }

  lemma TwiceProduct(p: nat, k: nat)
    ensures (p + p) * k == (2 * k) * p
  {
  }

  /** An infinity has an exponent above every 128-bit shift. */
  lemma InfinityExponent(f: Format)
    requires f.Valid()
    ensures Exponent(f, f.InfinityBits()) == f.Bias() + 1
  {
    hide Pow2, Quot;
    BiasPositive(f);
    QuotExact(f.MaxExponent(), Pow2(f.sig));
  }

  /**
   * ___fixunsdfti and ___fixunstfti: every number that is not a NaN, infinities included, is
   * truncated toward zero and clamped to [0, 2^128 - 1], in every format that reaches 2^127.
   */
  lemma FixUnsignedCorrect(f: Format, bits: nat)
    requires f.Valid() && f.Bias() >= 127
    requires bits < 2 * f.SignBit() && Decode(f, bits) != NaN
    ensures FixUnsigned(f, bits) == Converted(f, Decode(f, bits), 0, MaxUnsigned)
  {
    hide Pow2, Quot, Rem, Magnitude, Shifted, Exponent, Format.InfinityBits, Format.UnitsPerOne, Format.SignBit;
    var abs := Abs(f, bits);
    if abs == f.InfinityBits() {
      InfinityExponent(f);
    } else {
      IntegralPartRange(f, abs);
      TruncatedValue(f, bits);
      var e := Exponent(f, abs);
      if e >= 128 {
        Pow2Monotone(128, e);
      } else if e >= 0 {
        ShiftIsIntegralPart(f, abs);
        Pow2Monotone(e + 1, 128);
      }
    }
  }

  lemma TruncatedValue(f: Format, bits: nat)
    requires f.Valid() && Decode(f, bits).Finite?
    ensures var n := Quot(Magnitude(f, Abs(f, bits)), f.UnitsPerOne());
            Truncate(f, Decode(f, bits).units) == if Negative(f, bits) then -(n as int) else n
  {
    hide Pow2, Magnitude, Rem;
    var m := Magnitude(f, Abs(f, bits));
    if m == 0 {
      QuotRemUnique(0, 0, 0, f.UnitsPerOne());
    }
  }

  lemma WideBias()
    ensures Binary64.Bias() >= 128 && Binary128.Bias() >= 128
  {
    Pow2Monotone(8, 10);
    Pow2Monotone(8, 14);
    assert Pow2(8) == 256;
  }

  /** The value -2^127, the one number with exponent 127 that fits. */
  const MinSignedBits: nat := Binary64.SignBit() + (127 + 1023) * Pow2(52)

  /**
   * ___fixdfti truncates and saturates exactly where its exponent is not 127, or the number is
   * -2^127: at exponent 127 the shift has already left the signed range.
   */
  lemma FixSignedCorrect(bits: nat)
    requires bits < 2 * Binary64.SignBit() && Decode(Binary64, bits) != NaN
    ensures FixSigned(bits) == Converted(Binary64, Decode(Binary64, bits), -(MaxSigned as int) - 1, MaxSigned)
            <==> Exponent(Binary64, Abs(Binary64, bits)) != 127 || bits == MinSignedBits
  {
    hide Pow2, Quot, Rem, Magnitude, Shifted, Exponent, ToSigned, Format.InfinityBits, Format.UnitsPerOne, Format.SignBit;
    var f := Binary64;
    var abs := Abs(f, bits);
    WideBias();
    if abs == f.InfinityBits() {
      InfinityExponent(f);
    } else {
      IntegralPartRange(f, abs);
      TruncatedValue(f, bits);
      var e := Exponent(f, abs);
      if e >= 128 {
        Pow2Monotone(127, e);
      } else if e >= 0 {
        ShiftIsIntegralPart(f, abs);
        if e < 127 {
          Pow2Monotone(e + 1, 127);
          SmallSigned(Shifted(f, abs));
        } else {
          WrappedSigned(Shifted(f, abs));
          TopExponent(bits);
        }
      }
    }
  }

  lemma SmallSigned(x: nat)
    requires x < Pow2(127)
    ensures ToSigned(x) == x && ToSigned(-1 * x) == -(x as int) && ToSigned(1 * x) == x
  {
    hide Pow2;
    Pow2One();
    Pow2Add(1, 127);
    var w := Pow2(128);
    DivModUnique(x, 0, x, w);
    if x > 0 {
      DivModUnique(-(x as int), -1, w - x, w);
    }
  }

  lemma WrappedSigned(x: nat)
    requires Pow2(127) <= x < Pow2(128)
    ensures ToSigned(x) == x - Pow2(128) < 0
    ensures ToSigned(1 * ToSigned(x)) == x - Pow2(128)
    ensures ToSigned(-1 * ToSigned(x)) == if x == Pow2(127) then -(Pow2(127) as int) else Pow2(128) - x
  {
    hide Pow2;
    Pow2One();
    Pow2Add(1, 127);
    var w := Pow2(128);
    DivModUnique(x, 0, x, w);
    DivModUnique(x - w, -1, x, w);
    DivModUnique(w - x, 0, w - x, w);
  }

  /** Exponent 127 with nothing behind the leading digit is the pattern of 2^127. */
  lemma TopExponent(bits: nat)
    requires bits < 2 * Binary64.SignBit() && Exponent(Binary64, Abs(Binary64, bits)) == 127
    ensures Shifted(Binary64, Abs(Binary64, bits)) == Pow2(127) <==>
            Abs(Binary64, bits) == 1150 * Pow2(52)
    ensures Abs(Binary64, bits) == if Negative(Binary64, bits) then bits - Binary64.SignBit() else bits
  {
    hide Pow2, Quot, Rem, Format.SignBit;
    Double();
    var abs, p := Abs(Binary64, bits), Pow2(52);
    QuotRem(abs, p);
    Pow2Add(52, 75);
    if Rem(abs, p) > 0 {
      MulStrict(p, Significand(Binary64, abs), Pow2(75));
    }
    SignSplit(bits, Binary64.SignBit());
  }

  lemma SignSplit(x: nat, s: nat)
    requires s > 0 && x < 2 * s
    ensures Rem(x, s) == if x >= s then x - s else x
  {
    if x >= s {
      QuotRemUnique(x, 1, x - s, s);
    } else {
      QuotRemUnique(x, 0, x, s);
    }
  }

  // ---------------------------------------------------------------- there and back

  /**
   * The conversions undo each other on what a double can hold: an integer of at most 53
   * significant digits comes back unchanged, and any other one within half the spacing of the
   * doubles around it.
   */
  lemma RoundTrip(a: nat, bits: nat)
    requires 0 < a < Pow2(128)
    requires NearestEven(Binary64, a * Binary64.UnitsPerOne(), bits)
    ensures BitLength(a) <= 53 ==> FixUnsigned(Binary64, bits) == a
    ensures BitLength(a) > 53 ==>
              var d := Pow2(BitLength(a) - 53);
              && (Rem(a, d) == 0 ==> FixUnsigned(Binary64, bits) == a)
              && 2 * Distance(FixUnsigned(Binary64, bits), a) <= d
  {
    hide Pow2, Quot, Rem, BitLength, Decode, FixUnsigned, Magnitude;
    Double();
    var n, u := BitLength(a), Pow2(1074);
    AtMost128(a);
    if n <= 53 {
      ExactInteger(a, n);
      assert Distance(Decode(Binary64, bits).units, a * u) <= 0 * u;
      Nearby(a, bits, 0);
    } else {
      var d := Pow2(n - 53);
      var r := Rem(a, d);
      assert 2 * r <= d ==> r <= d - r;
      var k := if 2 * r <= d then r else d - r;
      NearerThanNeighbours(a, bits);
      Nearby(a, bits, k);
    }
  }

  /** A number within `k` of `a` is truncated to an integer within `k` of `a`. */
  lemma Nearby(a: nat, bits: nat, k: nat)
    requires a < Pow2(128) && IsFinite(Binary64, bits)
    requires Distance(Decode(Binary64, bits).units, a * Pow2(1074)) <= k * Pow2(1074)
    ensures Distance(FixUnsigned(Binary64, bits), a) <= k
  {
    hide Pow2, Quot, Rem, Decode, FixUnsigned, Magnitude, Format.SignBit;
    Double();
    WideBias();
    FixUnsignedCorrect(Binary64, bits);
    var x, u := Decode(Binary64, bits).units, Pow2(1074);
    assert (a - k) * u == a * u - k * u && (a + k) * u == a * u + k * u;
    if x >= 0 {
      assert Quot(x, u) <= a + k by {
        if Quot(x, u) >= a + k + 1 {
          QuotAbove(x, u, a + k + 1);
          assert (a + k + 1) * u == (a + k) * u + u;
        }
      }
      if a >= k {
        QuotAbove(x, u, a - k);
      }
    } else {
      if a > k {
        MulStrict(0, a - k, u);
      }
    }
  }

  /** The rounded number is at least as near as both neighbours of the integer. */
  lemma NearerThanNeighbours(a: nat, bits: nat)
    requires 0 < a && 53 < BitLength(a) <= 128
    requires NearestEven(Binary64, a * Pow2(1074), bits)
    ensures var d := Pow2(BitLength(a) - 53); var r := Rem(a, d);
            var mine := Distance(Decode(Binary64, bits).units, a * Pow2(1074));
            mine <= r * Pow2(1074) && mine <= (d - r) * Pow2(1074)
  {
    hide Pow2, Quot, Rem, BitLength, Decode, Magnitude, Format.SignBit;
    Double();
    var sd := BitLength(a);
    var d := Pow2(sd - 53);
    var q, r, u, g := Quot(a, d), Rem(a, d), Pow2(1074), Pow2(sd + 1021);
    LeadingDigits(a, sd);
    QuotRem(a, d);
    UnitShift(sd);
    var low := (sd + 1021) * Pow2(52) + q;
    MagnitudeAt(sd + 1021, q);
    MagnitudeAt(sd + 1021, q + 1);
    ExponentRange(sd + 1021, q);
    Residues(q, r, d, u, g);
    DecodeSigned(Binary64, low);
    DecodeSigned(Binary64, low + 1);
    assert IsFinite(Binary64, low) && IsFinite(Binary64, low + 1);
  }

  /** Both conversions in a row. */
  method ThereAndBack(a: nat) returns (r: nat)
    requires a < Pow2(128)
    ensures BitLength(a) <= 53 ==> r == a
    ensures BitLength(a) > 53 ==> 2 * Distance(r, a) <= Pow2(BitLength(a) - 53)
  {
    hide Pow2, BitLength, NearestEven, FixUnsigned;
    var bits := FloatUnTiDf(a);
    assert IsFinite(Binary64, bits) by { NearestIsFinite(a * Binary64.UnitsPerOne(), bits); }
    r := FixUnsigned(Binary64, bits);
    Double();
    if a > 0 {
      RoundTrip(a, bits);
    } else {
      ZeroNearby(bits);
    }
  }

  lemma NearestIsFinite(target: int, bits: nat)
    requires NearestEven(Binary64, target, bits)
    ensures IsFinite(Binary64, bits)
  {
  }

  lemma ZeroNearby(bits: nat)
    requires NearestEven(Binary64, 0, bits)
    ensures IsFinite(Binary64, bits) && FixUnsigned(Binary64, bits) == 0
  {
    hide Pow2, Quot, Rem, Decode, FixUnsigned, Magnitude, Format.SignBit;
    Double();
    MagnitudeOfZero(Binary64);
    ExponentRange(0, 0);
    DecodeSigned(Binary64, 0);
    assert IsFinite(Binary64, 0);
    Nearby(0, bits, 0);
  }

  // ---------------------------------------------------------------- there and back with a sign

  /** The pattern of 2^127, and 2^73, half the spacing of the doubles below it. */
  const TopBits: nat := 1150 * Pow2(52)

  /** 2^127 and the double before it, in units. */
  lemma TopUnits()
    ensures TopBits + 1 < Binary64.InfinityBits()
    ensures Magnitude(Binary64, TopBits) == Pow2(127) * Pow2(1074)
    ensures Magnitude(Binary64, TopBits - 1) == (Pow2(127) - 2 * Pow2(73)) * Pow2(1074)
    ensures TopBits % 2 == 0 && Pow2(127) > 2 * Pow2(73)
  {
    hide Pow2, Magnitude;
    Double();
    var p, u := Pow2(52), Pow2(1074);
    ExponentRange(1149, p);
    MagnitudeAt(1149, p);
    MagnitudeAt(1148, 2 * p - 1);
    Pow2Add(52, 1149);
    Pow2Add(127, 1074);
    Pow2Add(1, 1148);
    Pow2Add(74, 1074);
    Pow2Add(1, 73);
    Pow2Add(53, 74);
    Pow2One();
    TopProduct(p, Pow2(1148), Pow2(127), Pow2(74), u);
    assert TopBits == 2 * (575 * p);
  }

  lemma TopProduct(p: nat, k: nat, t: nat, s: nat, u: nat)
    requires p * (2 * k) == t * u && k == s * u
    ensures (2 * p - 1) * k == (t - s) * u
  {
    assert (2 * p - 1) * k == p * (2 * k) - k;
    assert (t - s) * u == t * u - s * u;
  }

  /** The number with the other sign. */
  function Flip(bits: nat): (r: nat)
    requires bits < 2 * Binary64.SignBit()
  {
    if Negative(Binary64, bits) then bits - Binary64.SignBit() else bits + Binary64.SignBit()
  }

  lemma FlipIs(bits: nat)
    requires IsFinite(Binary64, bits)
    ensures var abs := Abs(Binary64, bits);
            && abs < Binary64.InfinityBits() && bits == (if Negative(Binary64, bits) then abs + Binary64.SignBit() else abs)
            && bits % 2 == abs % 2
            && Decode(Binary64, bits) == Finite(if Negative(Binary64, bits) then -(Magnitude(Binary64, abs) as int) else Magnitude(Binary64, abs))
            && IsFinite(Binary64, abs) && Decode(Binary64, abs) == Finite(Magnitude(Binary64, abs))
    ensures IsFinite(Binary64, Flip(bits)) && Decode(Binary64, Flip(bits)).units == -Decode(Binary64, bits).units
  {
    hide Pow2, Quot, Rem, Magnitude, Format.SignBit, Format.InfinityBits;
    Double();
    SignSplit(bits, Binary64.SignBit());
    DecodeSigned(Binary64, Abs(Binary64, bits));
  }

  /** 1, in units. */
  lemma OneUnits()
    ensures IsFinite(Binary64, 1023 * Pow2(52)) && Decode(Binary64, 1023 * Pow2(52)).units == Pow2(1074)
    ensures Pow2(1074) > 0
  {
    hide Pow2, Quot, Rem, Magnitude;
    Double();
    ExponentRange(1022, Pow2(52));
    MagnitudeAt(1022, Pow2(52));
    Pow2Add(52, 1022);
    DecodeSigned(Binary64, 1023 * Pow2(52));
  }

  /** A number other than zero is rounded to one of its sign, because 1 or -1 is nearer than zero. */
  lemma SignKept(a: int, bits: nat)
    requires a != 0 && NearestEven(Binary64, a * Pow2(1074), bits)
    ensures Negative(Binary64, bits) <==> a < 0
  {
    hide Pow2, Quot, Rem, Magnitude, Decode, Format.SignBit, Format.InfinityBits, Abs;
    FlipIs(bits);
    OneUnits();
    FlipIs(1023 * Pow2(52));
    SignedProduct(a, Pow2(1074));
  }

  /** Rounding commutes with the sign. */
  lemma AbsNearest(a: int, bits: nat, m: nat)
    requires a != 0 && NearestEven(Binary64, a * Pow2(1074), bits) && m == if a < 0 then -a else a
    ensures Negative(Binary64, bits) <==> a < 0
    ensures NearestEven(Binary64, m * Pow2(1074), Abs(Binary64, bits))
  {
    hide Pow2, Quot, Rem, Magnitude, Decode, Format.SignBit, Format.InfinityBits, Abs, Flip;
    var target, abs := a * Pow2(1074), Abs(Binary64, bits);
    SignKept(a, bits);
    assert m * Pow2(1074) == if a < 0 then -target else target;
    FlipIs(bits);
    MirrorNearest(target, bits, abs, a < 0);
  }

  lemma NearestMeaning(target: int, bits: nat, x: nat)
    requires NearestEven(Binary64, target, bits) && IsFinite(Binary64, x)
    ensures Decode(Binary64, bits).Finite?
    ensures var mine, other := Distance(Decode(Binary64, bits).units, target), Distance(Decode(Binary64, x).units, target);
            mine <= other && (mine == other && Decode(Binary64, x).units != Decode(Binary64, bits).units ==> bits % 2 == 0)
  {
  }

  lemma MirrorNearest(target: int, bits: nat, abs: nat, negative: bool)
    requires NearestEven(Binary64, target, bits) && IsFinite(Binary64, abs) && abs % 2 == bits % 2
    requires Decode(Binary64, bits).units == if negative then -Decode(Binary64, abs).units else Decode(Binary64, abs).units
    ensures NearestEven(Binary64, if negative then -target else target, abs)
  {
    hide Pow2, Quot, Rem, Magnitude, Decode, Format.SignBit, Format.InfinityBits, Abs, Flip, Negative;
    forall y: nat | IsFinite(Binary64, y)
      ensures var t := if negative then -target else target;
              var mine, other := Distance(Decode(Binary64, abs).units, t), Distance(Decode(Binary64, y).units, t);
              mine <= other && (mine == other && Decode(Binary64, y) != Decode(Binary64, abs) ==> abs % 2 == 0)
    {
      FlipIs(y);
      var z := if negative then Flip(y) else y;
      NearestMeaning(target, bits, z);
    }
  }

  /** A product with a positive number is at least as far from zero. */
  lemma SignedProduct(a: int, u: nat)
    requires u > 0
    ensures a > 0 ==> a * u >= u
    ensures a < 0 ==> a * u <= -(u as int)
  {
    if a > 0 {
      MulMonotone(1, a, u);
    } else if a < 0 {
      MulMonotone(a, -1, u);
    }
  }

  /** Below 2^127 the signed conversion is the unsigned one with the sign. */
  lemma SignedIsUnsigned(bits: nat, abs: nat)
    requires IsFinite(Binary64, bits) && abs == Abs(Binary64, bits) && IsFinite(Binary64, abs) && Exponent(Binary64, abs) < 127
    ensures FixSigned(bits) == if Negative(Binary64, bits) then -(FixUnsigned(Binary64, abs) as int) else FixUnsigned(Binary64, abs)
  {
    hide Pow2, Quot, Rem, Magnitude, Shifted, Exponent, Decode, ToSigned, Format.SignBit, Format.InfinityBits;
    var e := Exponent(Binary64, abs);
    FlipIs(bits);
    FlipIs(abs);
    Double();
    if e >= 0 {
      IntegralPartRange(Binary64, abs);
      ShiftIsIntegralPart(Binary64, abs);
      Pow2Monotone(e + 1, 127);
      SmallSigned(Shifted(Binary64, abs));
    }
  }

  /** What half the spacing of the doubles below 2^127 decides. */
  lemma NearTop(m: nat, abs: nat)
    requires m <= Pow2(127) && abs < Binary64.InfinityBits() && NearestEven(Binary64, m * Pow2(1074), abs)
    ensures m < Pow2(127) - Pow2(73) ==> Magnitude(Binary64, abs) < Pow2(127) * Pow2(1074)
    ensures m >= Pow2(127) - Pow2(73) ==> abs == TopBits
  {
    hide Pow2, Quot, Rem, Magnitude, Decode, Format.SignBit, Format.InfinityBits, NearestEven, Abs;
    var t, s, u := Pow2(127), Pow2(73), Pow2(1074);
    var x := Magnitude(Binary64, abs);
    Double();
    TopUnits();
    DecodeSigned(Binary64, abs);
    DecodeSigned(Binary64, TopBits);
    DecodeSigned(Binary64, TopBits - 1);
    NearestIsFinite(m * u, abs);
    assert IsFinite(Binary64, TopBits) && IsFinite(Binary64, TopBits - 1);
    NearestMeaning(m * u, abs, TopBits);
    NearestMeaning(m * u, abs, TopBits - 1);
    NoneBetween(Binary64, TopBits - 1, abs);
    TopScale(m, t, s, u);
    SameMagnitude(abs, TopBits);
    SameMagnitude(abs, TopBits - 1);
  }

  lemma TopScale(m: nat, t: nat, s: nat, u: nat)
    requires u > 0 && m <= t && t > 2 * s
    ensures (t - 2 * s) * u == t * u - 2 * (s * u) && m * u <= t * u
    ensures m < t - s ==> m * u < t * u - s * u
    ensures m >= t - s ==> m * u >= t * u - s * u
  {
    MulMonotone(m, t, u);
    assert (t - s) * u == t * u - s * u;
    if m < t - s {
      MulStrict(m, t - s, u);
    } else {
      MulMonotone(t - s, m, u);
    }
  }

  lemma SameMagnitude(a: nat, b: nat)
    ensures Magnitude(Binary64, a) == Magnitude(Binary64, b) ==> a == b
  {
    hide Magnitude;
    if a < b {
      MagnitudeStrict(Binary64, a, b);
    } else if b < a {
      MagnitudeStrict(Binary64, b, a);
    }
  }

  /** `r` is `a` when a double holds it, and otherwise within half the spacing of the doubles around it. */
  ghost predicate Close(a: int, r: int) {
    var digits := BitLength(if a < 0 then -a else a);
    if digits <= 53 then r == a else 2 * Distance(r, a) <= Pow2(digits - 53)
  }

  /**
   * The signed conversions undo each other, as far as a double can hold the integer, exactly below
   * 2^127 - 2^73: from there on the integer is rounded to 2^127, which wraps around to -2^127.
   */
  lemma SignedRoundTrip(a: int, bits: nat)
    requires -(Pow2(127) as int) <= a < Pow2(127) && NearestEven(Binary64, a * Pow2(1074), bits)
    ensures IsFinite(Binary64, bits) && (Close(a, FixSigned(bits)) <==> a < Pow2(127) - Pow2(73))
    ensures a >= Pow2(127) - Pow2(73) ==> FixSigned(bits) == -(Pow2(127) as int)
  {
    hide Pow2, Quot, Rem, Magnitude, Decode, Format.SignBit, Format.InfinityBits, NearestEven, Abs, BitLength, FixSigned, FixUnsigned, Close;
    NearestIsFinite(a * Pow2(1074), bits);
    TopUnits();
    if a == 0 {
      ZeroSigned(bits);
    } else {
      var m, abs := if a < 0 then -a else a, Abs(Binary64, bits);
      AbsNearest(a, bits, m);
      FlipIs(bits);
      NearTop(m, abs);
      if m < Pow2(127) - Pow2(73) {
        BelowTop(a, m, bits, abs);
      } else {
        AtTop(bits);
        CloseAtTop(a, m);
      }
    }
  }

  lemma ZeroSigned(bits: nat)
    requires NearestEven(Binary64, 0 * Pow2(1074), bits)
    ensures IsFinite(Binary64, bits) && Close(0, FixSigned(bits))
  {
    hide Pow2, Quot, Rem, Magnitude, Decode, Format.SignBit, Format.InfinityBits, Abs, FixSigned;
    Double();
    NearestIsFinite(0, bits);
    FlipIs(bits);
    ExponentRange(0, 0);
    DecodeSigned(Binary64, 0);
    assert IsFinite(Binary64, 0);
    NearestMeaning(0, bits, 0);
    MagnitudeOfZero(Binary64);
    SameMagnitude(Abs(Binary64, bits), 0);
    ZeroPattern(bits);
  }

  lemma ZeroPattern(bits: nat)
    requires bits < 2 * Binary64.SignBit() && Abs(Binary64, bits) == 0
    ensures FixSigned(bits) == 0
  {
    hide Pow2, Format.SignBit;
    Double();
    QuotRemUnique(0, 0, 0, Pow2(52));
  }

  /** Below the top the exponent is below 127, and the unsigned round trip applies. */
  lemma BelowTop(a: int, m: nat, bits: nat, abs: nat)
    requires 0 < m < Pow2(127) && m == (if a < 0 then -a else a)
    requires IsFinite(Binary64, bits) && abs == Abs(Binary64, bits) && IsFinite(Binary64, abs) && (Negative(Binary64, bits) <==> a < 0)
    requires NearestEven(Binary64, m * Pow2(1074), abs) && Magnitude(Binary64, abs) < Pow2(127) * Pow2(1074)
    ensures Close(a, FixSigned(bits))
  {
    hide Pow2, Quot, Rem, Magnitude, Decode, Format.SignBit, Format.InfinityBits, NearestEven, Abs, BitLength, FixSigned, FixUnsigned, Exponent;
    Double();
    IntegralPartRange(Binary64, abs);
    QuotAbove(Magnitude(Binary64, abs), Pow2(1074), Pow2(127));
    if Exponent(Binary64, abs) >= 127 {
      Pow2Monotone(127, Exponent(Binary64, abs));
    }
    SignedIsUnsigned(bits, abs);
    Pow2Monotone(127, 128);
    RoundTrip(m, abs);
  }

  /** 2^127 and -2^127 both become -2^127. */
  lemma AtTop(bits: nat)
    requires IsFinite(Binary64, bits) && Abs(Binary64, bits) == TopBits
    ensures FixSigned(bits) == -(Pow2(127) as int)
  {
    hide Pow2, Quot, Rem, Magnitude, Decode, Format.SignBit, Format.InfinityBits, ToSigned, Shifted;
    Double();
    QuotRemUnique(TopBits, 1150, 0, Pow2(52));
    assert Exponent(Binary64, TopBits) == 127;
    TopExponent(bits);
    Pow2Add(1, 127);
    Pow2One();
    WrappedSigned(Pow2(127));
  }

  lemma CloseAtTop(a: int, m: nat)
    requires m == (if a < 0 then -a else a) && Pow2(127) - Pow2(73) <= m <= Pow2(127) && a < Pow2(127)
    ensures Close(a, -(Pow2(127) as int)) <==> a < 0
  {
    hide Pow2, BitLength;
    Pow2Add(1, 126);
    Pow2Add(1, 73);
    Pow2One();
    Pow2Monotone(73, 126);
    BitLengthBounds(m);
    if BitLength(m) < 127 {
      Pow2Monotone(BitLength(m), 126);
    } else {
      Pow2Monotone(74, BitLength(m) - 53);
    }
    if BitLength(m) > 127 {
      Pow2Monotone(127, BitLength(m) - 1);
    }
    Pow2Monotone(74, 126);
  }

  /** Both signed conversions in a row. */
  method SignedThereAndBack(a: int) returns (r: int)
    requires -(Pow2(127) as int) <= a < Pow2(127)
    ensures Close(a, r) <==> a < Pow2(127) - Pow2(73)
    ensures a >= Pow2(127) - Pow2(73) ==> r == -(Pow2(127) as int)
  {
    hide Pow2, BitLength, NearestEven, FixSigned, Close;
    Double();
    var bits := FloatTiDf(a);
    SignedRoundTrip(a, bits);
    r := FixSigned(bits);
  }

  /** The largest signed integer comes back as the smallest one. */
  method LargestWraps() returns (r: int)
    ensures r == -(Pow2(127) as int) && !Close(Pow2(127) - 1, r)
  {
    hide Pow2, BitLength, Close;
    Pow2Monotone(0, 73);
    TopUnits();
    r := SignedThereAndBack(Pow2(127) - 1);
  }
}
