/** The bits of words, and what the functions of section 4.1.2 of FIPS 180-4 do to them. */
module WordBits {
  import opened Fips180
  import opened Powers

  // ---------------------------------------------------------------- digits and bits

  /** The binary digit of weight 2^i. */
  function Digit(x: nat, i: nat): (d: nat) {
    x / Pow2(i) % 2
  }

  /** The same for 32 bits, the position being a number modulo 32. */
  function Bit(x: bv32, k: bv5): (b: bv32) {
    (x >> k) & 1
  }

  function At(i: nat): (k: bv5)
    requires i < 32
  {
    if i == 0 then 0 else if i == 1 then 1 else if i == 2 then 2 else if i == 3 then 3 else if i == 4 then 4 else if i == 5 then 5 else if i == 6 then 6 else if i == 7 then 7 else
    if i == 8 then 8 else if i == 9 then 9 else if i == 10 then 10 else if i == 11 then 11 else if i == 12 then 12 else if i == 13 then 13 else if i == 14 then 14 else if i == 15 then 15 else
    if i == 16 then 16 else if i == 17 then 17 else if i == 18 then 18 else if i == 19 then 19 else if i == 20 then 20 else if i == 21 then 21 else if i == 22 then 22 else if i == 23 then 23 else
    if i == 24 then 24 else if i == 25 then 25 else if i == 26 then 26 else if i == 27 then 27 else if i == 28 then 28 else if i == 29 then 29 else if i == 30 then 30 else 31
  }

  function Weight(i: nat): (w: nat)
    requires i < 32
    ensures w > 0
  {
    if i == 0 then 0x1 else if i == 1 then 0x2 else if i == 2 then 0x4 else if i == 3 then 0x8 else if i == 4 then 0x10 else if i == 5 then 0x20 else if i == 6 then 0x40 else if i == 7 then 0x80 else
    if i == 8 then 0x100 else if i == 9 then 0x200 else if i == 10 then 0x400 else if i == 11 then 0x800 else if i == 12 then 0x1000 else if i == 13 then 0x2000 else if i == 14 then 0x4000 else if i == 15 then 0x8000 else
    if i == 16 then 0x10000 else if i == 17 then 0x20000 else if i == 18 then 0x40000 else if i == 19 then 0x80000 else if i == 20 then 0x100000 else if i == 21 then 0x200000 else if i == 22 then 0x400000 else if i == 23 then 0x800000 else
    if i == 24 then 0x1000000 else if i == 25 then 0x2000000 else if i == 26 then 0x4000000 else if i == 27 then 0x8000000 else if i == 28 then 0x10000000 else if i == 29 then 0x20000000 else if i == 30 then 0x40000000 else 0x80000000
  }

  lemma WeightDoubles(i: nat)
    requires i < 31
    ensures Weight(i + 1) == 2 * Weight(i)
  {
  }

  lemma {:induction false} WeightIs(i: nat)
    requires i < 32
    ensures Weight(i) == Pow2(i)
  {
    hide Weight;
    if i == 0 {
      assert Weight(0) == 1 by { WeightOne(); }
    } else {
      WeightIs(i - 1);
      WeightDoubles(i - 1);
    }
  }

  lemma WeightOne()
    ensures Weight(0) == 1 && At(0) == 0
  {
  }

  lemma BitIsWeighed(x: word, i: nat)
    requires i < 32
    ensures ((x as bv32 >> At(i)) & 1) as int == x / Weight(i) % 2
  {
  }

  lemma BitsBack(b: bv32)
    ensures b as int as bv32 == b
  {
  }

  lemma BitIsDigit(x: word, i: nat)
    requires i < 32
    ensures Bit(x as bv32, At(i)) as int == Digit(x, i)
  {
    hide At, Weight;
    BitIsWeighed(x, i);
    WeightIs(i);
  }

  lemma AtNext(i: nat)
    requires i < 31
    ensures At(i) == At(i + 1) - 1
  {
    if i < 16 {
    } else {
    }
  }

  lemma AtWraps(i: nat)
    requires i < 32
    ensures At((i + 1) % 32) == At(i) + 1
  {
    hide At;
    if i < 31 {
      AtNext(i);
    } else {
      AtEnd();
    }
  }

  lemma AtEnd()
    ensures At(31) + 1 == At(0) && At(0) == 0
  {
  }

  lemma {:induction false} AtAdds(i: nat, n: nat)
    requires i < 32 && n < 32
    ensures At((i + n) % 32) == At(i) + At(n)
  {
    hide At;
    if n == 0 {
      AtEnd();
    } else {
      AtAdds(i, n - 1);
      AtWraps(n - 1);
      AtWraps((i + n - 1) % 32);
    }
  }

  lemma AtBelow(i: nat)
    requires i < 32
    ensures (At(i) < 29 <==> i < 29) && (At(i) < 22 <==> i < 22)
  {
  }

  lemma AtShifts()
    ensures At(2) == 2 && At(3) == 3 && At(6) == 6 && At(7) == 7 && At(10) == 10 && At(11) == 11 && At(13) == 13
    ensures At(17) == 17 && At(18) == 18 && At(19) == 19 && At(22) == 22 && At(25) == 25
  {
  }

  /** The sum of three bits modulo 2 is their exclusive or. */
  lemma SumOfBits(a: bv32, b: bv32, c: bv32)
    requires a <= 1 && b <= 1 && c <= 1
    ensures (a ^ b ^ c) as int == (a as int + b as int + c as int) % 2
  {
  }

  lemma BitSmall(x: bv32, k: bv5)
    ensures Bit(x, k) <= 1
  {
  }

  lemma DigitAround(x: word, i: nat, n: nat)
    requires i < 32 && n < 32
    ensures Bit(x as bv32, At(i) + At(n)) as int == Digit(x, (i + n) % 32)
    ensures Bit(x as bv32, At(i) + At(n)) <= 1
  {
    hide At, Bit, Digit;
    AtAdds(i, n);
    BitSmall(x as bv32, At(i) + At(n));
    BitIsDigit(x, (i + n) % 32);
  }

  // ---------------------------------------------------------------- each digit of a sigma is a sum of digits, modulo 2

  lemma SmallSigma0AtBit(x: bv32, k: bv5)
    ensures Bit(SmallSigma0Bits(x), k) == Bit(x, k + 7) ^ Bit(x, k + 18) ^ (if k < 29 then Bit(x, k + 3) else 0)
  {
    calc {
      Bit(SmallSigma0Bits(x), k);
      ((x.RotateRight(7) ^ x.RotateRight(18) ^ (x >> 3)) >> k) & 1;
      { SmallSigma0Shape(x, k); }
      ((x >> (k + 7)) & 1) ^ ((x >> (k + 18)) & 1) ^ (if k < 29 then (x >> (k + 3)) & 1 else 0);
      Bit(x, k + 7) ^ Bit(x, k + 18) ^ (if k < 29 then Bit(x, k + 3) else 0);
    }
  }

  lemma SmallSigma0Shape(x: bv32, k: bv5)
    ensures ((x.RotateRight(7) ^ x.RotateRight(18) ^ (x >> 3)) >> k) & 1
         == ((x >> (k + 7)) & 1) ^ ((x >> (k + 18)) & 1) ^ (if k < 29 then (x >> (k + 3)) & 1 else 0)
  {
  }

  lemma SmallSigma0Digit(x: word, i: nat)
    requires i < 32
    ensures Digit(SmallSigma0(x), i) == (Digit(x, (i + 7) % 32) + Digit(x, (i + 18) % 32) + (if i + 3 < 32 then Digit(x, i + 3) else 0)) % 2
  {
    hide At, Bit, Digit, SmallSigma0Bits;
    var b := x as bv32;
    var k := At(i);
    BitsBack(SmallSigma0Bits(b));
    BitIsDigit(SmallSigma0(x), i);
    SmallSigma0AtBit(b, k);
    AtShifts();
    AtBelow(i);
    DigitAround(x, i, 7);
    DigitAround(x, i, 18);
    DigitAround(x, i, 3);
    SumOfBits(Bit(b, k + 7), Bit(b, k + 18), if k < 29 then Bit(b, k + 3) else 0);
  }

  lemma SmallSigma1AtBit(x: bv32, k: bv5)
    ensures Bit(SmallSigma1Bits(x), k) == Bit(x, k + 17) ^ Bit(x, k + 19) ^ (if k < 22 then Bit(x, k + 10) else 0)
  {
    calc {
      Bit(SmallSigma1Bits(x), k);
      ((x.RotateRight(17) ^ x.RotateRight(19) ^ (x >> 10)) >> k) & 1;
      { SmallSigma1Shape(x, k); }
      ((x >> (k + 17)) & 1) ^ ((x >> (k + 19)) & 1) ^ (if k < 22 then (x >> (k + 10)) & 1 else 0);
      Bit(x, k + 17) ^ Bit(x, k + 19) ^ (if k < 22 then Bit(x, k + 10) else 0);
    }
  }

  lemma SmallSigma1Shape(x: bv32, k: bv5)
    ensures ((x.RotateRight(17) ^ x.RotateRight(19) ^ (x >> 10)) >> k) & 1
         == ((x >> (k + 17)) & 1) ^ ((x >> (k + 19)) & 1) ^ (if k < 22 then (x >> (k + 10)) & 1 else 0)
  {
  }

  lemma SmallSigma1Digit(x: word, i: nat)
    requires i < 32
    ensures Digit(SmallSigma1(x), i) == (Digit(x, (i + 17) % 32) + Digit(x, (i + 19) % 32) + (if i + 10 < 32 then Digit(x, i + 10) else 0)) % 2
  {
    hide At, Bit, Digit, SmallSigma1Bits;
    var b := x as bv32;
    var k := At(i);
    BitsBack(SmallSigma1Bits(b));
    BitIsDigit(SmallSigma1(x), i);
    SmallSigma1AtBit(b, k);
    AtShifts();
    AtBelow(i);
    DigitAround(x, i, 17);
    DigitAround(x, i, 19);
    DigitAround(x, i, 10);
    SumOfBits(Bit(b, k + 17), Bit(b, k + 19), if k < 22 then Bit(b, k + 10) else 0);
  }

  lemma BigSigma0AtBit(x: bv32, k: bv5)
    ensures Bit(BigSigma0Bits(x), k) == Bit(x, k + 2) ^ Bit(x, k + 13) ^ Bit(x, k + 22)
  {
    calc {
      Bit(BigSigma0Bits(x), k);
      ((x.RotateRight(2) ^ x.RotateRight(13) ^ x.RotateRight(22)) >> k) & 1;
      { BigSigma0Shape(x, k); }
      ((x >> (k + 2)) & 1) ^ ((x >> (k + 13)) & 1) ^ ((x >> (k + 22)) & 1);
      Bit(x, k + 2) ^ Bit(x, k + 13) ^ Bit(x, k + 22);
    }
  }

  lemma BigSigma0Shape(x: bv32, k: bv5)
    ensures ((x.RotateRight(2) ^ x.RotateRight(13) ^ x.RotateRight(22)) >> k) & 1
         == ((x >> (k + 2)) & 1) ^ ((x >> (k + 13)) & 1) ^ ((x >> (k + 22)) & 1)
  {
  }

  lemma BigSigma0Digit(x: word, i: nat)
    requires i < 32
    ensures Digit(BigSigma0(x), i) == (Digit(x, (i + 2) % 32) + Digit(x, (i + 13) % 32) + Digit(x, (i + 22) % 32)) % 2
  {
    hide At, Bit, Digit, BigSigma0Bits;
    var b := x as bv32;
    var k := At(i);
    BitsBack(BigSigma0Bits(b));
    BitIsDigit(BigSigma0(x), i);
    BigSigma0AtBit(b, k);
    AtShifts();
    DigitAround(x, i, 2);
    DigitAround(x, i, 13);
    DigitAround(x, i, 22);
    SumOfBits(Bit(b, k + 2), Bit(b, k + 13), Bit(b, k + 22));
  }

  lemma BigSigma1AtBit(x: bv32, k: bv5)
    ensures Bit(BigSigma1Bits(x), k) == Bit(x, k + 6) ^ Bit(x, k + 11) ^ Bit(x, k + 25)
  {
    calc {
      Bit(BigSigma1Bits(x), k);
      ((x.RotateRight(6) ^ x.RotateRight(11) ^ x.RotateRight(25)) >> k) & 1;
      { BigSigma1Shape(x, k); }
      ((x >> (k + 6)) & 1) ^ ((x >> (k + 11)) & 1) ^ ((x >> (k + 25)) & 1);
      Bit(x, k + 6) ^ Bit(x, k + 11) ^ Bit(x, k + 25);
    }
  }

  lemma BigSigma1Shape(x: bv32, k: bv5)
    ensures ((x.RotateRight(6) ^ x.RotateRight(11) ^ x.RotateRight(25)) >> k) & 1
         == ((x >> (k + 6)) & 1) ^ ((x >> (k + 11)) & 1) ^ ((x >> (k + 25)) & 1)
  {
  }

  lemma BigSigma1Digit(x: word, i: nat)
    requires i < 32
    ensures Digit(BigSigma1(x), i) == (Digit(x, (i + 6) % 32) + Digit(x, (i + 11) % 32) + Digit(x, (i + 25) % 32)) % 2
  {
    hide At, Bit, Digit, BigSigma1Bits;
    var b := x as bv32;
    var k := At(i);
    BitsBack(BigSigma1Bits(b));
    BitIsDigit(BigSigma1(x), i);
    BigSigma1AtBit(b, k);
    AtShifts();
    DigitAround(x, i, 6);
    DigitAround(x, i, 11);
    DigitAround(x, i, 25);
    SumOfBits(Bit(b, k + 6), Bit(b, k + 11), Bit(b, k + 25));
  }

  // ---------------------------------------------------------------- choice and majority

  /** Where the bits of the first word are set, those of the second are taken, and elsewhere those of the third. */
  lemma ChTakes(x: bv32, y: bv32, z: bv32)
    ensures x & ChBits(x, y, z) == x & y && !x & ChBits(x, y, z) == !x & z
  {
  }

  /** Where two of the words agree, their bits are taken; where they differ, the third decides. */
  lemma MajTakes(x: bv32, y: bv32, z: bv32)
    ensures !(x ^ y) & MajBits(x, y, z) == !(x ^ y) & x
    ensures (x ^ y) & MajBits(x, y, z) == (x ^ y) & z
    ensures MajBits(x, y, z) == MajBits(y, x, z) == MajBits(x, z, y)
  {
    MajAgreed(x, y, z);
    MajSplit(x, y, z);
    MajSymmetric(x, y, z);
  }

  lemma MajAgreed(x: bv32, y: bv32, z: bv32)
    ensures !(x ^ y) & MajBits(x, y, z) == !(x ^ y) & x
  {
  }

  lemma MajSplit(x: bv32, y: bv32, z: bv32)
    ensures (x ^ y) & MajBits(x, y, z) == (x ^ y) & z
  {
  }

  lemma MajSymmetric(x: bv32, y: bv32, z: bv32)
    ensures MajBits(x, y, z) == MajBits(y, x, z) == MajBits(x, z, y)
  {
  }
}
