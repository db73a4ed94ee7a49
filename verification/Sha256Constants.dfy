/** Where the constants of sections 4.2.2 and 5.3.3 of FIPS 180-4 come from: roots of the first primes. */
module Sha256Constants {
  import opened Fips180
  import opened Powers

  // ---------------------------------------------------------------- the first 64 primes

  ghost predicate IsPrime(n: nat) {
    n >= 2 && forall d | 2 <= d < n :: n % d != 0
  }

  function Prime(t: nat): (p: nat)
    requires t < 64
  {
    if t < 16 then Primes0()[t] else if t < 32 then Primes1()[t - 16] else if t < 48 then Primes2()[t - 32] else Primes3()[t - 48]
  }

  function Primes0(): (r: seq<nat>)
    ensures |r| == 16
  {
    [2, 3, 5, 7, 11, 13, 17, 19, 23, 29, 31, 37, 41, 43, 47, 53]
  }

  function Primes1(): (r: seq<nat>)
    ensures |r| == 16
  {
    [59, 61, 67, 71, 73, 79, 83, 89, 97, 101, 103, 107, 109, 113, 127, 131]
  }

  function Primes2(): (r: seq<nat>)
    ensures |r| == 16
  {
    [137, 139, 149, 151, 157, 163, 167, 173, 179, 181, 191, 193, 197, 199, 211, 223]
  }

  function Primes3(): (r: seq<nat>)
    ensures |r| == 16
  {
    [227, 229, 233, 239, 241, 251, 257, 263, 269, 271, 277, 281, 283, 293, 307, 311]
  }

  /** No prime up to 17 divides the number, unless it is that prime. */
  predicate Sieved(n: nat) {
    && n >= 2
    && (n % 2 != 0 || n == 2) && (n % 3 != 0 || n == 3) && (n % 5 != 0 || n == 5) && (n % 7 != 0 || n == 7)
    && (n % 11 != 0 || n == 11) && (n % 13 != 0 || n == 13) && (n % 17 != 0 || n == 17)
  }

  /** Below 18 * 18 these are the primes. */
  lemma SievedIsPrime(n: nat)
    requires n < 324
    ensures Sieved(n) <==> IsPrime(n)
  {
    if Sieved(n) {
      forall d | 2 <= d < n
        ensures n % d != 0
      {
        if n % d == 0 {
          NoFactor(n, d);
        }
      }
    }
  }

  lemma NoFactor(n: nat, d: nat)
    requires Sieved(n) && n < 324 && 2 <= d < n
    ensures n % d != 0
  {
    if n % d == 0 {
      var e := n / d;
      assert n == d * e;
      if d < 18 {
        NoSmallFactor(n, d, e);
      } else {
        assert e < 18 by {
          if e >= 18 {
            Product(d, e);
          }
        }
        assert e >= 2 by {
          if e <= 1 {
            assert d * e <= d;
          }
        }
        NoSmallFactor(n, e, d);
      }
    }
  }

  lemma Product(d: nat, e: nat)
    requires d >= 18 && e >= 18
    ensures d * e >= 324
  {
    assert d * e >= 18 * e;
  }

  lemma NoSmallFactor(n: nat, d: nat, e: nat)
    requires Sieved(n) && n == d * e && 2 <= d < 18 && d < n
    ensures false
  {
    hide Sieved;
    var p := if d % 2 == 0 then 2 else if d % 3 == 0 then 3 else d;
    assert p in [2, 3, 5, 7, 11, 13, 17];
    Multiple(n, p, d, e);
    NoDivisor(n, p);
  }

  lemma NoDivisor(n: nat, p: nat)
    requires Sieved(n) && p in [2, 3, 5, 7, 11, 13, 17] && p < n
    ensures n % p != 0
  {
  }

  lemma Multiple(n: nat, p: nat, d: nat, e: nat)
    requires p > 0 && d % p == 0 && n == d * e
    ensures n % p == 0
  {
    var k := d / p;
    assert d == k * p;
    assert n == k * e * p;
    DivModUnique(n, k * e, 0, p);
  }

  lemma Sieved0(n: nat)
    requires 0 <= n < 13 && Sieved(n)
    ensures n in Primes0()
  {
  }

  lemma Sieved13(n: nat)
    requires 13 <= n < 27 && Sieved(n)
    ensures n in Primes0()
  {
  }

  lemma Sieved27(n: nat)
    requires 27 <= n < 40 && Sieved(n)
    ensures n in Primes0()
  {
  }

  lemma Sieved40(n: nat)
    requires 40 <= n < 54 && Sieved(n)
    ensures n in Primes0()
  {
  }

  lemma Sieved54(n: nat)
    requires 54 <= n < 73 && Sieved(n)
    ensures n in Primes1()
  {
  }

  lemma Sieved73(n: nat)
    requires 73 <= n < 93 && Sieved(n)
    ensures n in Primes1()
  {
  }

  lemma Sieved93(n: nat)
    requires 93 <= n < 112 && Sieved(n)
    ensures n in Primes1()
  {
  }

  lemma Sieved112(n: nat)
    requires 112 <= n < 132 && Sieved(n)
    ensures n in Primes1()
  {
  }

  lemma Sieved132(n: nat)
    requires 132 <= n < 155 && Sieved(n)
    ensures n in Primes2()
  {
  }

  lemma Sieved155(n: nat)
    requires 155 <= n < 178 && Sieved(n)
    ensures n in Primes2()
  {
  }

  lemma Sieved178(n: nat)
    requires 178 <= n < 201 && Sieved(n)
    ensures n in Primes2()
  {
  }

  lemma Sieved201(n: nat)
    requires 201 <= n < 224 && Sieved(n)
    ensures n in Primes2()
  {
  }

  lemma Sieved224(n: nat)
    requires 224 <= n < 246 && Sieved(n)
    ensures n in Primes3()
  {
  }

  lemma Sieved246(n: nat)
    requires 246 <= n < 268 && Sieved(n)
    ensures n in Primes3()
  {
  }

  lemma Sieved268(n: nat)
    requires 268 <= n < 290 && Sieved(n)
    ensures n in Primes3()
  {
  }

  lemma Sieved290(n: nat)
    requires 290 <= n < 312 && Sieved(n)
    ensures n in Primes3()
  {
  }

  lemma Primes0Sieved(i: nat)
    requires i < 16
    ensures Sieved(Primes0()[i]) && Primes0()[i] <= 311
    ensures i < 15 ==> Primes0()[i] < Primes0()[i + 1]
  {
  }

  lemma Primes1Sieved(i: nat)
    requires i < 16
    ensures Sieved(Primes1()[i]) && Primes1()[i] <= 311
    ensures i < 15 ==> Primes1()[i] < Primes1()[i + 1]
  {
  }

  lemma Primes2Sieved(i: nat)
    requires i < 16
    ensures Sieved(Primes2()[i]) && Primes2()[i] <= 311
    ensures i < 15 ==> Primes2()[i] < Primes2()[i + 1]
  {
  }

  lemma Primes3Sieved(i: nat)
    requires i < 16
    ensures Sieved(Primes3()[i]) && Primes3()[i] <= 311
    ensures i < 15 ==> Primes3()[i] < Primes3()[i + 1]
  {
  }

  /** The table lists the primes up to 311, each once and in ascending order. */
  lemma PrimesAre(t: nat)
    requires t < 64
    ensures IsPrime(Prime(t)) && Prime(t) <= 311
    ensures t < 63 ==> Prime(t) < Prime(t + 1)
  {
    hide Sieved, IsPrime, Primes0, Primes1, Primes2, Primes3;
    if t < 16 {
      Primes0Sieved(t);
    } else if t < 32 {
      Primes1Sieved(t - 16);
    } else if t < 48 {
      Primes2Sieved(t - 32);
    } else {
      Primes3Sieved(t - 48);
    }
    TableEnds();
    SievedIsPrime(Prime(t));
  }

  lemma TableEnds()
    ensures Primes0()[15] < Primes1()[0] && Primes1()[15] < Primes2()[0] && Primes2()[15] < Primes3()[0]
  {
  }

  lemma PrimesComplete(n: nat)
    requires IsPrime(n) && n <= 311
    ensures exists t: nat :: t < 64 && Prime(t) == n
  {
    hide Sieved, IsPrime, Primes0, Primes1, Primes2, Primes3;
    SievedIsPrime(n);
    SievedListed(n);
    if n in Primes0() {
      var i :| 0 <= i < 16 && Primes0()[i] == n;
      assert Prime(i) == n;
    } else if n in Primes1() {
      var i :| 0 <= i < 16 && Primes1()[i] == n;
      assert Prime(16 + i) == n;
    } else if n in Primes2() {
      var i :| 0 <= i < 16 && Primes2()[i] == n;
      assert Prime(32 + i) == n;
    } else {
      var i :| 0 <= i < 16 && Primes3()[i] == n;
      assert Prime(48 + i) == n;
    }
  }

  lemma SievedListed(n: nat)
    requires Sieved(n) && n <= 311
    ensures n in Primes0() || n in Primes1() || n in Primes2() || n in Primes3()
  {
    hide Sieved, Primes0, Primes1, Primes2, Primes3;
    if n < 13 {
      Sieved0(n);
    } else if n < 27 {
      Sieved13(n);
    } else if n < 40 {
      Sieved27(n);
    } else if n < 54 {
      Sieved40(n);
    } else if n < 73 {
      Sieved54(n);
    } else if n < 93 {
      Sieved73(n);
    } else if n < 112 {
      Sieved93(n);
    } else if n < 132 {
      Sieved112(n);
    } else if n < 155 {
      Sieved132(n);
    } else if n < 178 {
      Sieved155(n);
    } else if n < 201 {
      Sieved178(n);
    } else if n < 224 {
      Sieved201(n);
    } else if n < 246 {
      Sieved224(n);
    } else if n < 268 {
      Sieved246(n);
    } else if n < 290 {
      Sieved268(n);
    } else {
      Sieved290(n);
    }
  }

  // ---------------------------------------------------------------- roots

  function Square(x: nat): (r: nat) {
    x * x
  }

  function Cube(x: nat): (r: nat) {
    x * x * x
  }

  /** `k` is the first 32 bits of the fractional part of the square root of `p`, `c` being the integral part. */
  predicate SquareRoot(p: nat, c: nat, k: nat) {
    && Square(c) <= p < Square(c + 1)
    && Square(c * 0x1_0000_0000 + k) <= p * 0x1_0000_0000_0000_0000 < Square(c * 0x1_0000_0000 + k + 1)
  }

  /** The same for the cube root. */
  predicate CubeRoot(p: nat, c: nat, k: nat) {
    && Cube(c) <= p < Cube(c + 1)
    && Cube(c * 0x1_0000_0000 + k) <= p * 0x1_0000_0000_0000_0000_0000_0000 < Cube(c * 0x1_0000_0000 + k + 1)
  }

  lemma Roots0()
    ensures CubeRoot(Primes0()[0], 1, KTable0()[0])
    ensures CubeRoot(Primes0()[1], 1, KTable0()[1])
    ensures CubeRoot(Primes0()[2], 1, KTable0()[2])
    ensures CubeRoot(Primes0()[3], 1, KTable0()[3])
    ensures CubeRoot(Primes0()[4], 2, KTable0()[4])
    ensures CubeRoot(Primes0()[5], 2, KTable0()[5])
    ensures CubeRoot(Primes0()[6], 2, KTable0()[6])
    ensures CubeRoot(Primes0()[7], 2, KTable0()[7])
  {
  }

  lemma Roots1()
    ensures CubeRoot(Primes0()[8], 2, KTable0()[8])
    ensures CubeRoot(Primes0()[9], 3, KTable0()[9])
    ensures CubeRoot(Primes0()[10], 3, KTable0()[10])
    ensures CubeRoot(Primes0()[11], 3, KTable0()[11])
    ensures CubeRoot(Primes0()[12], 3, KTable0()[12])
    ensures CubeRoot(Primes0()[13], 3, KTable0()[13])
    ensures CubeRoot(Primes0()[14], 3, KTable0()[14])
    ensures CubeRoot(Primes0()[15], 3, KTable0()[15])
  {
  }

  lemma Roots2()
    ensures CubeRoot(Primes1()[0], 3, KTable1()[0])
    ensures CubeRoot(Primes1()[1], 3, KTable1()[1])
    ensures CubeRoot(Primes1()[2], 4, KTable1()[2])
    ensures CubeRoot(Primes1()[3], 4, KTable1()[3])
    ensures CubeRoot(Primes1()[4], 4, KTable1()[4])
    ensures CubeRoot(Primes1()[5], 4, KTable1()[5])
    ensures CubeRoot(Primes1()[6], 4, KTable1()[6])
    ensures CubeRoot(Primes1()[7], 4, KTable1()[7])
  {
  }

  lemma Roots3()
    ensures CubeRoot(Primes1()[8], 4, KTable1()[8])
    ensures CubeRoot(Primes1()[9], 4, KTable1()[9])
    ensures CubeRoot(Primes1()[10], 4, KTable1()[10])
    ensures CubeRoot(Primes1()[11], 4, KTable1()[11])
    ensures CubeRoot(Primes1()[12], 4, KTable1()[12])
    ensures CubeRoot(Primes1()[13], 4, KTable1()[13])
    ensures CubeRoot(Primes1()[14], 5, KTable1()[14])
    ensures CubeRoot(Primes1()[15], 5, KTable1()[15])
  {
  }

  lemma Roots4()
    ensures CubeRoot(Primes2()[0], 5, KTable2()[0])
    ensures CubeRoot(Primes2()[1], 5, KTable2()[1])
    ensures CubeRoot(Primes2()[2], 5, KTable2()[2])
    ensures CubeRoot(Primes2()[3], 5, KTable2()[3])
    ensures CubeRoot(Primes2()[4], 5, KTable2()[4])
    ensures CubeRoot(Primes2()[5], 5, KTable2()[5])
    ensures CubeRoot(Primes2()[6], 5, KTable2()[6])
    ensures CubeRoot(Primes2()[7], 5, KTable2()[7])
  {
  }

  lemma Roots5()
    ensures CubeRoot(Primes2()[8], 5, KTable2()[8])
    ensures CubeRoot(Primes2()[9], 5, KTable2()[9])
    ensures CubeRoot(Primes2()[10], 5, KTable2()[10])
    ensures CubeRoot(Primes2()[11], 5, KTable2()[11])
    ensures CubeRoot(Primes2()[12], 5, KTable2()[12])
    ensures CubeRoot(Primes2()[13], 5, KTable2()[13])
    ensures CubeRoot(Primes2()[14], 5, KTable2()[14])
    ensures CubeRoot(Primes2()[15], 6, KTable2()[15])
  {
  }

  lemma Roots6()
    ensures CubeRoot(Primes3()[0], 6, KTable3()[0])
    ensures CubeRoot(Primes3()[1], 6, KTable3()[1])
    ensures CubeRoot(Primes3()[2], 6, KTable3()[2])
    ensures CubeRoot(Primes3()[3], 6, KTable3()[3])
    ensures CubeRoot(Primes3()[4], 6, KTable3()[4])
    ensures CubeRoot(Primes3()[5], 6, KTable3()[5])
    ensures CubeRoot(Primes3()[6], 6, KTable3()[6])
    ensures CubeRoot(Primes3()[7], 6, KTable3()[7])
  {
  }

  lemma Roots7()
    ensures CubeRoot(Primes3()[8], 6, KTable3()[8])
    ensures CubeRoot(Primes3()[9], 6, KTable3()[9])
    ensures CubeRoot(Primes3()[10], 6, KTable3()[10])
    ensures CubeRoot(Primes3()[11], 6, KTable3()[11])
    ensures CubeRoot(Primes3()[12], 6, KTable3()[12])
    ensures CubeRoot(Primes3()[13], 6, KTable3()[13])
    ensures CubeRoot(Primes3()[14], 6, KTable3()[14])
    ensures CubeRoot(Primes3()[15], 6, KTable3()[15])
  {
  }

  lemma RootsOfTable0(i: nat)
    requires i < 16
    ensures exists c: nat :: CubeRoot(Primes0()[i], c, KTable0()[i])
  {
    hide CubeRoot, Primes0, KTable0;
    Roots0();
    Roots1();
    Sixteen(i);
  }

  lemma RootsOfTable1(i: nat)
    requires i < 16
    ensures exists c: nat :: CubeRoot(Primes1()[i], c, KTable1()[i])
  {
    hide CubeRoot, Primes1, KTable1;
    Roots2();
    Roots3();
    Sixteen(i);
  }

  lemma RootsOfTable2(i: nat)
    requires i < 16
    ensures exists c: nat :: CubeRoot(Primes2()[i], c, KTable2()[i])
  {
    hide CubeRoot, Primes2, KTable2;
    Roots4();
    Roots5();
    Sixteen(i);
  }

  lemma RootsOfTable3(i: nat)
    requires i < 16
    ensures exists c: nat :: CubeRoot(Primes3()[i], c, KTable3()[i])
  {
    hide CubeRoot, Primes3, KTable3;
    Roots6();
    Roots7();
    Sixteen(i);
  }

  lemma Sixteen(i: nat)
    requires i < 16
    ensures i == 0 || i == 1 || i == 2 || i == 3 || i == 4 || i == 5 || i == 6 || i == 7
         || i == 8 || i == 9 || i == 10 || i == 11 || i == 12 || i == 13 || i == 14 || i == 15
  {
  }

  /** Each round constant is the first 32 bits of the fractional part of the cube root of the prime of its number. */
  lemma RoundConstantIsCubeRoot(t: nat)
    requires t < 64
    ensures exists c: nat :: CubeRoot(Prime(t), c, K(t))
  {
    hide CubeRoot, Primes0, Primes1, Primes2, Primes3, KTable0, KTable1, KTable2, KTable3;
    if t < 16 {
      RootsOfTable0(t);
      assert Prime(t) == Primes0()[t] && K(t) == KTable0()[t];
    } else if t < 32 {
      RootsOfTable1(t - 16);
      assert Prime(t) == Primes1()[t - 16] && K(t) == KTable1()[t - 16];
    } else if t < 48 {
      RootsOfTable2(t - 32);
      assert Prime(t) == Primes2()[t - 32] && K(t) == KTable2()[t - 32];
    } else {
      RootsOfTable3(t - 48);
      assert Prime(t) == Primes3()[t - 48] && K(t) == KTable3()[t - 48];
    }
  }

  lemma RootsOfHash()
    ensures SquareRoot(Primes0()[0], 1, InitialHash()[0])
    ensures SquareRoot(Primes0()[1], 1, InitialHash()[1])
    ensures SquareRoot(Primes0()[2], 2, InitialHash()[2])
    ensures SquareRoot(Primes0()[3], 2, InitialHash()[3])
    ensures SquareRoot(Primes0()[4], 3, InitialHash()[4])
    ensures SquareRoot(Primes0()[5], 3, InitialHash()[5])
    ensures SquareRoot(Primes0()[6], 4, InitialHash()[6])
    ensures SquareRoot(Primes0()[7], 4, InitialHash()[7])
  {
  }

  /** Each word of the initial hash value is that of the square root. */
  lemma InitialHashIsSquareRoot(i: nat)
    requires i < 8
    ensures exists c: nat :: SquareRoot(Prime(i), c, InitialHash()[i])
  {
    hide SquareRoot, Primes0, InitialHash;
    RootsOfHash();
    Sixteen(i);
    assert Prime(i) == Primes0()[i];
  }

  /** A number has one such root. */
  lemma CubeRootUnique(p: nat, c: nat, k: word, d: nat, m: word)
    requires CubeRoot(p, c, k) && CubeRoot(p, d, m)
    ensures c == d && k == m
  {
    hide Cube;
    if c < d {
      CubeMonotone(c + 1, d);
    }
    if d < c {
      CubeMonotone(d + 1, c);
    }
    var x, y := c * 0x1_0000_0000 + k, d * 0x1_0000_0000 + m;
    if x < y {
      CubeMonotone(x + 1, y);
    }
    if y < x {
      CubeMonotone(y + 1, x);
    }
  }

  lemma CubeMonotone(x: nat, y: nat)
    requires x <= y
    ensures Cube(x) <= Cube(y)
  {
    assert x * x <= y * y by {
      assert x * x <= x * y <= y * y;
    }
    assert x * x * x <= y * y * x <= y * y * y;
  }
}
