/** Numbers in base 32, most significant digit first. */
module Base32 {
  import opened Bytes

  ghost function Pow32(n: nat): (r: nat)
    ensures r > 0
  {
    if n == 0 then 1 else 32 * Pow32(n - 1)
  }

  ghost predicate IsDigits(ds: seq<nat>) {
    forall i | 0 <= i < |ds| :: ds[i] < 32
  }

  ghost function Value(ds: seq<nat>): (v: nat) {
    if ds == [] then 0 else 32 * Value(ds[..|ds| - 1]) + ds[|ds| - 1]
  }

  ghost function Digits(v: nat, n: nat): (ds: seq<nat>)
    ensures |ds| == n && IsDigits(ds)
  {
    if n == 0 then [] else Digits(v / 32, n - 1) + [v % 32]
  }

  lemma {:induction false} ValueOfDigits(v: nat, n: nat)
    requires v < Pow32(n)
    ensures Value(Digits(v, n)) == v
  {
    if n > 0 {
      ValueOfDigits(v / 32, n - 1);
      assert Digits(v, n)[..n - 1] == Digits(v / 32, n - 1);
    }
  }

  lemma {:induction false} DigitsOfValue(ds: seq<nat>)
    requires IsDigits(ds)
    ensures Digits(Value(ds), |ds|) == ds && Value(ds) < Pow32(|ds|)
  {
    if ds != [] {
      DigitsOfValue(ds[..|ds| - 1]);
      LastDigit(Value(ds[..|ds| - 1]), ds[|ds| - 1]);
      assert ds == ds[..|ds| - 1] + [ds[|ds| - 1]];
    }
  }

  lemma LastDigit(high: nat, d: nat)
    requires d < 32
    ensures (32 * high + d) / 32 == high && (32 * high + d) % 32 == d
  {
  }

  lemma {:induction false} ValueOfConcat(a: seq<nat>, b: seq<nat>)
    ensures Value(a + b) == Value(a) * Pow32(|b|) + Value(b)
  {
    if b == [] {
      assert a + b == a;
    } else {
      var init, d := b[..|b| - 1], b[|b| - 1];
      assert (a + b)[..|a + b| - 1] == a + init;
      ValueOfConcat(a, init);
      Distribute(Value(a), Pow32(|init|), Value(init), d);
    }
  }

  lemma Distribute(a: nat, p: nat, v: nat, d: nat)
    ensures 32 * (a * p + v) + d == a * (32 * p) + (32 * v + d)
  {
  }

  lemma {:induction false} ValueOfZeros(n: nat)
    ensures Value(Zeros(n)) == 0
  {
    if n > 0 {
      assert Zeros(n)[..n - 1] == Zeros(n - 1);
      ValueOfZeros(n - 1);
    }
  }

  lemma ZeroValue(ds: seq<nat>)
    requires IsDigits(ds)
    ensures Value(ds) == 0 <==> ds == Zeros(|ds|)
  {
    ValueOfZeros(|ds|);
    DigitsOfValue(ds);
    DigitsOfValue(Zeros(|ds|));
  }

  lemma KnownPowers()
    ensures Pow32(12) == 0x1000_0000_0000_0000 && Pow32(13) == 0x2_0000_0000_0000_0000
  {
    assert Pow32(4) == 0x10_0000;
    assert Pow32(8) == 0x100_0000_0000;
  }

  /** Of two numbers with as many digits, the one with the smaller first different digit is smaller. */
  lemma DigitOrder(a: seq<nat>, b: seq<nat>, i: nat)
    requires IsDigits(a) && IsDigits(b) && |a| == |b| && i < |a| && a[..i] == b[..i] && a[i] < b[i]
    ensures Value(a) < Value(b)
  {
    hide Value, Pow32, IsDigits;
    var k := |a| - i - 1;
    assert IsDigits(a[i + 1..]) by { TailDigits(a, i + 1); }
    assert a == a[..i] + ([a[i]] + a[i + 1..]) && b == b[..i] + ([b[i]] + b[i + 1..]);
    ValueOfConcat(a[..i], [a[i]] + a[i + 1..]);
    ValueOfConcat(b[..i], [b[i]] + b[i + 1..]);
    ValueOfConcat([a[i]], a[i + 1..]);
    ValueOfConcat([b[i]], b[i + 1..]);
    DigitsOfValue(a[i + 1..]);
    Lead(a[i], b[i], Pow32(k), Value(a[i + 1..]));
    OneDigit(a[i]);
    OneDigit(b[i]);
  }

  lemma OneDigit(d: nat)
    ensures Value([d]) == d
  {
    assert [d][..0] == [];
  }

  lemma TailDigits(ds: seq<nat>, i: nat)
    requires IsDigits(ds) && i <= |ds|
    ensures IsDigits(ds[i..])
  {
  }

  lemma Lead(x: nat, y: nat, p: nat, v: nat)
    requires x < y && v < p
    ensures x * p + v < y * p
  {
    assert (x + 1) * p <= y * p;
  }
}
