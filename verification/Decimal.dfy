/** write_decimal: a number with a decimal point, written from the right into a buffer. */
module DecimalModel {
  import opened Powers

  const NumberLimit: nat := 0x1_0000_0000_0000_0000

  function Pow10(n: nat): (r: nat)
    ensures r > 0
  {
    if n == 0 then 1 else 10 * Pow10(n - 1)
  }

  function DigitChar(d: nat): (c: char)
    requires d < 10
    ensures '0' <= c <= '9' && c as int - '0' as int == d
  {
    ('0' as int + d) as char
  }

  /** The last `n` decimal digits of a number. */
  ghost function Dec(x: nat, n: nat): (s: string)
    ensures |s| == n && AllDigits(s)
  {
    if n == 0 then "" else Dec(x / 10, n - 1) + [DigitChar(x % 10)]
  }

  ghost predicate AllDigits(s: string) {
    forall i | 0 <= i < |s| :: '0' <= s[i] <= '9'
  }

  /** The digits that a number has, none for 0. */
  ghost function DigitCount(number: nat): (n: nat) {
    if number == 0 then 0 else 1 + DigitCount(number / 10)
  }

  lemma {:induction false} DigitCountIs(number: nat)
    ensures var n := DigitCount(number); number < Pow10(n) && (n > 0 ==> Pow10(n - 1) <= number)
  {
    if number > 0 {
      DigitCountIs(number / 10);
    }
  }

  /** It is the number of powers of ten that are not above the number. */
  lemma DigitCountUnique(number: nat, n: nat)
    requires number < Pow10(n) && (n > 0 ==> Pow10(n - 1) <= number)
    ensures n == DigitCount(number)
  {
    hide Pow10;
    var m := DigitCount(number);
    DigitCountIs(number);
    if m < n {
      Pow10Grows(m, n - 1);
    } else if n < m {
      Pow10Grows(n, m - 1);
    }
  }

  function IntegerDigits(digits: nat, places: nat): (n: nat) {
    if places >= digits then 1 else digits - places
  }

  /** What is written: a sign, the integer part and, behind a point, as many digits as there are places. */
  ghost function Text(number: nat, places: nat, negative: bool): (s: string) {
    Head(Quot(number, Pow10(places)), IntegerDigits(DigitCount(number), places), negative) + Tail(number, places)
  }

  ghost function Head(whole: nat, count: nat, negative: bool): (s: string) {
    (if negative then "-" else "") + Dec(whole, count)
  }

  ghost function Tail(number: nat, places: nat): (s: string) {
    if places > 0 then "." + Dec(number, places) else ""
  }

  // ---------------------------------------------------------------- reading back

  ghost function DecValue(s: string): (v: nat)
    requires AllDigits(s)
  {
    if s == "" then 0 else 10 * DecValue(s[..|s| - 1]) + (s[|s| - 1] as int - '0' as int)
  }

  /** The place of the point, or the end. */
  ghost function PointOf(s: string): (i: nat)
    ensures i <= |s|
  {
    if s == "" || s[0] == '.' then 0 else 1 + PointOf(s[1..])
  }

  datatype Decimal = Decimal(negative: bool, number: nat, places: nat) | NotDecimal

  /** Reads a sign, digits and digits behind a point. */
  ghost function Read(s: string): (d: Decimal) {
    var negative := s != "" && s[0] == '-';
    var body := if negative then s[1..] else s;
    var p := PointOf(body);
    var whole, part := body[..p], if p < |body| then body[p + 1..] else "";
    if AllDigits(whole) && AllDigits(part) && AllDigits(whole + part)
    then Decimal(negative, DecValue(whole + part), |part|) else NotDecimal
  }

  lemma {:induction false} PointIs(a: string, b: string)
    requires AllDigits(a) && (b == "" || b[0] == '.')
    ensures PointOf(a + b) == |a|
  {
    if a == "" {
      assert a + b == b;
    } else {
      assert (a + b)[1..] == a[1..] + b;
      PointIs(a[1..], b);
    }
  }

  lemma {:induction false} DecValueOf(x: nat, n: nat)
    requires x < Pow10(n)
    ensures DecValue(Dec(x, n)) == x
  {
    if n > 0 {
      var init := Dec(x / 10, n - 1);
      assert Dec(x, n)[..n - 1] == init;
      DecValueOf(x / 10, n - 1);
      DecValueStep(init, x % 10);
    }
  }

  lemma DecValueStep(init: string, d: nat)
    requires AllDigits(init) && d < 10
    ensures AllDigits(init + [DigitChar(d)]) && DecValue(init + [DigitChar(d)]) == 10 * DecValue(init) + d
  {
    assert (init + [DigitChar(d)])[..|init|] == init;
  }

  /** Digits put together are the digits of the whole number. */
  lemma {:induction false} DecSplits(x: nat, high: nat, low: nat)
    ensures Dec(x, high + low) == Dec(Quot(x, Pow10(low)), high) + Dec(x, low)
  {
    if low == 0 {
      assert Quot(x, 1) == x;
      assert Dec(x, high) + "" == Dec(x, high);
    } else {
      hide Quot;
      DecSplits(x / 10, high, low - 1);
      DivideTen(x, Pow10(low - 1));
    }
  }

  lemma DivideTen(x: nat, p: nat)
    requires p > 0
    ensures Quot(x, 10 * p) == Quot(x / 10, p)
  {
    hide Quot, Rem;
    var q, r := Quot(x / 10, p), Rem(x / 10, p);
    QuotRem(x / 10, p);
    assert x == 10 * (x / 10) + x % 10;
    assert 10 * (q * p) == q * (10 * p);
    QuotRemUnique(x, q, 10 * r + x % 10, 10 * p);
  }

  lemma {:induction false} Pow10Grows(m: nat, n: nat)
    requires m <= n
    ensures Pow10(m) <= Pow10(n)
  {
    if m < n {
      Pow10Grows(m, n - 1);
    }
  }

  /** Reading a sign, digits and digits behind a point. */
  lemma ReadParts(whole: string, part: string, negative: bool, rest: string)
    requires AllDigits(whole) && AllDigits(part) && whole != "" && rest == if part == "" then "" else "." + part
    ensures AllDigits(whole + part)
    ensures Read(((if negative then "-" else "") + whole) + rest) == Decimal(negative, DecValue(whole + part), |part|)
  {
    hide DecValue, PointOf, AllDigits;
    var s, t := ((if negative then "-" else "") + whole) + rest, whole + rest;
    AllOf(whole, part);
    PointIs(whole, rest);
    assert s[0] == if negative then '-' else whole[0];
    assert (if negative then s[1..] else s) == t;
    assert t[..|whole|] == whole;
    assert part != "" ==> t[|whole| + 1..] == part;
  }

  lemma AllOf(a: string, b: string)
    requires AllDigits(a) && AllDigits(b)
    ensures AllDigits(a + b) && (a != "" ==> a[0] != '-')
  {
  }

  /** What is written reads back as the number, its sign and its places. */
  lemma ReadsBack(number: nat, places: nat, negative: bool)
    ensures Read(Text(number, places, negative)) == Decimal(negative, number, places)
  {
    hide Dec, DecValue, Pow10, Quot, DigitCount, Read;
    DigitCountIs(number);
    var n := IntegerDigits(DigitCount(number), places);
    ReadParts(Dec(Quot(number, Pow10(places)), n), Dec(number, places), negative, Tail(number, places));
    DecSplits(number, n, places);
    Pow10Grows(DigitCount(number), n + places);
    DecValueOf(number, n + places);
  }

  // ---------------------------------------------------------------- the only way to write it

  /** No zero in front that could be left out, a digit in front of the point and one behind it, if there is a point. */
  ghost predicate Canonical(s: string) {
    var t := Unsigned(s);
    && t != "" && t[0] != '.' && t[|t| - 1] != '.'
    && (t[0] == '0' ==> |t| == 1 || t[1] == '.')
  }

  ghost function Unsigned(s: string): (t: string) {
    if s != "" && s[0] == '-' then s[1..] else s
  }

  lemma {:induction false} DecOfValue(s: string)
    requires AllDigits(s)
    ensures DecValue(s) < Pow10(|s|) && Dec(DecValue(s), |s|) == s
  {
    if s != "" {
      var init, d := s[..|s| - 1], s[|s| - 1] as int - '0' as int;
      DecOfValue(init);
      LastDigit(DecValue(init), d);
      assert s == init + [DigitChar(d)];
    }
  }

  lemma LastDigit(high: nat, d: nat)
    requires d < 10
    ensures (10 * high + d) / 10 == high && (10 * high + d) % 10 == d
  {
  }

  /** The first digit is a zero exactly if the number has fewer digits. */
  lemma {:induction false} LeadingDigit(s: string)
    requires AllDigits(s) && s != ""
    ensures s[0] == '0' <==> DecValue(s) < Pow10(|s| - 1)
  {
    var init := s[..|s| - 1];
    if init == "" {
      assert DecValue(init) == 0;
    } else {
      LeadingDigit(init);
      assert s[0] == init[0];
    }
  }

  /** How many digits stand in front of the point. */
  lemma DigitsInFront(whole: string, part: string, number: nat)
    requires whole != "" && AllDigits(whole) && AllDigits(part) && AllDigits(whole + part) && DecValue(whole + part) == number
    ensures (whole[0] == '0' ==> |whole| == 1) <==> |whole| == IntegerDigits(DigitCount(number), |part|)
  {
    hide DecValue, Dec, DigitCount, Pow10, AllDigits, IntegerDigits;
    var d := whole + part;
    DecOfValue(d);
    LeadingDigit(d);
    assert d[0] == whole[0];
    CountInFront(number, |whole|, |part|);
  }

  lemma CountInFront(number: nat, count: nat, places: nat)
    requires count > 0 && number < Pow10(count + places)
    ensures (number < Pow10(count + places - 1) ==> count == 1) <==> count == IntegerDigits(DigitCount(number), places)
  {
    hide DigitCount, Pow10;
    var m := DigitCount(number);
    DigitCountIs(number);
    if number < Pow10(count + places - 1) {
      if m > count + places - 1 {
        Pow10Grows(count + places - 1, m - 1);
      }
    } else {
      DigitCountUnique(number, count + places);
    }
  }

  /** The digits in front of the point and those behind it. */
  lemma DigitsAre(whole: string, part: string, number: nat)
    requires AllDigits(whole) && AllDigits(part) && AllDigits(whole + part) && DecValue(whole + part) == number
    ensures whole == Dec(Quot(number, Pow10(|part|)), |whole|) && part == Dec(number, |part|)
  {
    hide DecValue, Dec, Pow10, Quot, AllDigits;
    DecOfValue(whole + part);
    DecSplits(number, |whole|, |part|);
    SameHalves(whole, part, Dec(Quot(number, Pow10(|part|)), |whole|), Dec(number, |part|));
  }

  lemma SameHalves(a: string, b: string, c: string, d: string)
    requires a + b == c + d && |a| == |c|
    ensures a == c && b == d
  {
    assert a == (a + b)[..|a|] && c == (c + d)[..|c|];
    assert b == (a + b)[|a|..] && d == (c + d)[|c|..];
  }

  lemma {:induction false} PointThere(s: string)
    ensures PointOf(s) < |s| ==> s[PointOf(s)] == '.'
  {
    if !(s == "" || s[0] == '.') {
      PointThere(s[1..]);
    }
  }

  lemma CanonicalText(s: string, number: nat, places: nat, negative: bool)
    requires Canonical(s) && Read(s) == Decimal(negative, number, places)
    ensures s == Text(number, places, negative)
  {
    hide DecValue, Dec, Pow10, Quot, PointOf, DigitCount, IntegerDigits, AllDigits, Read, Unsigned;
    var t := Unsigned(s);
    var p := PointOf(t);
    var whole, part := t[..p], if p < |t| then t[p + 1..] else "";
    ReadMeans(s, number, places, negative);
    CanonicalParts(t, whole, part);
    DigitsAre(whole, part, number);
    DigitsInFront(whole, part, number);
    SignedText(s, t, negative);
    TextFrom(t, whole, part, number, places, negative);
  }

  lemma ReadMeans(s: string, number: nat, places: nat, negative: bool)
    requires Read(s) == Decimal(negative, number, places)
    ensures var t := Unsigned(s);
            var p := PointOf(t);
            var whole, part := t[..p], if p < |t| then t[p + 1..] else "";
            && AllDigits(whole) && AllDigits(part) && AllDigits(whole + part)
            && DecValue(whole + part) == number && |part| == places
    ensures negative == (s != "" && s[0] == '-')
  {
    hide AllDigits, DecValue, PointOf;
  }

  lemma TextFrom(t: string, whole: string, part: string, number: nat, places: nat, negative: bool)
    requires t == whole + (if part == "" then "" else "." + part) && |part| == places
    requires whole == Dec(Quot(number, Pow10(places)), IntegerDigits(DigitCount(number), places)) && part == Dec(number, places)
    ensures Text(number, places, negative) == (if negative then "-" else "") + t
  {
    hide Dec, Pow10, Quot, DigitCount, IntegerDigits, Head, Tail, AllDigits;
    var sign, tail := if negative then "-" else "", if part == "" then "" else "." + part;
    HeadIs(Quot(number, Pow10(places)), IntegerDigits(DigitCount(number), places), negative, whole);
    TailIs(number, places);
    Associates(sign, whole, tail);
  }

  lemma Associates(a: string, b: string, c: string)
    ensures (a + b) + c == a + (b + c)
  {
  }

  lemma HeadIs(whole: nat, count: nat, negative: bool, digits: string)
    requires digits == Dec(whole, count)
    ensures Head(whole, count, negative) == (if negative then "-" else "") + digits
  {
  }

  lemma CanonicalParts(t: string, whole: string, part: string)
    requires t != "" && t[0] != '.' && t[|t| - 1] != '.' && (t[0] == '0' ==> |t| == 1 || t[1] == '.')
    requires whole == t[..PointOf(t)] && part == (if PointOf(t) < |t| then t[PointOf(t) + 1..] else "") && AllDigits(whole)
    ensures whole != "" && t == whole + if part == "" then "" else "." + part
    ensures whole[0] == '0' ==> |whole| == 1
  {
    hide AllDigits, PointOf;
    var p := PointOf(t);
    PointThere(t);
    PointOfNone(t);
    SplitAt(t, p);
    assert whole[0] == t[0];
    if p > 1 {
      assert whole[1] == t[1];
      NoPoint(whole, 1);
    }
  }

  lemma SplitAt(t: string, p: nat)
    requires p <= |t| && (p < |t| ==> t[p] == '.' && p + 1 < |t|)
    ensures t == t[..p] + if p < |t| then "." + t[p + 1..] else ""
  {
  }

  lemma NoPoint(s: string, i: nat)
    requires AllDigits(s) && i < |s|
    ensures s[i] != '.'
  {
  }

  lemma SignedText(s: string, t: string, negative: bool)
    requires t == Unsigned(s) && negative == (s != "" && s[0] == '-')
    ensures s == (if negative then "-" else "") + t
  {
  }

  lemma PointOfNone(s: string)
    ensures s != "" && s[0] != '.' ==> PointOf(s) > 0
  {
  }

  lemma TextCanonical(number: nat, places: nat, negative: bool)
    ensures Canonical(Text(number, places, negative))
  {
    hide Dec, DecValue, Pow10, Quot, DigitCount, IntegerDigits;
    var n := IntegerDigits(DigitCount(number), places);
    CountPositive(DigitCount(number), places);
    var whole, part := Dec(Quot(number, Pow10(places)), n), Dec(number, places);
    DigitCountIs(number);
    DecSplits(number, n, places);
    WideEnough(number, places);
    DecValueOf(number, n + places);
    DigitsInFront(whole, part, number);
    var s, t := Text(number, places, negative), whole + Tail(number, places);
    assert s == (if negative then "-" else "") + t;
    assert Unsigned(s) == t;
    assert t[|t| - 1] == if places > 0 then part[places - 1] else whole[n - 1];
  }

  lemma CountPositive(digits: nat, places: nat)
    ensures IntegerDigits(digits, places) > 0
  {
  }

  lemma WideEnough(number: nat, places: nat)
    ensures number < Pow10(IntegerDigits(DigitCount(number), places) + places)
  {
    hide Pow10, DigitCount;
    DigitCountIs(number);
    Pow10Grows(DigitCount(number), IntegerDigits(DigitCount(number), places) + places);
  }

  /** The text is the only canonical one that reads back as the number, its sign and its places. */
  lemma OnlyText(s: string, number: nat, places: nat, negative: bool)
    ensures s == Text(number, places, negative) <==> Canonical(s) && Read(s) == Decimal(negative, number, places)
  {
    hide Text, Canonical, Read;
    ReadsBack(number, places, negative);
    TextCanonical(number, places, negative);
    if Canonical(s) && Read(s) == Decimal(negative, number, places) {
      CanonicalText(s, number, places, negative);
    }
  }

  lemma Examples()
    ensures Text(5, 2, false) == "0.05" && Text(12345, 2, true) == "-123.45" && Text(0, 0, false) == "0"
  {
    hide Text;
    ReadFive();
    ReadMore();
    ReadZero();
    OnlyText("0.05", 5, 2, false);
    OnlyText("-123.45", 12345, 2, true);
    OnlyText("0", 0, 0, false);
  }

  lemma Values()
    ensures DecValue("0") == 0 && DecValue("005") == 5 && DecValue("12345") == 12345
  {
    assert "0"[..0] == "" && "005"[..2] == "00" && "00"[..1] == "0";
    assert "12345"[..4] == "1234" && "1234"[..3] == "123" && "123"[..2] == "12" && "12"[..1] == "1" && "1"[..0] == "";
    assert DecValue("12") == 12 && DecValue("123") == 123;
  }

  lemma ReadFive()
    ensures Canonical("0.05") && Read("0.05") == Decimal(false, 5, 2)
  {
    hide DecValue, PointOf;
    PointIs("0", ".05");
    assert "0.05" == "0" + ".05" && "0.05"[..1] == "0" && "0.05"[2..] == "05";
    assert "0" + "05" == "005";
    assert DecValue("005") == 5 by { Values(); }
  }

  lemma ReadMore()
    ensures Canonical("-123.45") && Read("-123.45") == Decimal(true, 12345, 2)
  {
    hide DecValue, PointOf;
    PointIs("123", ".45");
    assert "-123.45"[1..] == "123" + ".45" && ("123" + ".45")[..3] == "123" && ("123" + ".45")[4..] == "45";
    assert "123" + "45" == "12345";
    assert DecValue("12345") == 12345 by { Values(); }
  }

  lemma ReadZero()
    ensures Canonical("0") && Read("0") == Decimal(false, 0, 0)
  {
    PointIs("0", "");
    assert "0" + "" == "0" && "0"[..1] == "0";
    assert DecValue("0") == 0 by { Values(); }
  }

  // ---------------------------------------------------------------- writing

  lemma KnownPower()
    ensures NumberLimit <= Pow10(20)
  {
    assert Pow10(8) == 100_000_000;
    assert Pow10(16) == 10_000_000_000_000_000;
  }

  /** The upper bound of a number in the table of the powers of ten below 2^64. */
  method CountDigits(number: nat) returns (n: nat)
    requires number < NumberLimit
    ensures n == DigitCount(number) <= 20
  {
    hide Pow10, DigitCount;
    KnownPower();
    assert Pow10(0) == 1 by { FirstPower(); }
    n := 0;
    while n < 20 && Pow10(n) <= number
      invariant 0 <= n <= 20 && (n > 0 ==> Pow10(n - 1) <= number)
    {
      n := n + 1;
    }
    DigitCountUnique(number, n);
  }

  lemma FirstPower()
    ensures Pow10(0) == 1
  {
  }

  /** The digits still to come, in front of those that stand in the buffer. */
  ghost predicate Writing(buffer: seq<char>, at: nat, count: nat, number: nat, left: nat, rest: nat) {
    && left <= count && at + count <= |buffer|
    && Dec(number, count) == Dec(rest, left) + buffer[at + left..at + count]
    && rest == Quot(number, Pow10(count - left))
  }

  lemma WriteStart(buffer: seq<char>, at: nat, count: nat, number: nat)
    requires at + count <= |buffer|
    ensures Writing(buffer, at, count, number, count, number)
  {
    assert Quot(number, 1) == number;
    assert buffer[at + count..at + count] == [];
  }

  lemma WriteOne(buffer: seq<char>, at: nat, count: nat, number: nat, left: nat, rest: nat, after: seq<char>)
    requires Writing(buffer, at, count, number, left, rest) && left > 0
    requires after == buffer[at + left - 1 := DigitChar(rest % 10)]
    ensures Writing(after, at, count, number, left - 1, rest / 10)
  {
    hide Quot;
    assert after[at + left - 1..at + count] == [DigitChar(rest % 10)] + buffer[at + left..at + count];
    DivideByTen(number, Pow10(count - left));
  }

  lemma DivideByTen(x: nat, p: nat)
    requires p > 0
    ensures Quot(x, 10 * p) == Quot(x, p) / 10
  {
    hide Quot, Rem;
    var q, r := Quot(x, p), Rem(x, p);
    QuotRem(x, p);
    var h, l := q / 10, q % 10;
    assert (10 * h + l) * p + r == h * (10 * p) + (l * p + r);
    MulMonotone(l, 9, p);
    QuotRemUnique(x, h, l * p + r, 10 * p);
  }

  /** The loops behind the point: digits as long as there are any, and then zeros. */
  method WriteFraction(buffer: array<char>, at: nat, count: nat, number: nat) returns (rest: nat)
    requires at + count <= buffer.Length
    modifies buffer
    ensures buffer[..] == old(buffer[..at]) + Dec(number, count) + old(buffer[at + count..])
    ensures rest == Quot(number, Pow10(count))
  {
    hide Dec, Quot, Pow10, Writing;
    rest := number;
    var left: nat := count;
    WriteStart(buffer[..], at, count, number);
    while rest > 0 && left > 0
      invariant left <= count && Writing(buffer[..], at, count, number, left, rest)
      invariant buffer[..at] == old(buffer[..at]) && buffer[at + count..] == old(buffer[at + count..])
    {
      ghost var before := buffer[..];
      buffer[at + left - 1] := DigitChar(rest % 10);
      WriteOne(before, at, count, number, left, rest, buffer[..]);
      rest := rest / 10;
      left := left - 1;
    }
    while left > 0
      invariant left <= count && Writing(buffer[..], at, count, number, left, rest) && (left > 0 ==> rest == 0)
      invariant buffer[..at] == old(buffer[..at]) && buffer[at + count..] == old(buffer[at + count..])
    {
      ghost var before := buffer[..];
      buffer[at + left - 1] := '0';
      WriteOne(before, at, count, number, left, rest, buffer[..]);
      left := left - 1;
    }
    WriteDone(buffer[..], at, count, number, rest);
  }

  lemma WriteDone(buffer: seq<char>, at: nat, count: nat, number: nat, rest: nat)
    requires Writing(buffer, at, count, number, 0, rest)
    ensures at + count <= |buffer| && buffer == buffer[..at] + Dec(number, count) + buffer[at + count..]
    ensures rest == Quot(number, Pow10(count))
  {
    hide Quot, Pow10, Dec;
    NoDigit(rest);
    assert "" + buffer[at..at + count] == buffer[at..at + count];
  }

  lemma NoDigit(x: nat)
    ensures Dec(x, 0) == ""
  {
  }

  /** The loop in front of the point. */
  method WriteInteger(buffer: array<char>, at: nat, count: nat, number: nat)
    requires at + count <= buffer.Length
    modifies buffer
    ensures buffer[..] == old(buffer[..at]) + Dec(number, count) + old(buffer[at + count..])
  {
    hide Dec, Quot, Pow10, Writing;
    var rest: nat, left: nat := number, count;
    WriteStart(buffer[..], at, count, number);
    while left > 0
      invariant left <= count && Writing(buffer[..], at, count, number, left, rest)
      invariant buffer[..at] == old(buffer[..at]) && buffer[at + count..] == old(buffer[at + count..])
    {
      ghost var before := buffer[..];
      buffer[at + left - 1] := DigitChar(rest % 10);
      WriteOne(before, at, count, number, left, rest, buffer[..]);
      rest := rest / 10;
      left := left - 1;
    }
    WriteDone(buffer[..], at, count, number, rest);
  }

  /** The point and what is behind it. */
  method WriteTail(buffer: array<char>, at: nat, places: nat, number: nat) returns (rest: nat)
    requires at + |Tail(number, places)| <= buffer.Length
    modifies buffer
    ensures buffer[..] == old(buffer[..at]) + Tail(number, places) + old(buffer[at + |Tail(number, places)|..])
    ensures rest == Quot(number, Pow10(places))
  {
    hide Dec, Quot, Pow10, Tail;
    rest := number;
    NoPlaces(number);
    TailIs(number, places);
    ghost var before := buffer[..];
    if places > 0 {
      rest := WriteFraction(buffer, at + 1, places, number);
      buffer[at] := '.';
      PointWritten(before, buffer[..], at, Dec(number, places));
    }
  }

  lemma TailIs(number: nat, places: nat)
    ensures Tail(number, places) == if places > 0 then "." + Dec(number, places) else ""
  {
  }

  lemma PointWritten(before: seq<char>, after: seq<char>, at: nat, part: string)
    requires at + 1 + |part| <= |before| == |after|
    requires after == (before[..at + 1] + part + before[at + 1 + |part|..])[at := '.']
    ensures after == before[..at] + ("." + part) + before[at + |"." + part|..]
  {
  }

  /** The digits in front of the point, and the sign. */
  method WriteHead(buffer: array<char>, at: nat, count: nat, number: nat, negative: bool)
    requires at + |Head(number, count, negative)| <= buffer.Length
    modifies buffer
    ensures buffer[..] == old(buffer[..at]) + Head(number, count, negative) + old(buffer[at + |Head(number, count, negative)|..])
  {
    hide Dec;
    WriteInteger(buffer, if negative then at + 1 else at, count, number);
    if negative {
      buffer[at] := '-';
    }
  }

  /** Where the parts of the text go. */
  method Layout(number: nat, places: nat, negative: bool) returns (needed: nat, point: nat, afterMinus: nat)
    requires number < NumberLimit
    ensures afterMinus == (if negative then 1 else 0) && point - afterMinus == IntegerDigits(DigitCount(number), places)
    ensures needed == point + if places > 0 then places + 1 else 0
  {
    hide DigitCount;
    var digits := CountDigits(number);
    needed := if digits > places then digits else places;
    point := digits;
    if places >= digits {
      needed, point := needed + 1, 1;
    } else {
      point := point - places;
    }
    if places > 0 {
      needed := needed + 1;
    }
    afterMinus := 0;
    if negative {
      needed, afterMinus, point := needed + 1, afterMinus + 1, point + 1;
    }
  }

  /** The text, from its end. */
  method WriteText(buffer: array<char>, begin: nat, count: nat, number: nat, places: nat, negative: bool)
    requires begin + |Head(Quot(number, Pow10(places)), count, negative)| + |Tail(number, places)| <= buffer.Length
    modifies buffer
    ensures var head, tail := Head(Quot(number, Pow10(places)), count, negative), Tail(number, places);
            buffer[..] == old(buffer[..begin]) + (head + tail) + old(buffer[begin + |head| + |tail|..])
  {
    hide Dec, Quot, Pow10, DigitCount, Head, Tail;
    ghost var before, whole := buffer[..], Quot(number, Pow10(places));
    Lengths(number, places, whole, count, negative);
    var rest := WriteTail(buffer, begin + count + (if negative then 1 else 0), places, number);
    ghost var between := buffer[..];
    WriteHead(buffer, begin, count, rest, negative);
    Joined(before, between, buffer[..], begin, Head(whole, count, negative), Tail(number, places));
  }

  /** write_decimal: the end of the text, which is written if it is wanted and fits, and nothing else. */
  method WriteDecimal(buffer: array<char>, begin: nat, end: nat, dryRun: bool, number: nat, places: nat, negative: bool) returns (ret: nat)
    requires begin <= end <= buffer.Length && number < NumberLimit && places < 256
    modifies buffer
    ensures ret == begin + |Text(number, places, negative)|
    ensures dryRun || ret > end ==> buffer[..] == old(buffer[..])
    ensures !dryRun && ret <= end ==> buffer[..] == old(buffer[..begin]) + Text(number, places, negative) + old(buffer[ret..])
  {
    hide Dec, Quot, Pow10, DigitCount, Head, Tail, Text, IntegerDigits;
    var needed, point, afterMinus := Layout(number, places, negative);
    ghost var whole := Quot(number, Pow10(places));
    Lengths(number, places, whole, point - afterMinus, negative);
    TextIs(number, places, negative);
    ret := begin + needed;
    if dryRun || ret > end {
      return;
    }
    WriteText(buffer, begin, point - afterMinus, number, places, negative);
  }

  lemma TextIs(number: nat, places: nat, negative: bool)
    ensures Text(number, places, negative)
         == Head(Quot(number, Pow10(places)), IntegerDigits(DigitCount(number), places), negative) + Tail(number, places)
  {
  }

  lemma Joined(b0: seq<char>, b1: seq<char>, b2: seq<char>, begin: nat, head: string, tail: string)
    requires begin + |head| + |tail| <= |b0| == |b1|
    requires b1 == b0[..begin + |head|] + tail + b0[begin + |head| + |tail|..]
    requires b2 == b1[..begin] + head + b1[begin + |head|..]
    ensures b2 == b0[..begin] + (head + tail) + b0[begin + |head| + |tail|..]
  {
    assert b1[..begin] == b0[..begin];
    assert b1[begin + |head|..] == tail + b0[begin + |head| + |tail|..];
  }

  lemma Lengths(number: nat, places: nat, whole: nat, count: nat, negative: bool)
    ensures |Tail(number, places)| == if places > 0 then places + 1 else 0
    ensures |Head(whole, count, negative)| == count + if negative then 1 else 0
  {
  }

  lemma NoPlaces(number: nat)
    ensures Quot(number, Pow10(0)) == number
  {
  }
}
