/** eosio::name: 64-bit names written with twelve base-32 characters and a thirteenth of four bits. */
module NameModel {
  import opened Base32
  import opened Bytes
  import opened Powers
  import opened Wrappers
  import opened Sequences

  const NameLimit: nat := 0x1_0000_0000_0000_0000

  datatype NameResult = Name(value: nat) | TooLong | BadCharacter | ThirteenthTooLarge

  /** The characters of the digits. */
  function Charmap(d: nat): (c: char)
    requires d < 32
  {
    ".12345abcdefghijklmnopqrstuvwxyz"[d]
  }

  /** char_to_value, and char_to_symbol of the tools, which gives every other character the value 0. */
  function CharToValue(c: char): (r: Option<nat>)
    ensures r.Some? ==> r.value < 32
  {
    if c == '.' then Some(0)
    else if '1' <= c <= '5' then Some(c as int - '1' as int + 1)
    else if 'a' <= c <= 'z' then Some(c as int - 'a' as int + 6)
    else None
  }

  function CharToSymbol(c: char): (r: nat)
    ensures r < 32
  {
    if 'a' <= c <= 'z' then c as int - 'a' as int + 6
    else if '1' <= c <= '5' then c as int - '1' as int + 1
    else 0
  }

  /** The table of characters: a dot, five digits and the letters. */
  lemma CharmapIs(d: nat)
    requires d < 32
    ensures Charmap(d) as int == if d == 0 then '.' as int else if d < 6 then '0' as int + d else 'a' as int + d - 6
  {
  }

  lemma CharmapValue(d: nat)
    requires d < 32
    ensures CharToValue(Charmap(d)) == Some(d) && CharToSymbol(Charmap(d)) == d
    ensures (Charmap(d) == '.' <==> d == 0) && Charmap(d) != '\0'
  {
    hide Charmap;
    CharmapIs(d);
  }

  lemma CharmapOrder(d: nat, e: nat)
    requires d < e < 32
    ensures Charmap(d) < Charmap(e)
  {
    hide Charmap;
    CharmapIs(d);
    CharmapIs(e);
  }

  lemma ValueCharmap(c: char)
    requires CharToValue(c).Some?
    ensures Charmap(CharToValue(c).value) == c && CharToSymbol(c) == CharToValue(c).value
  {
    hide Charmap;
    CharmapIs(CharToValue(c).value);
  }

  // ---------------------------------------------------------------- names as strings

  /** The thirteen digits of a name; the last has four bits and counts double. */
  ghost function NameDigits(v: nat): (ds: seq<nat>)
    ensures |ds| == 13 && IsDigits(ds)
  {
    Digits(2 * v, 13)
  }

  ghost function DigitChar(ds: seq<nat>, i: nat): (c: char)
    requires IsDigits(ds) && |ds| == 13 && i < 13
  {
    if i < 12 then Charmap(ds[i]) else Charmap(ds[12] / 2)
  }

  ghost function Chars(v: nat): (s: string)
    ensures |s| == 13
  {
    seq(13, i requires 0 <= i < 13 => DigitChar(NameDigits(v), i))
  }

  ghost function Trim(s: string): (r: string) {
    if s == "" || s[|s| - 1] != '.' then s else Trim(s[..|s| - 1])
  }

  /** A name as a string: its characters without the dots at the end. */
  ghost function ToString(v: nat): (s: string) {
    Trim(Chars(v))
  }

  /** The digits that a string stands for; `digit` tells the value of a character. */
  ghost function StrDigits(s: string, digit: char -> nat): (ds: seq<nat>)
    requires |s| <= 13
    ensures |ds| == 13
  {
    seq(13, i requires 0 <= i < 13 => if i >= |s| then 0 else if i < 12 then digit(s[i]) else 2 * (digit(s[12]) % 16))
  }

  function DigitOf(c: char): (d: nat)
    ensures d < 32
  {
    var r := CharToValue(c);
    if r.Some? then r.value else 0
  }

  ghost predicate Acceptable(s: string) {
    |s| <= 13 && (forall i | 0 <= i < |s| :: CharToValue(s[i]).Some?) && (|s| == 13 ==> DigitOf(s[12]) < 16)
  }

  /** The name of a string, if it has one. */
  ghost function NameOf(s: string): (r: Option<nat>) {
    if Acceptable(s) then Some(Value(StrDigits(s, DigitOf)) / 2) else None
  }

  // ---------------------------------------------------------------- facts about them

  lemma NameDigitsValue(v: nat)
    requires v < NameLimit
    ensures Value(NameDigits(v)) == 2 * v && NameDigits(v)[12] % 2 == 0
  {
    KnownPowers();
    ValueOfDigits(2 * v, 13);
  }

  /** Digits whose last one is even are those of one name. */
  lemma DigitsName(ds: seq<nat>)
    requires |ds| == 13 && IsDigits(ds) && ds[12] % 2 == 0
    ensures var v := Value(ds) / 2; v < NameLimit && NameDigits(v) == ds && Value(ds) == 2 * v
  {
    hide Value, Pow32, Digits;
    KnownPowers();
    DigitsOfValue(ds);
    EvenValue(ds);
  }

  lemma EvenValue(ds: seq<nat>)
    requires |ds| == 13 && ds[12] % 2 == 0
    ensures Value(ds) % 2 == 0
  {
  }

  lemma {:induction false} TrimParts(s: string)
    ensures |Trim(s)| <= |s| && Trim(s) == s[..|Trim(s)|]
    ensures forall i | |Trim(s)| <= i < |s| :: s[i] == '.'
    ensures Trim(s) != "" ==> Trim(s)[|Trim(s)| - 1] != '.'
  {
    if !(s == "" || s[|s| - 1] != '.') {
      var t := s[..|s| - 1];
      TrimParts(t);
      assert Trim(s) == Trim(t) && forall i | 0 <= i < |t| :: t[i] == s[i];
    }
  }

  /** The only way to cut dots off the end so that no dot is left there. */
  lemma TrimUnique(s: string, n: nat)
    requires n <= |s| && (forall i | n <= i < |s| :: s[i] == '.') && (n > 0 ==> s[n - 1] != '.')
    ensures Trim(s) == s[..n]
  {
    TrimParts(s);
    assert |Trim(s)| == n;
  }

  lemma CharsAre(v: nat, i: nat)
    requires v < NameLimit && i < 13
    ensures Chars(v)[i] == DigitChar(NameDigits(v), i)
    ensures Chars(v)[i] == '.' <==> NameDigits(v)[i] == 0
    ensures CharToValue(Chars(v)[i]) == Some(if i < 12 then NameDigits(v)[i] else NameDigits(v)[12] / 2)
    ensures CharToSymbol(Chars(v)[i]) == DigitOf(Chars(v)[i]) && Chars(v)[i] != '\0'
  {
    hide Charmap, Digits;
    NameDigitsValue(v);
    var ds := NameDigits(v);
    assert ds[i] < 32;
    CharmapValue(if i < 12 then ds[i] else ds[12] / 2);
  }

  /** The string constructor undoes to_string, for every name. */
  lemma RoundTrip(v: nat)
    requires v < NameLimit
    ensures NameOf(ToString(v)) == Some(v)
  {
    hide Charmap, Digits, Trim, Chars, Value;
    var s, t, ds := ToString(v), Chars(v), NameDigits(v);
    TrimParts(t);
    NameDigitsValue(v);
    forall i | 0 <= i < 13
      ensures i < |s| ==> s[i] == t[i] && CharToValue(s[i]).Some?
      ensures i >= |s| ==> ds[i] == 0
      ensures StrDigits(s, DigitOf)[i] == ds[i]
      ensures i == 12 && |s| == 13 ==> DigitOf(s[12]) < 16
    {
      CharsAre(v, i);
    }
    assert StrDigits(s, DigitOf) == ds;
  }

  lemma AcceptedDigits(s: string)
    requires Acceptable(s)
    ensures IsDigits(StrDigits(s, DigitOf)) && StrDigits(s, DigitOf)[12] % 2 == 0
  {
    StrDigitsAre(s, if |s| < 12 then |s| else 12);
  }

  lemma AcceptedChar(s: string, ds: seq<nat>, i: nat)
    requires Acceptable(s) && ds == StrDigits(s, DigitOf) && IsDigits(ds) && i < 13
    ensures DigitChar(ds, i) == if i < |s| then s[i] else '.'
  {
    hide Charmap, IsDigits;
    CharmapIs(0);
    if i < |s| {
      ValueCharmap(s[i]);
      assert DigitOf(s[i]) == if i < 12 then ds[i] else ds[12] / 2;
    }
  }

  lemma AcceptedIsWritten(s: string, v: nat)
    requires |s| <= 13 && NameOf(s) == Some(v)
    ensures v < NameLimit && Trim(s) == ToString(v)
  {
    hide Acceptable, Charmap, Digits, Trim, Chars, Value, StrDigits, NameDigits, DigitChar, IsDigits;
    var ds := StrDigits(s, DigitOf);
    AcceptedDigits(s);
    DigitsName(ds);
    TrimParts(s);
    var n := |Trim(s)|;
    forall i | 0 <= i < 13
      ensures Chars(v)[i] == if i < |s| then s[i] else '.'
    {
      CharsAre(v, i);
      AcceptedChar(s, ds, i);
    }
    TrimUnique(Chars(v), n);
    assert Chars(v)[..n] == s[..n];
  }

  lemma WrittenIsAcceptable(s: string, v: nat)
    requires |s| <= 13 && v < NameLimit && Trim(s) == ToString(v)
    ensures Acceptable(s)
  {
    hide Charmap, Digits, Trim, Chars, Value;
    TrimParts(s);
    TrimParts(Chars(v));
    NameDigitsValue(v);
    forall i | 0 <= i < |s|
      ensures CharToValue(s[i]).Some? && (i == 12 ==> DigitOf(s[i]) < 16)
    {
      CharsAre(v, i);
      assert i < |Trim(s)| ==> s[i] == Trim(s)[i] == Chars(v)[i];
    }
  }

  /** A string is accepted exactly if it is short enough and, without the dots at its end, it is the string of a name, and this name is the result. */
  lemma AcceptsExactly(s: string, v: nat)
    requires v < NameLimit
    ensures NameOf(s) == Some(v) <==> |s| <= 13 && Trim(s) == ToString(v)
  {
    hide Trim, ToString, StrDigits, Value;
    if NameOf(s) == Some(v) {
      AcceptedIsWritten(s, v);
    }
    if |s| <= 13 && Trim(s) == ToString(v) {
      WrittenIsAcceptable(s, v);
      var w := NameOf(s).value;
      AcceptedIsWritten(s, w);
      RoundTrip(v);
      RoundTrip(w);
    }
  }

  /** Names of the unit tests: a dot at the end changes nothing. */
  lemma Examples()
    ensures NameOf("eosio") == Some(6138663577826885632)
    ensures NameOf("123.") == NameOf("123") == Some(614178399182651392)
  {
    hide Value, Pow32;
    KnownPowers();
    assert StrDigits("eosio", DigitOf) == [10, 20, 24, 14, 20] + Zeros(8);
    assert StrDigits("123", DigitOf) == [1, 2, 3] + Zeros(10);
    assert "123."[3] == '.' && DigitOf('.') == 0;
    assert StrDigits("123.", DigitOf) == StrDigits("123", DigitOf);
    ValueOfConcat([10, 20, 24, 14, 20], Zeros(8));
    ValueOfConcat([1, 2, 3], Zeros(10));
    ValueOfZeros(8);
    ValueOfZeros(10);
    FewDigits();
  }

  lemma FewDigits()
    ensures Value([10, 20, 24, 14, 20]) == 11166164 && Value([1, 2, 3]) == 1091
    ensures Pow32(8) == 0x100_0000_0000 && Pow32(10) == 0x4_0000_0000_0000
  {
    assert [10, 20, 24, 14, 20][..4] == [10, 20, 24, 14] && [10, 20, 24, 14][..3] == [10, 20, 24];
    assert [10, 20, 24][..2] == [10, 20] && [10, 20][..1] == [10];
    assert [1, 2, 3][..2] == [1, 2] && [1, 2][..1] == [1];
    OneDigit(10);
    OneDigit(1);
    assert Pow32(4) == 0x10_0000;
  }

  // ---------------------------------------------------------------- the order of names

  /** The order of std::string. */
  ghost predicate StringLess(s: string, t: string) {
    exists i: nat :: DiffersAt(s, t, i)
  }

  ghost predicate DiffersAt(s: string, t: string, i: nat) {
    i <= |s| && i < |t| && s[..i] == t[..i] && (i == |s| || s[i] < t[i])
  }

  lemma StringLessAsymmetric(s: string, t: string)
    requires StringLess(s, t)
    ensures !StringLess(t, s) && s != t
  {
    var i: nat :| DiffersAt(s, t, i);
    assert forall j | 0 <= j < i :: s[j] == s[..i][j] == t[..i][j];
    forall j: nat
      ensures !DiffersAt(t, s, j)
    {
      if i < j <= |s| && j <= |t| {
        assert s[..j][i] == s[i] && t[..j][i] == t[i];
      }
    }
  }

  lemma SmallerIsLess(a: nat, b: nat)
    requires a < b < NameLimit
    ensures StringLess(ToString(a), ToString(b))
  {
    hide Charmap, Digits, Trim, Chars, Value, IsDigits;
    var x, y := NameDigits(a), NameDigits(b);
    NameDigitsValue(a);
    NameDigitsValue(b);
    var k := FirstDifference(x, y, 0);
    if y[k] < x[k] {
      DigitOrder(y, x, k);
    }
    forall i | 0 <= i < 13
      ensures i < k ==> Chars(a)[i] == Chars(b)[i]
      ensures i == k ==> Chars(a)[i] < Chars(b)[i] && Chars(b)[i] != '.'
    {
      CharsAre(a, i);
      CharsAre(b, i);
      assert i < k ==> x[i] == x[..k][i] == y[..k][i] == y[i];
      DigitCharOrder(x, y, i);
    }
    TrimmedLess(Chars(a), Chars(b), k);
  }

  lemma DigitCharOrder(x: seq<nat>, y: seq<nat>, i: nat)
    requires IsDigits(x) && IsDigits(y) && |x| == |y| == 13 && i < 13 && x[12] % 2 == 0 && y[12] % 2 == 0
    ensures x[i] < y[i] ==> DigitChar(x, i) < DigitChar(y, i)
    ensures x[i] == y[i] ==> DigitChar(x, i) == DigitChar(y, i)
  {
    hide Charmap;
    if x[i] < y[i] {
      if i < 12 {
        CharmapOrder(x[i], y[i]);
      } else {
        CharmapOrder(x[12] / 2, y[12] / 2);
      }
    }
  }

  lemma TrimmedLess(s: string, t: string, k: nat)
    requires |s| == |t| && k < |s| && (forall i | 0 <= i < k :: s[i] == t[i]) && s[k] < t[k] && t[k] != '.'
    ensures StringLess(Trim(s), Trim(t))
  {
    hide Trim;
    TrimParts(s);
    TrimParts(t);
    assert DiffersAt(Trim(s), Trim(t), if |Trim(s)| <= k then |Trim(s)| else k);
  }

  /** The numeric order of names is the order of their strings. */
  lemma NameOrder(a: nat, b: nat)
    requires a < NameLimit && b < NameLimit
    ensures a < b <==> StringLess(ToString(a), ToString(b))
  {
    hide ToString;
    if a < b {
      SmallerIsLess(a, b);
    } else if b < a {
      SmallerIsLess(b, a);
      StringLessAsymmetric(ToString(b), ToString(a));
    } else if StringLess(ToString(a), ToString(b)) {
      StringLessAsymmetric(ToString(a), ToString(b));
    }
  }

  // ---------------------------------------------------------------- the string constructor

  lemma {:induction false} Pow2Of32(k: nat)
    ensures Pow2(5 * k) == Pow32(k) && 2 * Pow2(4 + 5 * k) == Pow32(k + 1)
  {
    if k > 0 {
      Pow2Of32(k - 1);
      assert Pow2(5 * k) == 2 * (2 * (2 * (2 * (2 * Pow2(5 * k - 5)))));
    }
    Pow2Add(4, 5 * k);
    assert Pow2(4) == 16;
  }

  /** The digits of the first `n` characters, moved to the top of the name. */
  lemma ShiftedUp(ds: seq<nat>, n: nat)
    requires n <= 12 && |ds| == n && IsDigits(ds)
    ensures Value(ds) * Pow2(4 + 5 * (12 - n)) < NameLimit
    ensures 2 * (Value(ds) * Pow2(4 + 5 * (12 - n))) == Value(ds + Zeros(13 - n))
    ensures Value(ds) * Pow2(4 + 5 * (12 - n)) % 16 == 0
  {
    hide Value, Pow32, Pow2, Digits;
    var p := Pow2(4 + 5 * (12 - n));
    Pow2Of32(12 - n);
    ValueOfConcat(ds, Zeros(13 - n));
    ValueOfZeros(13 - n);
    KnownPowers();
    DigitsOfValue(ds + Zeros(13 - n));
    assert 2 * (Value(ds) * p) == Value(ds) * (2 * p);
    SixteenTimes(Value(ds), 12 - n);
  }

  lemma SixteenTimes(v: nat, k: nat)
    ensures v * Pow2(4 + 5 * k) % 16 == 0
  {
    Pow2Add(4, 5 * k);
    assert Pow2(4) == 16;
    var x := v * Pow2(5 * k);
    assert v * Pow2(4 + 5 * k) == 16 * x;
  }

  lemma HornerStep(ds: seq<nat>, d: nat)
    requires IsDigits(ds) && |ds| < 12 && d < 32
    ensures Value(ds + [d]) == 32 * Value(ds) + d < NameLimit
  {
    hide Digits;
    assert (ds + [d])[..|ds|] == ds;
    DigitsOfValue(ds + [d]);
    KnownPowers();
    FewerDigits(|ds| + 1, 12);
  }

  lemma {:induction false} FewerDigits(m: nat, n: nat)
    requires m <= n
    ensures Pow32(m) <= Pow32(n)
  {
    if m < n {
      FewerDigits(m, n - 1);
    }
  }

  ghost function PrefixDigits(str: string, n: nat): (ds: seq<nat>)
    requires n <= |str|
    ensures |ds| == n && IsDigits(ds)
  {
    seq(n, i requires 0 <= i < n => DigitOf(str[i]))
  }

  lemma NoDigits(str: string)
    ensures Value(PrefixDigits(str, 0)) == 0
  {
  }

  lemma OneDigitMore(str: string, i: nat)
    requires i < |str| && i < 12 && CharToValue(str[i]).Some?
    ensures var v := Value(PrefixDigits(str, i));
            v * 32 < NameLimit && Value(PrefixDigits(str, i + 1)) == v * 32 % NameLimit + CharToValue(str[i]).value
  {
    hide Value;
    HornerStep(PrefixDigits(str, i), DigitOf(str[i]));
    assert PrefixDigits(str, i + 1) == PrefixDigits(str, i) + [DigitOf(str[i])];
  }

  /** The loop of the string constructor. */
  method ReadDigits(str: string, n: nat) returns (ok: bool, value: nat)
    requires n <= |str| && n <= 12
    ensures ok <==> forall j | 0 <= j < n :: CharToValue(str[j]).Some?
    ensures ok ==> value == Value(PrefixDigits(str, n))
  {
    hide Value, PrefixDigits, CharToValue, DigitOf;
    NoDigits(str);
    ok, value := true, 0;
    var i := 0;
    while i < n
      invariant 0 <= i <= n && value == Value(PrefixDigits(str, i))
      invariant forall j | 0 <= j < i :: CharToValue(str[j]).Some?
    {
      var c := CharToValue(str[i]);
      if c.None? {
        return false, 0;
      }
      OneDigitMore(str, i);
      value := value * 32 % NameLimit + c.value;
      i := i + 1;
    }
  }

  /** The shift behind the loop, which loses nothing. */
  method ShiftUp(value: nat, n: nat, ghost ds: seq<nat>) returns (v: nat)
    requires n <= 12 && |ds| == n && IsDigits(ds) && value == Value(ds)
    ensures 2 * v == Value(ds + Zeros(13 - n)) && v % 16 == 0
  {
    hide Value, Pow2;
    ShiftedUp(ds, n);
    v := value * Pow2(4 + 5 * (12 - n)) % NameLimit;
  }

  /** name(std::string_view): refused when the string is too long or has a character that does not fit. */
  method FromString(str: string) returns (r: NameResult)
    ensures r.Name? <==> Acceptable(str)
    ensures r.Name? ==> NameOf(str) == Some(r.value) && r.value < NameLimit
    ensures r.TooLong? <==> |str| > 13
    ensures r.BadCharacter? <==> |str| <= 13 && exists i | 0 <= i < |str| :: CharToValue(str[i]).None?
  {
    hide Value, Digits, Pow2, Pow32, NameOf, StrDigits, Zeros, PrefixDigits, CharToValue, IsDigits;
    if |str| > 13 {
      return TooLong;
    }
    var n := if |str| < 12 then |str| else 12;
    var ok, value := ReadDigits(str, n);
    if !ok {
      return BadCharacter;
    }
    ghost var ds := PrefixDigits(str, n);
    value := ShiftUp(value, n, ds);
    if |str| == 13 {
      var v := CharToValue(str[12]);
      if v.None? {
        return BadCharacter;
      }
      if v.value > 15 {
        return ThirteenthTooLarge;
      }
      value := value + v.value;
      LastCharacter(ds, v.value);
    }
    StrDigitsAre(str, n);
    NameOfIs(str, value);
    r := Name(value);
  }

  lemma StrDigitsAre(str: string, n: nat)
    requires Acceptable(str) && n == if |str| < 12 then |str| else 12
    ensures StrDigits(str, DigitOf) == if |str| <= 12 then PrefixDigits(str, n) + Zeros(13 - n) else PrefixDigits(str, 12) + [2 * DigitOf(str[12])]
    ensures IsDigits(StrDigits(str, DigitOf)) && StrDigits(str, DigitOf)[12] % 2 == 0
  {
  }

  lemma NameOfIs(s: string, v: nat)
    requires Acceptable(s) && Value(StrDigits(s, DigitOf)) == 2 * v
    requires IsDigits(StrDigits(s, DigitOf)) && StrDigits(s, DigitOf)[12] % 2 == 0
    ensures NameOf(s) == Some(v) && v < NameLimit
  {
    hide Value, StrDigits, Digits;
    DigitsName(StrDigits(s, DigitOf));
  }

  lemma LastCharacter(ds: seq<nat>, d: nat)
    requires |ds| == 12
    ensures Value(ds + [2 * d]) == Value(ds + Zeros(1)) + 2 * d
  {
    assert (ds + [2 * d])[..12] == ds && (ds + Zeros(1))[..12] == ds;
  }

  // ---------------------------------------------------------------- from the top digit down

  const TopDigit: nat := 0x800_0000_0000_0000

  /** What is left of a name after `i` digits have been shifted out at the top. */
  ghost predicate Shifted(ds: seq<nat>, i: nat, v: nat) {
    |ds| == 13 && IsDigits(ds) && i <= 13 && v < NameLimit && Value(ds[i..] + Zeros(i)) == 2 * v
  }

  lemma ShiftStart(v: nat)
    requires v < NameLimit
    ensures Shifted(NameDigits(v), 0, v)
  {
    hide Value, Digits;
    NameDigitsValue(v);
    assert NameDigits(v)[0..] + Zeros(0) == NameDigits(v);
  }

  /** The top five bits are the next digit, and shifting goes on to the one after it. */
  lemma ShiftStep(ds: seq<nat>, i: nat, v: nat)
    requires Shifted(ds, i, v) && i < 13
    ensures v / TopDigit == ds[i] && Shifted(ds, i + 1, v * 32 % NameLimit)
  {
    hide Value, Pow32, Digits;
    var rest := ds[i + 1..] + Zeros(i);
    assert ds[i..] + Zeros(i) == [ds[i]] + rest;
    assert ds[i + 1..] + Zeros(i + 1) == rest + [0];
    ValueOfConcat([ds[i]], rest);
    OneDigit(ds[i]);
    ValueOfConcat(rest, [0]);
    OneDigit(0);
    DigitsOfValue(rest);
    KnownPowers();
    assert Pow32(1) == 32 by { OnePower(); }
    TopBits(ds[i], Value(rest), v);
  }

  lemma OnePower()
    ensures Pow32(1) == 32
  {
    assert Pow32(0) == 1;
  }

  lemma TopBits(d: nat, r: nat, v: nat)
    requires d < 32 && r < 0x1000_0000_0000_0000 && 2 * v == d * 0x1000_0000_0000_0000 + r
    ensures v / TopDigit == d && 2 * (v * 32 % NameLimit) == r * 32
  {
    var h := v - d * TopDigit;
    assert r == 2 * h;
    assert v * 32 == d * NameLimit + 32 * h;
  }

  lemma ShiftedZero(ds: seq<nat>, i: nat, v: nat)
    requires Shifted(ds, i, v)
    ensures v == 0 <==> forall j | i <= j < 13 :: ds[j] == 0
  {
    hide Value, Digits;
    var w := ds[i..] + Zeros(i);
    ZeroValue(w);
    if v == 0 {
      forall j | i <= j < 13
        ensures ds[j] == 0
      {
        assert ds[j] == w[j - i];
      }
    }
    assert (forall j | i <= j < 13 :: ds[j] == 0) ==> w == Zeros(13);
  }

  /** Where the string of a name ends. */
  lemma StringEnds(v: nat, n: nat)
    requires v < NameLimit && n <= 13
    requires (forall i | n <= i < 13 :: NameDigits(v)[i] == 0) && (n > 0 ==> NameDigits(v)[n - 1] != 0)
    ensures ToString(v) == Chars(v)[..n]
  {
    hide Digits, Charmap, Chars, Trim;
    forall i | 0 <= i < 13
      ensures Chars(v)[i] == '.' <==> NameDigits(v)[i] == 0
    {
      CharsAre(v, i);
    }
    TrimUnique(Chars(v), n);
  }

  /** length. */
  method Length(value: nat) returns (l: nat)
    requires value < NameLimit
    ensures l == |ToString(value)|
  {
    hide Digits, Value, Shifted, Chars, Trim, ToString;
    ghost var ds := NameDigits(value);
    ShiftStart(value);
    ShiftedZero(ds, 0, value);
    if value == 0 {
      StringEnds(value, 0);
      return 0;
    }
    l := 0;
    var i := 0;
    var v: nat := value;
    while i < 13
      invariant 0 <= i <= 13 && Shifted(ds, i, v) && l < 13
      invariant forall j | 0 <= j < i && ds[j] != 0 :: j <= l
      invariant ds[l] != 0 || forall j | 0 <= j < i :: ds[j] == 0
    {
      ShiftStep(ds, i, v);
      if v / TopDigit > 0 {
        l := i;
      }
      i, v := i + 1, v * 32 % NameLimit;
    }
    StringEnds(value, l + 1);
    l := l + 1;
  }

  /** write_as_string: the end of the string, which is written if it is wanted and fits. */
  method WriteAsString(value: nat, buffer: array<char>, begin: nat, end: nat, dryRun: bool) returns (ret: nat)
    requires value < NameLimit && begin <= end <= buffer.Length
    modifies buffer
    ensures ret == begin + |ToString(value)|
    ensures dryRun || ret > end ==> buffer[..] == old(buffer[..])
    ensures !dryRun && ret <= end ==> buffer[..] == old(buffer[..begin]) + ToString(value) + old(buffer[ret..])
  {
    hide Digits, Value, Shifted, Chars, Trim, ToString, Charmap;
    if dryRun || begin + 13 > end {
      var l := Length(value);
      if dryRun || begin + l > end {
        return begin + l;
      }
    }
    StringFits(value);
    ret := WriteDigits(value, buffer, begin);
  }

  lemma StringFits(v: nat)
    ensures |ToString(v)| <= 13
  {
    TrimParts(Chars(v));
  }

  /** The loop of write_as_string. */
  method WriteDigits(value: nat, buffer: array<char>, begin: nat) returns (ret: nat)
    requires value < NameLimit && begin + |ToString(value)| <= buffer.Length
    modifies buffer
    ensures ret == begin + |ToString(value)|
    ensures buffer[..] == old(buffer[..begin]) + ToString(value) + old(buffer[ret..])
  {
    hide Digits, Value, Shifted, Chars, Trim, ToString, Charmap;
    ghost var ds := NameDigits(value);
    ShiftStart(value);
    var i := 0;
    var v: nat := value;
    while i < 13
      invariant 0 <= i <= 13 && Shifted(ds, i, v) && (i > 0 ==> exists j :: i - 1 <= j < 13 && ds[j] != 0)
      invariant i <= |ToString(value)|
      invariant forall j | 0 <= j < buffer.Length ::
                  buffer[j] == if begin <= j < begin + i then Chars(value)[j - begin] else old(buffer[j])
    {
      ShiftedZero(ds, i, v);
      if v == 0 {
        break;
      }
      StringReaches(value, i);
      ShiftStep(ds, i, v);
      CharsAre(value, i);
      buffer[begin + i] := Charmap(if i == 12 then v / (2 * TopDigit) else v / TopDigit);
      i, v := i + 1, v * 32 % NameLimit;
    }
    ShiftedZero(ds, i, v);
    StringEnds(value, i);
    ret := begin + i;
  }

  /** The string goes at least past a digit behind which, or at which, there is one that is not zero. */
  lemma StringReaches(v: nat, i: nat)
    requires v < NameLimit && i < 13 && exists j :: i <= j < 13 && NameDigits(v)[j] != 0
    ensures i < |ToString(v)|
  {
    hide Digits, Charmap, Chars, Trim;
    var j :| i <= j < 13 && NameDigits(v)[j] != 0;
    CharsAre(v, j);
    TrimParts(Chars(v));
  }

  // ---------------------------------------------------------------- the tools' names

  /** The characters of a string that a C string stops before. */
  ghost function CString(str: string): (s: string)
  {
    if str == "" || str[0] == '\0' then "" else [str[0]] + CString(str[1..])
  }

  lemma {:induction false} CStringParts(str: string)
    ensures var s := CString(str);
            |s| <= |str| && s == str[..|s|] && (|s| < |str| ==> str[|s|] == '\0') && forall i | 0 <= i < |s| :: s[i] != '\0'
  {
    if !(str == "" || str[0] == '\0') {
      CStringParts(str[1..]);
    }
  }

  /** The character that a C string has at a position up to its end. */
  function CharAt(str: string, i: nat): (c: char) {
    if i < |str| then str[i] else '\0'
  }

  /** The digits that string_to_name takes from a string: other characters count as dots, and the thirteenth loses a bit. */
  ghost function SymbolDigits(s: string): (ds: seq<nat>)
    ensures |ds| == 13
  {
    StrDigits(if |s| <= 13 then s else s[..13], CharToSymbol)
  }

  lemma SymbolDigitsOk(s: string)
    ensures IsDigits(SymbolDigits(s)) && SymbolDigits(s)[12] % 2 == 0
  {
    forall i | 0 <= i < 13
      ensures SymbolDigits(s)[i] < 32
    {
      assert i < |s| ==> CharToSymbol(s[i]) < 32;
    }
  }

  /** Setting digit `i` in a name whose digits from there on are zero. */
  lemma DigitSet(ds: seq<nat>, i: nat)
    requires |ds| == 13 && IsDigits(ds) && i < 12
    ensures Value(ds[..i + 1] + Zeros(12 - i)) == Value(ds[..i] + Zeros(13 - i)) + 2 * (ds[i] * Pow2(59 - 5 * i))
    ensures Value(ds[..i + 1] + Zeros(12 - i)) < 2 * NameLimit
  {
    hide Value, Pow2, Pow32, Digits;
    var k := 12 - i;
    assert ds[..i + 1] == ds[..i] + [ds[i]];
    assert ds[..i + 1] + Zeros(k) == ds[..i] + ([ds[i]] + Zeros(k));
    assert ds[..i] + Zeros(k + 1) == ds[..i] + ([0] + Zeros(k));
    ValueOfConcat(ds[..i], [ds[i]] + Zeros(k));
    ValueOfConcat(ds[..i], [0] + Zeros(k));
    ValueOfConcat([ds[i]], Zeros(k));
    ValueOfConcat([0], Zeros(k));
    ValueOfZeros(k);
    OneDigit(ds[i]);
    OneDigit(0);
    Pow2Of32(k - 1);
    assert 59 - 5 * i == 4 + 5 * (k - 1);
    assert ds[i] * (2 * Pow2(59 - 5 * i)) == 2 * (ds[i] * Pow2(59 - 5 * i));
    DigitsOfValue(ds[..i + 1] + Zeros(k));
    KnownPowers();
  }

  /** string_to_name. */
  method StringToName(str: string) returns (name: nat)
    ensures name < NameLimit && NameDigits(name) == SymbolDigits(CString(str))
  {
    hide Value, Pow2, Digits, CharToSymbol, StrDigits, Zeros, SymbolDigits, NameDigits, IsDigits, CString;
    CStringParts(str);
    ghost var s := CString(str);
    ghost var ds := SymbolDigits(s);
    SymbolDigitsOk(s);
    name := 0;
    var i := 0;
    NothingSet(ds);
    while CharAt(str, i) != '\0' && i < 12
      invariant 0 <= i <= 12 && i <= |s| && 2 * name == Value(ds[..i] + Zeros(13 - i))
      decreases 12 - i
    {
      SymbolAt(s, i);
      DigitSet(ds, i);
      name := (name + CharToSymbol(str[i]) % 32 * Pow2(64 - 5 * (i + 1))) % NameLimit;
      i := i + 1;
    }
    if i == 12 {
      SymbolAt(s, 12);
      ThirteenthSet(ds);
      name := name + CharToSymbol(CharAt(str, 12)) % 16;
    } else {
      RestUnset(s, i);
    }
    DigitsName(ds);
  }

  lemma NothingSet(ds: seq<nat>)
    requires |ds| == 13
    ensures Value(ds[..0] + Zeros(13)) == 0
  {
    ValueOfZeros(13);
    assert ds[..0] + Zeros(13) == Zeros(13);
  }

  lemma SymbolAt(s: string, i: nat)
    requires i <= |s| && i <= 12
    ensures i < 12 && i < |s| ==> SymbolDigits(s)[i] == CharToSymbol(s[i]) % 32
    ensures i == 12 ==> SymbolDigits(s)[12] == 2 * (CharToSymbol(CharAt(s, 12)) % 16)
  {
  }

  lemma ThirteenthSet(ds: seq<nat>)
    requires |ds| == 13 && ds[12] < 32
    ensures Value(ds) == Value(ds[..12] + Zeros(1)) + ds[12]
  {
    assert (ds[..12] + Zeros(1))[..12] == ds[..12];
  }

  lemma RestUnset(s: string, i: nat)
    requires |s| == i < 12
    ensures SymbolDigits(s)[..i] + Zeros(13 - i) == SymbolDigits(s)
  {
    hide CharToSymbol;
  }

  /** The string that validate_name builds from the low digits up. */
  method WriteBackwards(value: nat) returns (str: string)
    requires value < NameLimit
    ensures str == Chars(value)
  {
    hide Charmap, Value;
    var str2 := new char[13](_ => '.');
    var tmp: nat := value;
    ghost var ds := NameDigits(value);
    var i := 0;
    while i <= 12
      invariant 0 <= i <= 13
      invariant i == 0 ==> tmp == value
      invariant i > 0 ==> ds[..13 - i] == Digits(tmp, 13 - i)
      invariant forall j | 13 - i <= j < 13 :: str2[j] == DigitChar(ds, j)
    {
      if i == 0 {
        LowestDigit(value);
        str2[12] := Charmap(tmp % 16);
        tmp := tmp / 16;
      } else {
        NextDigit(tmp, 13 - i);
        assert ds[12 - i] == ds[..13 - i][12 - i];
        str2[12 - i] := Charmap(tmp % 32);
        tmp := tmp / 32;
        assert ds[..12 - i] == ds[..13 - i][..12 - i];
      }
      i := i + 1;
    }
    str := str2[..];
  }

  lemma LowestDigit(v: nat)
    ensures NameDigits(v)[12] / 2 == v % 16 && NameDigits(v)[..12] == Digits(v / 16, 12)
  {
    assert 2 * v / 32 == v / 16;
  }

  lemma NextDigit(v: nat, n: nat)
    requires n > 0
    ensures Digits(v, n)[n - 1] == v % 32 && Digits(v, n)[..n - 1] == Digits(v / 32, n - 1)
  {
  }

  /** The trim of validate_name. */
  method TrimDots(s: string) returns (r: string)
    ensures r == Trim(s)
  {
    var i := |s| - 1;
    assert s[..i + 1] == s;
    while i >= 0
      invariant -1 <= i < |s| && Trim(s) == Trim(s[..i + 1])
    {
      if s[i] != '.' {
        break;
      }
      assert s[..i + 1][..i] == s[..i];
      i := i - 1;
    }
    r := s[..i + 1];
  }

  /** validate_name accepts exactly the strings of names, and those are the names that the tools and the library give them. */
  method ValidateName(str: string) returns (ok: bool, value: nat)
    ensures ok <==> exists v: nat :: v < NameLimit && ToString(v) == str
    ensures ok ==> value < NameLimit && ToString(value) == str && NameOf(str) == Some(value)
  {
    hide ToString, NameDigits, SymbolDigits, NameOf, Chars, CString, Trim;
    if |str| > 13 {
      NoLongName(str);
      return false, 0;
    }
    value := StringToName(str);
    var str2 := WriteBackwards(value);
    str2 := TrimDots(str2);
    ok := str2 == str;
    StringOf(value);
    if ok {
      RoundTrip(value);
    }
    forall v: nat | v < NameLimit && ToString(v) == str
      ensures v == value
    {
      SymbolsOfName(v);
      SameDigits(v, value);
    }
  }

  lemma StringOf(v: nat)
    ensures ToString(v) == Trim(Chars(v))
  {
  }

  lemma NoLongName(str: string)
    requires |str| > 13
    ensures forall v: nat | v < NameLimit :: ToString(v) != str
  {
    hide ToString;
    forall v: nat | v < NameLimit
      ensures ToString(v) != str
    {
      StringFits(v);
    }
  }

  lemma SameDigits(a: nat, b: nat)
    requires a < NameLimit && b < NameLimit && NameDigits(a) == NameDigits(b)
    ensures a == b
  {
    hide NameDigits, Value;
    NameDigitsValue(a);
    NameDigitsValue(b);
  }

  /** The tools read the string of a name as the library does. */
  lemma SymbolsOfName(v: nat)
    requires v < NameLimit
    ensures SymbolDigits(CString(ToString(v))) == NameDigits(v)
  {
    hide Charmap, Digits, Trim, Chars, Value, CString;
    var s, t, ds := ToString(v), Chars(v), NameDigits(v);
    TrimParts(t);
    NameDigitsValue(v);
    CStringParts(s);
    forall i | 0 <= i < 13
      ensures i < |s| ==> s[i] == t[i] && s[i] != '\0'
      ensures i >= |s| ==> ds[i] == 0
      ensures StrDigits(s, CharToSymbol)[i] == ds[i]
    {
      CharsAre(v, i);
    }
    assert CString(s) == s;
    assert SymbolDigits(s) == ds;
  }
}
