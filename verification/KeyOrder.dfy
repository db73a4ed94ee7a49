/** The promise of key_utils.hpp: keys order like values, and no key is a prefix of another. */
module KeyOrder {
  import opened Bytes
  import opened Powers
  import opened Ieee754
  import opened KeyEncoding

  /** The byte strings `x` and `y` tell apart exactly what the two comparisons tell apart. */
  ghost predicate Agrees(less: bool, greater: bool, x: bytes, y: bytes) {
    && (less ==> Below(x, y))
    && (greater ==> Below(y, x))
    && (!less && !greater ==> x == y)
  }

  /** Comparing by a first part, then by a second, is comparing the concatenations. */
  lemma AgreesConcat(l1: bool, g1: bool, x1: bytes, y1: bytes, l2: bool, g2: bool, x2: bytes, y2: bytes)
    requires Agrees(l1, g1, x1, y1) && Agrees(l2, g2, x2, y2)
    ensures Agrees(l1 || (!g1 && l2), g1 || (!l1 && g2), x1 + x2, y1 + y2)
  {
    if l1 {
      BelowMeaning(x1, y1);
      BelowExtends([], x1, y1, x2, y2);
    }
    if g1 {
      BelowMeaning(y1, x1);
      BelowExtends([], y1, x1, y2, x2);
    }
    assert [] + x1 + x2 == x1 + x2 && [] + y1 + y2 == y1 + y2;
    if !l1 && !g1 {
      assert x1 + x2 + [] == x1 + x2 && y1 + y2 + [] == y1 + y2;
      if l2 {
        BelowExtends(x1, x2, y2, [], []);
      }
      if g2 {
        BelowExtends(x1, y2, x2, [], []);
      }
    }
  }

  /** A number against a number, in `n` big-endian bytes. */
  lemma BigEndianAgrees(n: nat, x: nat, y: nat)
    requires x < Pow256(n) && y < Pow256(n)
    ensures Agrees(x < y, y < x, BigEndian(n, x), BigEndian(n, y))
  {
    if x < y {
      BigEndianOrder(n, x, y);
    } else if y < x {
      BigEndianOrder(n, y, x);
    }
  }

  /** The wrapped subtraction of the source is the plain distance from the smallest value. */
  lemma BiasedIsOffset(size: nat, signed: bool, i: int)
    requires MinOf(size, signed) <= i < MinOf(size, signed) + Pow256(size)
    ensures Biased(size, signed, i) == i - MinOf(size, signed)
  {
    var m, lo := Pow256(size), MinOf(size, signed);
    DivMod(i, m);
    DivMod(lo, m);
    var d := i % m - lo % m;
    assert d == (i - lo) - (i / m - lo / m) * m;
    DivModUnique(d, -(i / m - lo / m), i - lo, m);
  }

  // Floating point

  lemma SplitSign(f: Format, bits: nat)
    requires bits < 2 * f.SignBit()
    ensures Abs(f, bits) == if Negative(f, bits) then bits - f.SignBit() else bits
  {
    var s := f.SignBit();
    if Negative(f, bits) {
      DivModUnique(bits, 1, bits - s, s);
    } else {
      DivModUnique(bits, 0, bits, s);
    }
  }

  /** The bits of a negative and of a non-negative number, as magnitudes. */
  lemma FloatKeyForm(f: Format, bits: nat)
    requires bits < 2 * f.SignBit()
    ensures Negative(f, bits) && Abs(f, bits) > 0 ==> FloatToKey(f, bits) == f.SignBit() - 1 - Abs(f, bits)
    ensures !Negative(f, bits) || Abs(f, bits) == 0 ==> FloatToKey(f, bits) == f.SignBit() + Abs(f, bits)
  {
    SplitSign(f, bits);
  }

  ghost function Signed(f: Format, bits: nat): (r: int) {
    if Negative(f, bits) then -(Abs(f, bits) as int) else Abs(f, bits)
  }

  lemma MagnitudeAgrees(f: Format, a: nat, b: nat)
    ensures a < b <==> Magnitude(f, a) < Magnitude(f, b)
    ensures Magnitude(f, 0) == 0
  {
    if a < b {
      MagnitudeStrict(f, a, b);
    } else if b < a {
      MagnitudeStrict(f, b, a);
    }
  }

  /** Numbers compare like their signed magnitude bits. */
  lemma FloatLessForm(f: Format, a: nat, b: nat)
    requires f.Valid()
    requires a < 2 * f.SignBit() && b < 2 * f.SignBit()
    requires Decode(f, a) != NaN && Decode(f, b) != NaN
    ensures ValueLess(Decode(f, a), Decode(f, b)) <==> Signed(f, a) < Signed(f, b)
  {
    assert f.InfinityBits() > 0;
    MagnitudeAgrees(f, Abs(f, a), Abs(f, b));
    MagnitudeAgrees(f, Abs(f, b), Abs(f, a));
    MagnitudeAgrees(f, 0, Abs(f, a));
    MagnitudeAgrees(f, 0, Abs(f, b));
  }

  /** float_to_key orders its results like the numbers, with both zeros on one key. */
  lemma FloatToKeyOrder(f: Format, a: nat, b: nat)
    requires f.Valid()
    requires a < 2 * f.SignBit() && b < 2 * f.SignBit()
    requires Decode(f, a) != NaN && Decode(f, b) != NaN
    ensures FloatToKey(f, a) < FloatToKey(f, b) <==> ValueLess(Decode(f, a), Decode(f, b))
    ensures FloatToKey(f, a) < 2 * f.SignBit()
  {
    FloatKeyForm(f, a);
    FloatKeyForm(f, b);
    FloatLessForm(f, a, b);
  }

  lemma FloatWidth(double: bool)
    ensures 2 * FloatFormat(double).SignBit() == Pow256(if double then 8 else 4)
  {
    assert Pow256(4) == 0x1_0000_0000 && Pow256(8) == 0x1_0000_0000 * 0x1_0000_0000;
    assert Pow2(8) == 256;
    Pow2Add(8, 8);
    Pow2Add(16, 15);
    assert Pow2(15) == 0x8000;
    assert Pow2(31) == 0x8000_0000;
    Pow2Add(31, 31);
    Pow2Add(62, 1);
  }

  // Strings

  lemma {:induction false} StringAgrees(a: bytes, b: bytes)
    ensures Agrees(LexLess(a, b), LexLess(b, a), Escape(a) + [0, 0], Escape(b) + [0, 0])
  {
    var x, y := Escape(a) + [0, 0], Escape(b) + [0, 0];
    if a == [] && b == [] {
    } else if a == [] {
      EmptyStringFirst(b);
    } else if b == [] {
      EmptyStringFirst(a);
    } else {
      var ha, hb := Escape(a)[..|Escape(a)| - |Escape(a[1..])|], Escape(b)[..|Escape(b)| - |Escape(b[1..])|];
      assert Escape(a) == ha + Escape(a[1..]) && Escape(b) == hb + Escape(b[1..]);
      if a[0] < b[0] {
        BelowHead(x, y);
      } else if b[0] < a[0] {
        BelowHead(y, x);
      } else {
        StringAgrees(a[1..], b[1..]);
        AgreesConcat(false, false, ha, hb, LexLess(a[1..], b[1..]), LexLess(b[1..], a[1..]),
                     Escape(a[1..]) + [0, 0], Escape(b[1..]) + [0, 0]);
        assert x == ha + (Escape(a[1..]) + [0, 0]) && y == hb + (Escape(b[1..]) + [0, 0]);
      }
    }
  }

  lemma EmptyStringFirst(b: bytes)
    requires b != []
    ensures Below(Escape([]) + [0, 0], Escape(b) + [0, 0])
  {
    var x, y := Escape([]) + [0, 0], Escape(b) + [0, 0];
    if b[0] == 0 {
      assert y[0] == 0 && y[1] == 1;
      assert SplitsAt(x, y, 1);
    } else {
      BelowHead(x, y);
    }
  }

  // Variants

  /** to_key_varuint32 orders its results like the numbers. */
  lemma VarKeyOrder(x: nat, y: nat)
    requires x < y < 0x1_0000_0000
    ensures Below(VarKey(x), VarKey(y))
  {
    var n, m := VarBytes(x), VarBytes(y);
    assert Pow256(1) == 0x100 && Pow256(2) == 0x1_0000 && Pow256(3) == 0x100_0000 && Pow256(4) == 0x1_0000_0000;
    if VarHead(x) < VarHead(y) {
      BelowHead(VarKey(x), VarKey(y));
    } else {
      assert n == m && VarHead(x) == VarHead(y);
      var d := Pow256(n - 1);
      var q := if n == 5 then 0 else x / d;
      DivMod(x, d);
      DivMod(y, d);
      BigEndianLow(n - 1, x - q * d, q);
      BigEndianLow(n - 1, y - q * d, q);
      BigEndianOrder(n - 1, x - q * d, y - q * d);
      BelowExtends([VarHead(x)], BigEndian(n - 1, x), BigEndian(n - 1, y), [], []);
      assert [VarHead(x)] + BigEndian(n - 1, x) + [] == VarKey(x);
      assert [VarHead(x)] + BigEndian(n - 1, y) + [] == VarKey(y);
    }
  }

  lemma VarKeyAgrees(x: nat, y: nat)
    requires x < 0x1_0000_0000 && y < 0x1_0000_0000
    ensures Agrees(x < y, y < x, VarKey(x), VarKey(y))
  {
    if x < y {
      VarKeyOrder(x, y);
    } else if y < x {
      VarKeyOrder(y, x);
    }
  }

  // Optionals

  /** The absent value comes before every present one. */
  lemma NoneFirst(t: Type, v: Val)
    requires HasType(t, v)
    ensures Below(NoneKey(t), SomeKey(t, v))
  {
    var x, y := NoneKey(t), SomeKey(t, v);
    if OneByte(t) && Key(t, v)[0] == 0 {
      assert SplitsAt(x, y, 1);
    } else {
      BelowHead(x, y);
    }
  }

  lemma SomeAgrees(t: Type, a: Val, b: Val)
    requires HasType(t, a) && HasType(t, b)
    requires Agrees(Less(t, a, b), Less(t, b, a), Key(t, a), Key(t, b))
    ensures Agrees(Less(t, a, b), Less(t, b, a), SomeKey(t, a), SomeKey(t, b))
  {
    var l, g := Less(t, a, b), Less(t, b, a);
    if OneByte(t) {
      if l {
        OneByteBelow(Key(t, a), Key(t, b));
        BelowHead(SomeKey(t, a), SomeKey(t, b));
      }
      if g {
        OneByteBelow(Key(t, b), Key(t, a));
        BelowHead(SomeKey(t, b), SomeKey(t, a));
      }
    } else {
      AgreesConcat(false, false, [1], [1], l, g, Key(t, a), Key(t, b));
    }
  }

  lemma OneByteBelow(x: bytes, y: bytes)
    requires |x| == |y| == 1 && Below(x, y)
    ensures x[0] < y[0]
  {
  }

  // All types

  lemma IntegerAgrees(n: nat, s: bool, a: Val, b: Val)
    requires HasType(Integer(n, s), a) && HasType(Integer(n, s), b)
    ensures Agrees(a.i < b.i, b.i < a.i, Key(Integer(n, s), a), Key(Integer(n, s), b))
  {
    BiasedIsOffset(n, s, a.i);
    BiasedIsOffset(n, s, b.i);
    BigEndianAgrees(n, Biased(n, s, a.i), Biased(n, s, b.i));
  }

  lemma FloatAgrees(d: bool, a: Val, b: Val)
    requires HasType(Float(d), a) && HasType(Float(d), b)
    ensures Agrees(Less(Float(d), a, b), Less(Float(d), b, a), Key(Float(d), a), Key(Float(d), b))
  {
    var f := FloatFormat(d);
    FloatWidth(d);
    FloatToKeyOrder(f, a.bits, b.bits);
    FloatToKeyOrder(f, b.bits, a.bits);
    BigEndianAgrees(if d then 8 else 4, FloatToKey(f, a.bits), FloatToKey(f, b.bits));
  }

  /** The alternative decides first, then the value of the common alternative. */
  lemma VariantAgrees(ts: seq<Type>, a: Val, b: Val)
    requires HasType(Variant(ts), a) && HasType(Variant(ts), b)
    requires a.index == b.index ==>
               Agrees(Less(ts[a.index], a.v, b.v), Less(ts[a.index], b.v, a.v), Key(ts[a.index], a.v), Key(ts[a.index], b.v))
    ensures Agrees(Less(Variant(ts), a, b), Less(Variant(ts), b, a), Key(Variant(ts), a), Key(Variant(ts), b))
  {
    var x, y := Key(ts[a.index], a.v), Key(ts[b.index], b.v);
    var m, n := VarKey(a.index), VarKey(b.index);
    VarKeyAgrees(a.index, b.index);
    if a.index == b.index {
      AgreesConcat(false, false, m, n, Less(ts[a.index], a.v, b.v), Less(ts[a.index], b.v, a.v), x, y);
    } else {
      AgreesFirst(a.index < b.index, m, n, x, y);
    }
  }

  /** A first part that decides makes the rest irrelevant. */
  lemma AgreesFirst(less: bool, x1: bytes, y1: bytes, x2: bytes, y2: bytes)
    requires Agrees(less, !less, x1, y1)
    ensures Agrees(less, !less, x1 + x2, y1 + y2)
  {
    if less {
      BelowExtends([], x1, y1, x2, y2);
    } else {
      BelowExtends([], y1, x1, y2, x2);
    }
    assert [] + x1 + x2 == x1 + x2 && [] + y1 + y2 == y1 + y2;
  }

  lemma {:induction false} KeyAgrees(t: Type, a: Val, b: Val)
    requires HasType(t, a) && HasType(t, b)
    ensures Agrees(Less(t, a, b), Less(t, b, a), Key(t, a), Key(t, b))
    decreases t, 0, 0
  {
    match t
    case Bool =>
      if a.b != b.b {
        if b.b { BelowHead(Key(t, a), Key(t, b)); } else { BelowHead(Key(t, b), Key(t, a)); }
      }
    case Integer(n, s) =>
      IntegerAgrees(n, s, a, b);
    case Float(d) =>
      FloatAgrees(d, a, b);
    case String =>
      StringAgrees(a.s, b.s);
    case Optional(e) =>
      OptionalAgrees(e, a, b);
    case Tuple(ts) =>
      TupleAgrees(ts, a.vs, b.vs);
    case Array(e, _) =>
      ArrayAgrees(e, a.vs, b.vs);
    case Range(e) =>
      RangeAgrees(e, a.vs, b.vs);
    case Variant(ts) =>
      if a.index == b.index {
        KeyAgrees(ts[a.index], a.v, b.v);
      }
      VariantAgrees(ts, a, b);
  }

  lemma {:induction false} OptionalAgrees(e: Type, a: Val, b: Val)
    requires HasType(Optional(e), a) && HasType(Optional(e), b)
    ensures Agrees(Less(Optional(e), a, b), Less(Optional(e), b, a), Key(Optional(e), a), Key(Optional(e), b))
    decreases e, 1, 0
  {
    if a.SomeVal? && b.SomeVal? {
      KeyAgrees(e, a.v, b.v);
      SomeAgrees(e, a.v, b.v);
    } else if a.SomeVal? {
      NoneFirst(e, a.v);
    } else if b.SomeVal? {
      NoneFirst(e, b.v);
    }
  }

  lemma {:induction false} TupleAgrees(ts: seq<Type>, a: seq<Val>, b: seq<Val>)
    requires HaveTypes(ts, a) && HaveTypes(ts, b)
    ensures Agrees(TupleLess(ts, a, b), TupleLess(ts, b, a), TupleKey(ts, a), TupleKey(ts, b))
    decreases ts, 0, 0
  {
    if a != [] {
      KeyAgrees(ts[0], a[0], b[0]);
      TupleAgrees(ts[1..], a[1..], b[1..]);
      AgreesConcat(Less(ts[0], a[0], b[0]), Less(ts[0], b[0], a[0]), Key(ts[0], a[0]), Key(ts[0], b[0]),
                   TupleLess(ts[1..], a[1..], b[1..]), TupleLess(ts[1..], b[1..], a[1..]),
                   TupleKey(ts[1..], a[1..]), TupleKey(ts[1..], b[1..]));
    }
  }

  lemma {:induction false} ArrayAgrees(t: Type, a: seq<Val>, b: seq<Val>)
    requires AllHaveType(t, a) && AllHaveType(t, b) && |a| == |b|
    ensures Agrees(RangeLess(t, a, b), RangeLess(t, b, a), ArrayKey(t, a), ArrayKey(t, b))
    decreases t, 1, |a|
  {
    if a != [] {
      KeyAgrees(t, a[0], b[0]);
      ArrayAgrees(t, a[1..], b[1..]);
      AgreesConcat(Less(t, a[0], b[0]), Less(t, b[0], a[0]), Key(t, a[0]), Key(t, b[0]),
                   RangeLess(t, a[1..], b[1..]), RangeLess(t, b[1..], a[1..]),
                   ArrayKey(t, a[1..]), ArrayKey(t, b[1..]));
    }
  }

  lemma {:induction false} RangeAgrees(t: Type, a: seq<Val>, b: seq<Val>)
    requires AllHaveType(t, a) && AllHaveType(t, b)
    ensures Agrees(RangeLess(t, a, b), RangeLess(t, b, a), RangeKey(t, a), RangeKey(t, b))
    decreases t, 1, |a|
  {
    hide HasType, Key, SomeKey, NoneKey, Less;
    if a == [] && b == [] {
    } else if a == [] {
      EmptyRangeFirst(t, b);
    } else if b == [] {
      EmptyRangeFirst(t, a);
    } else {
      KeyAgrees(t, a[0], b[0]);
      SomeAgrees(t, a[0], b[0]);
      RangeAgrees(t, a[1..], b[1..]);
      AgreesConcat(Less(t, a[0], b[0]), Less(t, b[0], a[0]), SomeKey(t, a[0]), SomeKey(t, b[0]),
                   RangeLess(t, a[1..], b[1..]), RangeLess(t, b[1..], a[1..]),
                   RangeKey(t, a[1..]), RangeKey(t, b[1..]));
    }
  }

  lemma EmptyRangeFirst(t: Type, b: seq<Val>)
    requires b != [] && AllHaveType(t, b)
    ensures Below(NoneKey(t), RangeKey(t, b))
  {
    hide HasType, Key, SomeKey, NoneKey;
    NoneFirst(t, b[0]);
    BelowLonger(NoneKey(t), SomeKey(t, b[0]), RangeKey(t, b[1..]));
  }

  lemma BelowLonger(x: bytes, y: bytes, z: bytes)
    requires Below(x, y)
    ensures Below(x, y + z)
  {
    hide Below;
    assert [] + x + [] == x && [] + y + z == y + z;
    BelowExtends([], x, y, [], z);
  }

  /**
   * For every type and all its values: a key is lexicographically smaller exactly when its value
   * is, and a key is a prefix of another only when the two keys are equal, which happens exactly
   * when neither value is smaller.
   */
  lemma KeyOrderTheorem(t: Type, a: Val, b: Val)
    requires HasType(t, a) && HasType(t, b)
    ensures LexLess(Key(t, a), Key(t, b)) <==> Less(t, a, b)
    ensures Key(t, a) <= Key(t, b) <==> Key(t, a) == Key(t, b)
    ensures Key(t, a) == Key(t, b) <==> !Less(t, a, b) && !Less(t, b, a)
  {
    KeyAgrees(t, a, b);
    LexIrreflexive(Key(t, a));
    if Less(t, a, b) {
      BelowMeaning(Key(t, a), Key(t, b));
    }
    if Less(t, b, a) {
      BelowMeaning(Key(t, b), Key(t, a));
    }
  }
}
