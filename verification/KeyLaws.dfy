/**
 * What the keys of different types have in common: every key is put together from the keys of
 * integers of known size, and these are their big-endian numbers.
 */
module KeyLaws {
  import opened Bytes
  import opened Ieee754
  import opened Powers
  import opened KeyEncoding
  import opened KeyOrder

  // ---------------------------------------------------------------- arithmetic types

  /** The key of an integer is its distance from the smallest value, as a big-endian number of its size. */
  lemma IntegerKey(n: nat, s: bool, v: Val)
    requires HasType(Integer(n, s), v)
    ensures |Key(Integer(n, s), v)| == n && Number(Key(Integer(n, s), v)) == v.i - MinOf(n, s)
  {
    BiasedIsOffset(n, s, v.i);
    NumberOfBigEndian(n, v.i - MinOf(n, s));
  }

  /** Which integers a type holds: half of them are negative if it is signed. */
  lemma IntegerRange(n: nat, i: int)
    requires n > 0
    ensures HasType(Integer(n, false), IntVal(i)) <==> 0 <= i < Pow256(n)
    ensures HasType(Integer(n, true), IntVal(i)) <==> 0 <= 2 * i + Pow256(n) < 2 * Pow256(n)
  {
    assert Pow256(n) == 2 * (128 * Pow256(n - 1));
  }

  /** A byte is its own key. */
  lemma ByteKey(x: byte)
    ensures HasType(Byte(), IntVal(x)) && Key(Byte(), IntVal(x)) == [x]
  {
    BiasedIsOffset(1, false, x);
    assert Pow256(1) == 256;
    assert BigEndian(1, x) == BigEndian(0, x / 256) + [x % 256];
  }

  function Byte(): (t: Type) {
    Integer(1, false)
  }

  /** The key of a truth value is that of the byte 0 or 1. */
  lemma BoolKey(b: bool)
    ensures HasType(Byte(), IntVal(if b then 1 else 0))
    ensures Key(Bool, BoolVal(b)) == Key(Byte(), IntVal(if b then 1 else 0))
  {
    ByteKey(if b then 1 else 0);
  }

  /** The key of a floating-point number is that of the unsigned integer that float_to_key makes of its bits. */
  lemma FloatKey(d: bool, v: Val)
    requires HasType(Float(d), v)
    ensures var i := IntVal(FloatToKey(FloatFormat(d), v.bits));
            HasType(Integer(if d then 8 else 4, false), i) && Key(Float(d), v) == Key(Integer(if d then 8 else 4, false), i)
  {
    var n, x := if d then 8 else 4, FloatToKey(FloatFormat(d), v.bits);
    FloatWidth(d);
    assert x < 2 * FloatFormat(d).SignBit();
    BiasedIsOffset(n, false, x);
  }

  // ---------------------------------------------------------------- optionals, strings and ranges

  /** Of a type that does not fit into a byte, a present value is a pair of true and the value. */
  lemma SomeKeyIsPair(e: Type, v: Val)
    requires HasType(e, v) && !OneByte(e)
    ensures HasType(Tuple([Bool, e]), ListVal([BoolVal(true), v]))
    ensures Key(Optional(e), SomeVal(v)) == Key(Tuple([Bool, e]), ListVal([BoolVal(true), v]))
  {
    PairKey(Bool, e, BoolVal(true), v);
  }

  /** And an absent one is false alone. */
  lemma NoneKeyIsFalse(e: Type)
    requires !OneByte(e)
    ensures Key(Optional(e), NoneVal) == Key(Bool, BoolVal(false))
  {
  }

  /** Of a type that fits, a present value is a character of a string, and an absent one the end of the string. */
  lemma OneByteOptionalKey(e: Type, v: Val)
    requires OneByte(e) && HasType(e, v)
    ensures Key(Optional(e), SomeVal(v)) + Key(Optional(e), NoneVal) == Key(String, StringVal(Key(e, v)))
    ensures Key(Optional(e), NoneVal) == Key(String, StringVal([]))
  {
    var k := Key(e, v);
    assert Escape([]) == [];
    assert k[1..] == [];
    assert Escape(k) == (if k[0] == 0 then [0, 1] else [k[0]]) + Escape(k[1..]);
  }

  /** The key of a pair is the key of the first and then that of the second. */
  lemma PairKey(t: Type, u: Type, a: Val, b: Val)
    requires HasType(t, a) && HasType(u, b)
    ensures HasType(Tuple([t, u]), ListVal([a, b]))
    ensures Key(Tuple([t, u]), ListVal([a, b])) == Key(t, a) + Key(u, b)
  {
    var ts, vs := [t, u], [a, b];
    assert ts[1..] == [u] && vs[1..] == [b];
    assert [u][1..] == [] && [b][1..] == [];
    assert HaveTypes([], []);
    assert HaveTypes([u], [b]);
    assert HaveTypes(ts, vs);
    assert TupleKey([], []) == [];
    assert TupleKey([u], [b]) == Key(u, b) + TupleKey([], []);
    assert TupleKey(ts, vs) == Key(t, a) + TupleKey([u], [b]);
  }

  /** The characters of a string as integers. */
  function Characters(s: bytes): (vs: seq<Val>)
    ensures |vs| == |s|
  {
    if s == [] then [] else [IntVal(s[0])] + Characters(s[1..])
  }

  lemma {:induction false} CharactersRange(s: bytes)
    ensures AllHaveType(Byte(), Characters(s)) && RangeKey(Byte(), Characters(s)) == Escape(s) + [0, 0]
  {
    if s != [] {
      ByteKey(s[0]);
      CharactersRange(s[1..]);
      assert Characters(s)[1..] == Characters(s[1..]);
      assert RangeKey(Byte(), Characters(s)) == SomeKey(Byte(), IntVal(s[0])) + RangeKey(Byte(), Characters(s[1..]));
      assert SomeKey(Byte(), IntVal(s[0])) == if s[0] == 0 then [0, 1] else [s[0]];
    }
  }

  /** The key of a string is that of its characters as a range. */
  lemma StringKey(s: bytes)
    ensures HasType(Range(Byte()), ListVal(Characters(s)))
    ensures Key(String, StringVal(s)) == Key(Range(Byte()), ListVal(Characters(s)))
  {
    CharactersRange(s);
  }

  /** Every element as a present optional, and an absent one behind them. */
  function Ended(vs: seq<Val>): (os: seq<Val>)
    ensures |os| == |vs| + 1
  {
    if vs == [] then [NoneVal] else [SomeVal(vs[0])] + Ended(vs[1..])
  }

  lemma {:induction false} EndedArray(e: Type, vs: seq<Val>)
    requires AllHaveType(e, vs)
    ensures AllHaveType(Optional(e), Ended(vs)) && ArrayKey(Optional(e), Ended(vs)) == RangeKey(e, vs)
  {
    if vs == [] {
      assert Ended(vs) == [NoneVal] && [NoneVal][1..] == [];
      assert AllHaveType(Optional(e), []) && HasType(Optional(e), NoneVal);
      assert ArrayKey(Optional(e), []) == [];
    } else {
      EndedArray(e, vs[1..]);
      assert Ended(vs)[1..] == Ended(vs[1..]);
    }
  }

  /** The key of a range is that of the array of its elements as optionals, ended by an absent one. */
  lemma RangeKeyIsArray(e: Type, vs: seq<Val>)
    requires HasType(Range(e), ListVal(vs))
    ensures HasType(Array(Optional(e), |vs| + 1), ListVal(Ended(vs)))
    ensures Key(Range(e), ListVal(vs)) == Key(Array(Optional(e), |vs| + 1), ListVal(Ended(vs)))
  {
    EndedArray(e, vs);
  }

  // ---------------------------------------------------------------- products and sums

  /** An array's key is the keys of its parts, one behind the other, down to single elements. */
  lemma {:induction false} ArrayKeyConcat(e: Type, a: seq<Val>, b: seq<Val>)
    requires AllHaveType(e, a) && AllHaveType(e, b)
    ensures AllHaveType(e, a + b) && ArrayKey(e, a + b) == ArrayKey(e, a) + ArrayKey(e, b)
  {
    hide Key, HasType;
    if a == [] {
      assert a + b == b;
      assert [] + ArrayKey(e, b) == ArrayKey(e, b);
    } else {
      var s := a + b;
      assert s[0] == a[0] && s[1..] == a[1..] + b;
      ArrayKeyConcat(e, a[1..], b);
      Associative(Key(e, a[0]), ArrayKey(e, a[1..]), ArrayKey(e, b));
    }
  }

  lemma Associative(x: bytes, y: bytes, z: bytes)
    ensures x + (y + z) == (x + y) + z
  {
  }

  lemma ArrayKeySingle(e: Type, v: Val)
    requires HasType(e, v)
    ensures HasType(Array(e, 1), ListVal([v])) && Key(Array(e, 1), ListVal([v])) == Key(e, v)
  {
    var vs := [v];
    assert vs[1..] == [];
    assert ArrayKey(e, []) == [];
    assert ArrayKey(e, vs) == Key(e, v) + ArrayKey(e, vs[1..]);
  }

  /** A tuple's key is the keys of its parts. */
  lemma {:induction false} TupleKeyConcat(ts: seq<Type>, us: seq<Type>, a: seq<Val>, b: seq<Val>)
    requires HaveTypes(ts, a) && HaveTypes(us, b)
    ensures HaveTypes(ts + us, a + b) && TupleKey(ts + us, a + b) == TupleKey(ts, a) + TupleKey(us, b)
  {
    hide Key, HasType;
    if a == [] {
      assert ts + us == us && a + b == b;
      assert [] + TupleKey(us, b) == TupleKey(us, b);
    } else {
      assert (ts + us)[0] == ts[0] && (ts + us)[1..] == ts[1..] + us;
      assert (a + b)[0] == a[0] && (a + b)[1..] == a[1..] + b;
      TupleKeyConcat(ts[1..], us, a[1..], b);
      Associative(Key(ts[0], a[0]), TupleKey(ts[1..], a[1..]), TupleKey(us, b));
    }
  }

  /** The number of an alternative: as few bytes as it needs, with the number of further bytes marked at the top. */
  lemma VarKeyNumber(x: nat)
    requires x < 0x1_0000_0000
    ensures var k := VarKey(x);
            if x < 0x80 then |k| == 1 && Number(k) == x
            else if x < 0x4000 then |k| == 2 && Number(k) == 0x8000 + x
            else if x < 0x20_0000 then |k| == 3 && Number(k) == 0xC0_0000 + x
            else if x < 0x1000_0000 then |k| == 4 && Number(k) == 0xE000_0000 + x
            else |k| == 5 && Number(k) == 0xF0_0000_0000 + x
  {
    hide Number;
    var n := VarBytes(x);
    var q := if n == 5 then 0 else x / Pow256(n - 1);
    KnownPowers();
    DivMod(x, Pow256(n - 1));
    var low := if n == 5 then x else x % Pow256(n - 1);
    BigEndianLow(n - 1, low, q);
    NumberOfBigEndian(n - 1, low);
    NumberConcat([VarHead(x)], BigEndian(n - 1, x));
    NumberOfByte(VarHead(x));
  }

  lemma KnownPowers()
    ensures Pow256(0) == 1 && Pow256(1) == 0x100 && Pow256(2) == 0x1_0000 && Pow256(3) == 0x100_0000 && Pow256(4) == 0x1_0000_0000
  {
  }

  lemma NumberOfByte(b: byte)
    ensures Number([b]) == b
  {
    assert [b][..0] == [];
  }

  /** A variant of few alternatives is a pair of a byte and the value. */
  lemma VariantKeyIsPair(ts: seq<Type>, v: Val)
    requires HasType(Variant(ts), v) && v.index < 0x80
    ensures HasType(Tuple([Byte(), ts[v.index]]), ListVal([IntVal(v.index), v.v]))
    ensures Key(Variant(ts), v) == Key(Tuple([Byte(), ts[v.index]]), ListVal([IntVal(v.index), v.v]))
  {
    ByteKey(v.index);
    PairKey(Byte(), ts[v.index], IntVal(v.index), v.v);
    VarKeyByte(v.index);
  }

  lemma VarKeyByte(x: nat)
    requires x < 0x80
    ensures VarKey(x) == [x]
  {
    assert Pow256(0) == 1;
  }

  // ---------------------------------------------------------------- examples

  lemma {:induction false} BigEndianZero(n: nat)
    ensures BigEndian(n, 0) == Zeros(n)
  {
    if n > 0 {
      BigEndianZero(n - 1);
    }
  }

  lemma SevenKey()
    ensures HasType(Integer(8, false), IntVal(7)) && Key(Integer(8, false), IntVal(7)) == Zeros(7) + [7]
  {
    assert Pow256(8) > 7;
    BiasedIsOffset(8, false, 7);
    BigEndianZero(7);
    assert BigEndian(8, 7) == BigEndian(7, 0) + [7];
  }

  /** The vector of the one 64-bit number 7. */
  lemma VectorExample()
    ensures HasType(Range(Integer(8, false)), ListVal([IntVal(7)]))
    ensures Key(Range(Integer(8, false)), ListVal([IntVal(7)])) == [1, 0, 0, 0, 0, 0, 0, 0, 7, 0]
  {
    hide BigEndian, Pow256;
    SevenKey();
    var e, vs := Integer(8, false), [IntVal(7)];
    assert vs[1..] == [];
    assert RangeKey(e, []) == [0];
    assert RangeKey(e, vs) == [1] + Key(e, IntVal(7)) + [0];
  }

  /** 1.0, -1.0 and both zeros. */
  lemma FloatExample()
    ensures Binary64.SignBit() == 0x8000_0000_0000_0000
    ensures FloatToKey(Binary64, 0x3FF0_0000_0000_0000) == 0xBFF0_0000_0000_0000
    ensures FloatToKey(Binary64, 0xBFF0_0000_0000_0000) == 0x400F_FFFF_FFFF_FFFF
    ensures FloatToKey(Binary64, 0) == FloatToKey(Binary64, 0x8000_0000_0000_0000) == 0x8000_0000_0000_0000
  {
    FloatWidth(true);
    assert Pow256(8) == 0x1_0000_0000_0000_0000;
    assert FloatFormat(true) == Binary64;
  }

  /** A string with a zero in it. */
  lemma StringExample()
    ensures Key(String, StringVal([0x61, 0, 0x62])) == [0x61, 0, 1, 0x62, 0, 0]
  {
    assert Escape([0x61, 0, 0x62]) == [0x61, 0, 1, 0x62] by {
      assert [0x61, 0, 0x62][1..] == [0, 0x62] && [0, 0x62][1..] == [0x62] && [0x62][1..] == [];
      assert Escape([0x62]) == [0x62];
      assert Escape([0, 0x62]) == [0, 1, 0x62];
    }
  }
}
