/**
 * The order-preserving key encoding of key_utils.hpp: which types it covers, how their values
 * compare, and which bytes a value is turned into.
 */
module KeyEncoding {
  import opened Bytes
  import opened Powers
  import opened Ieee754

  /**
   * The types to_key is specialized for. A pair, a tuple and a reflected struct are all `Tuple`;
   * vector, list, deque and set are `Range`; a map is a `Range` of pairs; a scoped enumeration is
   * the `Integer` it is stored in.
   */
  datatype Type =
    | Bool
    | Integer(size: nat, signed: bool)
    | Float(double: bool)
    | String
    | Optional(elem: Type)
    | Tuple(fields: seq<Type>)
    | Array(elem: Type, length: nat)
    | Range(elem: Type)
    | Variant(alternatives: seq<Type>)

  datatype Val =
    | BoolVal(b: bool)
    | IntVal(i: int)
    | FloatVal(bits: nat)
    | StringVal(s: bytes)
    | NoneVal
    | SomeVal(v: Val)
    | ListVal(vs: seq<Val>)
    | VariantVal(index: nat, v: Val)

  function FloatFormat(double: bool): (f: Format) {
    if double then Binary64 else Binary32
  }

  /** The smallest value of an integer type. */
  function MinOf(size: nat, signed: bool): (r: int) {
    if signed && size > 0 then -(Pow256(size) / 2) else 0
  }

  /** `v` is a value of type `t`; NaN is not a value with an order, so it is left out. */
  ghost predicate HasType(t: Type, v: Val)
    decreases t, 0, 0
  {
    match t
    case Bool => v.BoolVal?
    case Integer(n, s) => v.IntVal? && MinOf(n, s) <= v.i < MinOf(n, s) + Pow256(n)
    case Float(d) => v.FloatVal? && v.bits < 2 * FloatFormat(d).SignBit() && Decode(FloatFormat(d), v.bits) != NaN
    case String => v.StringVal?
    case Optional(e) => v.NoneVal? || (v.SomeVal? && HasType(e, v.v))
    case Tuple(ts) => v.ListVal? && HaveTypes(ts, v.vs)
    case Array(e, n) => v.ListVal? && |v.vs| == n && AllHaveType(e, v.vs)
    case Range(e) => v.ListVal? && AllHaveType(e, v.vs)
    case Variant(ts) => v.VariantVal? && v.index < |ts| && v.index < 0x1_0000_0000 && HasType(ts[v.index], v.v)
  }

  ghost predicate HaveTypes(ts: seq<Type>, vs: seq<Val>)
    decreases ts, 0, 0
  {
    |ts| == |vs| && (vs == [] || (HasType(ts[0], vs[0]) && HaveTypes(ts[1..], vs[1..])))
  }

  ghost predicate AllHaveType(t: Type, vs: seq<Val>)
    decreases t, 1, |vs|
  {
    vs == [] || (HasType(t, vs[0]) && AllHaveType(t, vs[1..]))
  }

  // The order of the values: the C++ operator < of each type.

  ghost predicate Less(t: Type, a: Val, b: Val)
    requires HasType(t, a) && HasType(t, b)
    decreases t, 0, 0
  {
    match t
    case Bool => !a.b && b.b
    case Integer(_, _) => a.i < b.i
    case Float(d) => ValueLess(Decode(FloatFormat(d), a.bits), Decode(FloatFormat(d), b.bits))
    case String => LexLess(a.s, b.s)
    case Optional(e) => b.SomeVal? && (a.NoneVal? || Less(e, a.v, b.v))
    case Tuple(ts) => TupleLess(ts, a.vs, b.vs)
    case Array(e, _) => RangeLess(e, a.vs, b.vs)
    case Range(e) => RangeLess(e, a.vs, b.vs)
    case Variant(ts) => a.index < b.index || (a.index == b.index && Less(ts[a.index], a.v, b.v))
  }

  /** Field by field: the first field that is smaller either way decides. */
  ghost predicate TupleLess(ts: seq<Type>, a: seq<Val>, b: seq<Val>)
    requires HaveTypes(ts, a) && HaveTypes(ts, b)
    decreases ts, 0, 0
  {
    a != [] &&
    (Less(ts[0], a[0], b[0]) || (!Less(ts[0], b[0], a[0]) && TupleLess(ts[1..], a[1..], b[1..])))
  }

  /** std::lexicographical_compare: element by element, then the shorter range first. */
  ghost predicate RangeLess(t: Type, a: seq<Val>, b: seq<Val>)
    requires AllHaveType(t, a) && AllHaveType(t, b)
    decreases t, 1, |a|
  {
    if b == [] then false
    else if a == [] then true
    else Less(t, a[0], b[0]) || (!Less(t, b[0], a[0]) && RangeLess(t, a[1..], b[1..]))
  }

  // The bytes of the values.

  /** float_to_key: flips the sign bit of a non-negative pattern and every bit of a negative one. */
  function FloatToKey(f: Format, bits: nat): (r: nat)
    requires bits < 2 * f.SignBit()
  {
    var sign := f.SignBit();
    var result := if bits == sign then 0 else bits;
    if result >= sign then 2 * sign - 1 - result else result + sign
  }

  /** The offset of `i` from the smallest value, computed as in the source, modulo the width of the type. */
  function Biased(size: nat, signed: bool, i: int): (r: nat) {
    var m := Pow256(size);
    DivMod(i % m - MinOf(size, signed) % m, m);
    (i % m - MinOf(size, signed) % m) % m
  }

  /** Every zero byte is followed by a one byte. */
  function Escape(s: bytes): (r: bytes) {
    if s == [] then [] else (if s[0] == 0 then [0, 1] else [s[0]]) + Escape(s[1..])
  }

  function VarBytes(x: nat): (n: nat)
    ensures 1 <= n <= 5
  {
    if x < 0x80 then 1 else if x < 0x4000 then 2 else if x < 0x20_0000 then 3 else if x < 0x1000_0000 then 4 else 5
  }

  /** The leading ones of the first byte: one less than the number of bytes. */
  function VarMark(n: nat): (r: byte)
    requires 1 <= n <= 5
  {
    if n == 1 then 0 else if n == 2 then 0x80 else if n == 3 then 0xC0 else if n == 4 then 0xE0 else 0xF0
  }

  /** The first byte of to_key_varuint32: the mark and, unless there are five bytes, the top bits of `x`. */
  function VarHead(x: nat): (r: byte)
    requires x < 0x1_0000_0000
  {
    var n := VarBytes(x);
    VarMark(n) + (if n == 5 then 0 else x / Pow256(n - 1))
  }

  function VarKey(x: nat): (r: bytes)
    requires x < 0x1_0000_0000
  {
    [VarHead(x)] + BigEndian(VarBytes(x) - 1, x)
  }

  /** The types that to_key_optional packs into a byte of their own. */
  predicate OneByte(t: Type) {
    t.Bool? || (t.Integer? && t.size == 1)
  }

  ghost function Key(t: Type, v: Val): (r: bytes)
    requires HasType(t, v)
    ensures OneByte(t) ==> |r| == 1
    decreases t, 0, 0
  {
    match t
    case Bool => [if v.b then 1 else 0]
    case Integer(n, s) => BigEndian(n, Biased(n, s, v.i))
    case Float(d) => BigEndian(if d then 8 else 4, FloatToKey(FloatFormat(d), v.bits))
    case String => Escape(v.s) + [0, 0]
    case Optional(e) => if v.NoneVal? then NoneKey(e) else SomeKey(e, v.v)
    case Tuple(ts) => TupleKey(ts, v.vs)
    case Array(e, _) => ArrayKey(e, v.vs)
    case Range(e) => RangeKey(e, v.vs)
    case Variant(ts) => VarKey(v.index) + Key(ts[v.index], v.v)
  }

  /** to_key_optional of a null pointer. */
  function NoneKey(t: Type): (r: bytes) {
    if OneByte(t) then [0, 0] else [0]
  }

  /** to_key_optional of a value. */
  ghost function SomeKey(t: Type, v: Val): (r: bytes)
    requires HasType(t, v)
    decreases t, 1, 0
  {
    if OneByte(t) then Key(t, v) + (if Key(t, v)[0] == 0 then [1] else []) else [1] + Key(t, v)
  }

  ghost function TupleKey(ts: seq<Type>, vs: seq<Val>): (r: bytes)
    requires HaveTypes(ts, vs)
    decreases ts, 0, 0
  {
    if vs == [] then [] else Key(ts[0], vs[0]) + TupleKey(ts[1..], vs[1..])
  }

  ghost function ArrayKey(t: Type, vs: seq<Val>): (r: bytes)
    requires AllHaveType(t, vs)
    decreases t, 1, |vs|
  {
    if vs == [] then [] else Key(t, vs[0]) + ArrayKey(t, vs[1..])
  }

  ghost function RangeKey(t: Type, vs: seq<Val>): (r: bytes)
    requires AllHaveType(t, vs)
    decreases t, 2, |vs|
  {
    if vs == [] then NoneKey(t) else SomeKey(t, vs[0]) + RangeKey(t, vs[1..])
  }
}
