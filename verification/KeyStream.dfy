/** The writers of key_utils.hpp, over the two kinds of stream of datastream.hpp. */
module KeyStream {
  import opened Bytes
  import opened Powers
  import opened KeyEncoding

  /** `d` with `w` written over it from position `p` on. */
  ghost function Splice(d: bytes, p: nat, w: bytes): (r: bytes)
    requires p + |w| <= |d|
    ensures |r| == |d|
  {
    d[..p] + w + d[p + |w|..]
  }

  lemma SpliceTwice(d: bytes, p: nat, a: bytes, b: bytes)
    requires p + |a| + |b| <= |d|
    ensures Splice(Splice(d, p, a), p + |a|, b) == Splice(d, p, a + b)
  {
  }

  /**
   * A datastream: `datastream<size_t>` only counts, `datastream<char*>` fills a buffer of fixed
   * size and refuses to write past its end.
   */
  class Datastream {
    const counting: bool
    var pos: nat
    var data: bytes

    constructor Counter()
      ensures counting && pos == 0 && data == []
    {
      counting, pos, data := true, 0, [];
    }

    constructor Over(buffer: bytes)
      ensures !counting && pos == 0 && data == buffer
    {
      counting, pos, data := false, 0, buffer;
    }

    /** The position is inside the buffer. */
    ghost predicate Valid()
      reads this
    {
      counting || pos <= |data|
    }

    /** There is room for `n` more bytes. */
    ghost predicate Room(n: nat)
      reads this
    {
      counting || pos + n <= |data|
    }

    /** Since the state (d0, p0), exactly the bytes `w` have been written. */
    ghost predicate Wrote(d0: bytes, p0: nat, w: bytes)
      reads this
    {
      && pos == p0 + |w|
      && if counting then data == d0 else p0 + |w| <= |d0| && data == Splice(d0, p0, w)
    }

    method Write(b: byte) returns (ok: bool)
      requires Valid()
      modifies this
      ensures ok == old(Room(1))
      ensures ok ==> Wrote(old(data), old(pos), [b])
    {
      ok := counting || |data| - pos >= 1;
      if ok {
        if !counting {
          data := data[pos := b];
        }
        pos := pos + 1;
      }
    }

    method WriteAll(s: bytes) returns (ok: bool)
      requires Valid()
      modifies this
      ensures ok == old(Room(|s|))
      ensures ok ==> Wrote(old(data), old(pos), s)
    {
      ok := counting || |data| - pos >= |s|;
      if ok {
        if !counting {
          data := data[..pos] + s + data[pos + |s|..];
        }
        pos := pos + |s|;
      }
    }

    lemma WroteNothing()
      requires Valid()
      ensures Wrote(data, pos, [])
    {
    }

    /** Two writes in a row are one write. */
    lemma WroteMore(d0: bytes, p0: nat, d1: bytes, p1: nat, a: bytes, b: bytes)
      requires p1 == p0 + |a|
      requires if counting then d1 == d0 else p0 + |a| <= |d0| && d1 == Splice(d0, p0, a)
      requires Wrote(d1, p1, b)
      ensures Wrote(d0, p0, a + b)
    {
      if !counting {
        SpliceTwice(d0, p0, a, b);
      }
    }
  }

  /** to_key of a string: every zero byte escaped, then two zero bytes. */
  method StringToKey(s: bytes, ds: Datastream) returns (ok: bool)
    requires ds.Valid()
    modifies ds
    ensures ok == old(ds.Room(|Escape(s) + [0, 0]|))
    ensures ok ==> ds.Wrote(old(ds.data), old(ds.pos), Escape(s) + [0, 0])
  {
    hide Splice;
    ghost var w: bytes := [];
    ghost var d0, p0 := ds.data, ds.pos;
    ds.WroteNothing();
    ok := true;
    var i := 0;
    while i < |s|
      invariant 0 <= i <= |s|
      invariant ds.Wrote(d0, p0, w)
      invariant w + Escape(s[i..]) == Escape(s)
    {
      ghost var d1, p1 := ds.data, ds.pos;
      assert s[i..][1..] == s[i + 1..];
      ok := ds.Write(s[i]);
      if !ok { return; }
      ds.WroteMore(d0, p0, d1, p1, w, [s[i]]);
      w := w + [s[i]];
      if s[i] == 0 {
        d1, p1 := ds.data, ds.pos;
        ok := ds.Write(1);
        if !ok { return; }
        ds.WroteMore(d0, p0, d1, p1, w, [1]);
        w := w + [1];
      }
      i := i + 1;
    }
    assert w == Escape(s);
    ghost var d1, p1 := ds.data, ds.pos;
    ok := ds.WriteAll([0, 0]);
    if ok {
      ds.WroteMore(d0, p0, d1, p1, w, [0, 0]);
    }
  }

  /** to_key_varuint32: the marked first byte, then the remaining bytes from the top down. */
  method VarUint32ToKey(obj: nat, ds: Datastream) returns (ok: bool)
    requires ds.Valid()
    requires obj < 0x1_0000_0000
    modifies ds
    ensures ok == old(ds.Room(|VarKey(obj)|))
    ensures ok ==> ds.Wrote(old(ds.data), old(ds.pos), VarKey(obj))
  {
    ghost var d0, p0 := ds.data, ds.pos;
    var numBytes := VarBytes(obj);
    ok := ds.Write(VarHead(obj));
    if !ok { return; }
    ghost var w: bytes := [VarHead(obj)];
    var i: int := numBytes as int - 2;
    while i >= 0
      invariant -1 <= i <= numBytes - 2
      invariant ds.Wrote(d0, p0, w)
      invariant w == [VarHead(obj)] + BigEndian(numBytes - 2 - i, Quot(obj, Pow256(i + 1)))
    {
      ghost var d1, p1 := ds.data, ds.pos;
      var b := Quot(obj, Pow256(i)) % 256;
      ok := ds.Write(b);
      NextByte(numBytes - 2 - i, obj, i);
      if !ok {
        return;
      }
      ds.WroteMore(d0, p0, d1, p1, w, [b]);
      w := w + [b];
      i := i - 1;
    }
    assert Pow256(0) == 1;
  }

  /** Shifting by one byte less shows one byte more. */
  lemma NextByte(k: nat, x: nat, i: nat)
    ensures BigEndian(k + 1, Quot(x, Pow256(i))) == BigEndian(k, Quot(x, Pow256(i + 1))) + [Quot(x, Pow256(i)) % 256]
  {
    QuotQuot(x, Pow256(i), 256);
  }

  lemma QuotQuot(x: nat, d: nat, e: nat)
    requires d > 0 && e > 0
    ensures e * d > 0 && Quot(x, e * d) == Quot(Quot(x, d), e)
  {
    var q, r := x / d / e, x / d % e;
    DivMod(x, d);
    DivMod(x / d, e);
    assert x == q * (e * d) + (r * d + x % d) by {
      assert (q * e + r) * d == q * (e * d) + r * d;
    }
    MulMonotone(r + 1, e, d);
    DivModUnique(x, q, r * d + x % d, e * d);
  }

  /** to_key, by recursion over the type. */
  method ToKey(t: Type, v: Val, ds: Datastream) returns (ok: bool)
    requires ds.Valid()
    requires HasType(t, v)
    modifies ds
    ensures ok == old(ds.Room(|Key(t, v)|))
    ensures ok ==> ds.Wrote(old(ds.data), old(ds.pos), Key(t, v))
    decreases t, 0, 0
  {
    match t
    case Bool =>
      ok := ds.Write(if v.b then 1 else 0);
    case Integer(n, s) =>
      ok := ds.WriteAll(BigEndian(n, Biased(n, s, v.i)));
    case Float(d) =>
      ok := ds.WriteAll(BigEndian(if d then 8 else 4, FloatToKey(FloatFormat(d), v.bits)));
    case String =>
      ok := StringToKey(v.s, ds);
    case Optional(e) =>
      if v.NoneVal? {
        ok := ds.WriteAll(NoneKey(e));
      } else {
        ok := SomeToKey(e, v.v, ds);
      }
    case Tuple(ts) =>
      ok := TupleToKey(ts, v.vs, ds);
    case Array(e, _) =>
      ok := ArrayToKey(e, v.vs, ds);
    case Range(e) =>
      ok := RangeToKey(e, v.vs, ds);
    case Variant(ts) =>
      ghost var d0, p0 := ds.data, ds.pos;
      ok := VarUint32ToKey(v.index, ds);
      if !ok { return; }
      ghost var d1, p1 := ds.data, ds.pos;
      ok := ToKey(ts[v.index], v.v, ds);
      if ok {
        ds.WroteMore(d0, p0, d1, p1, VarKey(v.index), Key(ts[v.index], v.v));
      }
  }

  /** to_key_optional of a value; a one-byte value goes through a one-byte buffer of its own. */
  method SomeToKey(t: Type, v: Val, ds: Datastream) returns (ok: bool)
    requires ds.Valid()
    requires HasType(t, v)
    modifies ds
    ensures ok == old(ds.Room(|SomeKey(t, v)|))
    ensures ok ==> ds.Wrote(old(ds.data), old(ds.pos), SomeKey(t, v))
    decreases t, 1, 0
  {
    ghost var d0, p0 := ds.data, ds.pos;
    if OneByte(t) {
      var tmp := new Datastream.Over([0]);
      ok := ToKey(t, v, tmp);
      var b := tmp.data[0];
      assert Key(t, v) == [b];
      ok := ds.Write(b);
      if !ok { return; }
      if b == 0 {
        ghost var d1, p1 := ds.data, ds.pos;
        ok := ds.Write(1);
        if ok {
          ds.WroteMore(d0, p0, d1, p1, [b], [1]);
        }
      }
    } else {
      ok := ds.Write(1);
      if !ok { return; }
      ghost var d1, p1 := ds.data, ds.pos;
      ok := ToKey(t, v, ds);
      if ok {
        ds.WroteMore(d0, p0, d1, p1, [1], Key(t, v));
      }
    }
  }

  /** to_key_tuple, from the first field on. */
  method TupleToKey(ts: seq<Type>, vs: seq<Val>, ds: Datastream) returns (ok: bool)
    requires ds.Valid()
    requires HaveTypes(ts, vs)
    modifies ds
    ensures ok == old(ds.Room(|TupleKey(ts, vs)|))
    ensures ok ==> ds.Wrote(old(ds.data), old(ds.pos), TupleKey(ts, vs))
    decreases ts, 0, 0
  {
    ok := true;
    if ts == [] {
      ds.WroteNothing();
    } else {
      ghost var d0, p0 := ds.data, ds.pos;
      ok := ToKey(ts[0], vs[0], ds);
      if !ok { return; }
      ghost var d1, p1 := ds.data, ds.pos;
      ok := TupleToKey(ts[1..], vs[1..], ds);
      if ok {
        ds.WroteMore(d0, p0, d1, p1, Key(ts[0], vs[0]), TupleKey(ts[1..], vs[1..]));
      }
    }
  }

  method ArrayToKey(t: Type, vs: seq<Val>, ds: Datastream) returns (ok: bool)
    requires ds.Valid()
    requires AllHaveType(t, vs)
    modifies ds
    ensures ok == old(ds.Room(|ArrayKey(t, vs)|))
    ensures ok ==> ds.Wrote(old(ds.data), old(ds.pos), ArrayKey(t, vs))
    decreases t, 1, 0
  {
    hide Splice, HasType, Key, SomeKey;
    ghost var d0, p0 := ds.data, ds.pos;
    ghost var w: bytes := [];
    ds.WroteNothing();
    ok := true;
    var i := 0;
    while i < |vs|
      invariant 0 <= i <= |vs|
      invariant AllHaveType(t, vs[i..])
      invariant ds.Wrote(d0, p0, w)
      invariant w + ArrayKey(t, vs[i..]) == ArrayKey(t, vs)
    {
      ghost var d1, p1 := ds.data, ds.pos;
      assert vs[i..][1..] == vs[i + 1..];
      ok := ToKey(t, vs[i], ds);
      if !ok { return; }
      ds.WroteMore(d0, p0, d1, p1, w, Key(t, vs[i]));
      w := w + Key(t, vs[i]);
      i := i + 1;
    }
    assert w == ArrayKey(t, vs);
  }

  /** to_key_range: the elements as present optionals, then an absent one. */
  method RangeToKey(t: Type, vs: seq<Val>, ds: Datastream) returns (ok: bool)
    requires ds.Valid()
    requires AllHaveType(t, vs)
    modifies ds
    ensures ok == old(ds.Room(|RangeKey(t, vs)|))
    ensures ok ==> ds.Wrote(old(ds.data), old(ds.pos), RangeKey(t, vs))
    decreases t, 2, 0
  {
    hide Splice, HasType, Key, SomeKey, RangeKey, NoneKey;
    ghost var d0, p0 := ds.data, ds.pos;
    ghost var w: bytes := [];
    ds.WroteNothing();
    ok := true;
    var i := 0;
    assert vs[0..] == vs;
    while i < |vs|
      invariant 0 <= i <= |vs|
      invariant AllHaveType(t, vs[i..])
      invariant ds.Wrote(d0, p0, w)
      invariant w + RangeKey(t, vs[i..]) == RangeKey(t, vs)
    {
      ghost var d1, p1 := ds.data, ds.pos;
      assert vs[i..][1..] == vs[i + 1..];
      RangeKeyParts(t, vs[i..]);
      ok := SomeToKey(t, vs[i], ds);
      if !ok { return; }
      ds.WroteMore(d0, p0, d1, p1, w, SomeKey(t, vs[i]));
      w := w + SomeKey(t, vs[i]);
      i := i + 1;
    }
    RangeKeyParts(t, vs[i..]);
    assert w + NoneKey(t) == RangeKey(t, vs);
    ghost var d1, p1 := ds.data, ds.pos;
    ok := ds.WriteAll(NoneKey(t));
    if ok {
      ds.WroteMore(d0, p0, d1, p1, w, NoneKey(t));
    }
  }

  lemma RangeKeyParts(t: Type, vs: seq<Val>)
    requires AllHaveType(t, vs)
    ensures RangeKey(t, vs) == if vs == [] then NoneKey(t) else SomeKey(t, vs[0]) + RangeKey(t, vs[1..])
  {
  }

  /**
   * convert_to_key: a counting pass sizes the buffer, and the second pass fills it exactly; the
   * stream is never overrun and the key ends up behind what the buffer held.
   */
  method ConvertToKey(t: Type, v: Val, bin: bytes) returns (r: bytes)
    requires HasType(t, v)
    ensures r == bin + Key(t, v)
  {
    var ss := new Datastream.Counter();
    var counted := ToKey(t, v, ss);
    var room := seq(ss.pos, _ => 0 as byte);
    var fbs := new Datastream.Over(room);
    var fits := ToKey(t, v, fbs);
    assert counted && fits;
    assert fbs.data == Key(t, v);
    r := bin + fbs.data;
  }
}
