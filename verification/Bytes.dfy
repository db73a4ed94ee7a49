/** Bytes, byte strings and their lexicographic order. */
module Bytes {

  type byte = x: int | 0 <= x < 256

  type bytes = seq<byte>

  /** Lexicographic order on byte strings, as `memcmp` followed by the shorter-first rule. */
  ghost predicate LexLess(a: bytes, b: bytes) {
    if b == [] then false
    else if a == [] then true
    else if a[0] != b[0] then a[0] < b[0]
    else LexLess(a[1..], b[1..])
  }

  /** `a` and `b` differ at position `i`, which is a position of both, and agree before it. */
  ghost predicate SplitsAt(a: bytes, b: bytes, i: nat) {
    i < |a| && i < |b| && a[..i] == b[..i] && a[i] < b[i]
  }

  /** `a` is smaller than `b` at a position that exists in both: smaller, and neither is a prefix of the other. */
  ghost predicate Below(a: bytes, b: bytes) {
    exists i: nat :: SplitsAt(a, b, i)
  }

  lemma {:induction false} SplitIsLess(a: bytes, b: bytes, i: nat)
    requires SplitsAt(a, b, i)
    ensures LexLess(a, b) && !LexLess(b, a)
    decreases i
  {
    if i > 0 {
      assert a[0] == a[..i][0] == b[..i][0] == b[0];
      assert a[1..][..i - 1] == a[..i][1..] == b[..i][1..] == b[1..][..i - 1];
      SplitIsLess(a[1..], b[1..], i - 1);
    }
  }

  lemma {:induction false} LexIrreflexive(a: bytes)
    ensures !LexLess(a, a)
  {
    if a != [] {
      LexIrreflexive(a[1..]);
    }
  }

  /** `Below` is the lexicographic order without the prefix cases. */
  lemma BelowMeaning(a: bytes, b: bytes)
    requires Below(a, b)
    ensures LexLess(a, b) && !LexLess(b, a)
    ensures a != b && !(a <= b) && !(b <= a)
  {
    var i: nat :| SplitsAt(a, b, i);
    SplitIsLess(a, b, i);
  }

  /** A decided comparison stays decided whatever is put around it. */
  lemma BelowExtends(x: bytes, a: bytes, b: bytes, y: bytes, z: bytes)
    requires Below(a, b)
    ensures Below(x + a + y, x + b + z)
  {
    var i: nat :| SplitsAt(a, b, i);
    var l, r := x + a + y, x + b + z;
    assert l[..|x| + i] == x + a[..i];
    assert r[..|x| + i] == x + b[..i];
    assert SplitsAt(l, r, |x| + i);
  }

  lemma BelowHead(a: bytes, b: bytes)
    requires a != [] && b != [] && a[0] < b[0]
    ensures Below(a, b)
  {
    assert SplitsAt(a, b, 0);
  }

  function Zeros(n: nat): (r: bytes)
    ensures |r| == n && forall i | 0 <= i < n :: r[i] == 0
  {
    seq(n, _ => 0)
  }

  /** The bytes of the unsigned integer `x` in `n` bytes, most significant first. */
  function BigEndian(n: nat, x: nat): (r: bytes)
    ensures |r| == n
  {
    if n == 0 then [] else BigEndian(n - 1, x / 256) + [x % 256]
  }

  function Pow256(n: nat): (r: nat)
    ensures r > 0
  {
    if n == 0 then 1 else 256 * Pow256(n - 1)
  }

  /** Big-endian bytes order like the numbers they stand for. */
  lemma {:induction false} BigEndianOrder(n: nat, x: nat, y: nat)
    requires x < y < Pow256(n)
    ensures Below(BigEndian(n, x), BigEndian(n, y))
  {
    var px, py := BigEndian(n - 1, x / 256), BigEndian(n - 1, y / 256);
    if x / 256 < y / 256 {
      BigEndianOrder(n - 1, x / 256, y / 256);
      BelowExtends([], px, py, [x % 256], [y % 256]);
      assert [] + px + [x % 256] == BigEndian(n, x);
      assert [] + py + [y % 256] == BigEndian(n, y);
    } else {
      assert SplitsAt(BigEndian(n, x), BigEndian(n, y), n - 1);
    }
  }

  /** Only the low `n` bytes of a number are written. */
  lemma {:induction false} BigEndianLow(n: nat, x: nat, k: nat)
    ensures BigEndian(n, x + k * Pow256(n)) == BigEndian(n, x)
  {
    if n > 0 {
      var m := Pow256(n - 1);
      assert k * Pow256(n) == 256 * (k * m);
      assert (x + 256 * (k * m)) / 256 == x / 256 + k * m;
      assert (x + 256 * (k * m)) % 256 == x % 256;
      BigEndianLow(n - 1, x / 256, k);
    }
  }

  /** The number whose big-endian bytes these are. */
  ghost function Number(bs: bytes): (x: nat) {
    if bs == [] then 0 else 256 * Number(bs[..|bs| - 1]) + bs[|bs| - 1]
  }

  lemma {:induction false} NumberBytes(bs: bytes)
    ensures BigEndian(|bs|, Number(bs)) == bs && Number(bs) < Pow256(|bs|)
  {
    if bs != [] {
      var init := bs[..|bs| - 1];
      NumberBytes(init);
      LastByte(Number(init), bs[|bs| - 1]);
      assert bs == init + [bs[|bs| - 1]];
    }
  }

  lemma LastByte(high: nat, b: byte)
    ensures (256 * high + b) / 256 == high && (256 * high + b) % 256 == b
  {
  }

  lemma {:induction false} NumberOfBigEndian(n: nat, x: nat)
    requires x < Pow256(n)
    ensures Number(BigEndian(n, x)) == x
  {
    if n > 0 {
      NumberOfBigEndian(n - 1, x / 256);
      assert BigEndian(n, x)[..n - 1] == BigEndian(n - 1, x / 256);
    }
  }

  lemma {:induction false} NumberConcat(a: bytes, b: bytes)
    ensures Number(a + b) == Number(a) * Pow256(|b|) + Number(b)
  {
    if b == [] {
      assert a + b == a;
    } else {
      var init := b[..|b| - 1];
      assert (a + b)[..|a + b| - 1] == a + init;
      NumberConcat(a, init);
      assert 256 * (Number(a) * Pow256(|init|)) == Number(a) * Pow256(|b|);
    }
  }
}
