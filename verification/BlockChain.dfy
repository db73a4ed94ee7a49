/**
 * The heap layout of malloc.cpp on plain byte strings: four-byte headers in front of payloads,
 * chained by their sizes.
 */
module BlockChain {
  import opened Bytes

  /** _size_marker on wasm32. */
  const Marker: nat := 4
  /** _alloc_memory_mask. */
  const AllocMask: nat := 0x8000_0000
  const WordLimit: nat := 0x1_0000_0000

  // ---------------------------------------------------------------- words in memory

  /** The little-endian word at address `a`. */
  function ReadWord(m: bytes, a: nat): (w: nat)
    requires a + 4 <= |m|
    ensures w < WordLimit
  {
    Join(m[a], m[a + 1], m[a + 2], m[a + 3])
  }

  function Join(a: byte, b: byte, c: byte, d: byte): (w: nat)
    ensures w < WordLimit
  {
    a as int + 0x100 * b as int + 0x1_0000 * c as int + 0x100_0000 * d as int
  }

  function WordBytes(w: nat): (r: bytes)
    requires w < WordLimit
    ensures |r| == 4
  {
    [w % 0x100, w / 0x100 % 0x100, w / 0x1_0000 % 0x100, w / 0x100_0000]
  }

  function WriteWord(m: bytes, a: nat, w: nat): (r: bytes)
    requires a + 4 <= |m| && w < WordLimit
    ensures |r| == |m|
  {
    m[..a] + WordBytes(w) + m[a + 4..]
  }

  lemma ReadBack(m: bytes, a: nat, w: nat)
    requires a + 4 <= |m| && w < WordLimit
    ensures ReadWord(WriteWord(m, a, w), a) == w && SameOutside(m, WriteWord(m, a, w), a, a + 4)
  {
    var r := WriteWord(m, a, w);
    assert r[a] == w % 0x100 && r[a + 1] == w / 0x100 % 0x100 && r[a + 2] == w / 0x1_0000 % 0x100 && r[a + 3] == w / 0x100_0000;
    JoinSplit(w);
  }

  /** The lowest byte of a word comes first. */
  lemma WordIsLittleEndian(m: bytes, a: nat)
    requires a + 4 <= |m|
    ensures ReadWord(m, a) == Number([m[a + 3], m[a + 2], m[a + 1], m[a]])
  {
    var r := [m[a + 3], m[a + 2], m[a + 1], m[a]];
    assert r[..1] == [m[a + 3]] && r[..1][..0] == [];
    assert r[..2][..1] == r[..1] && r[..3][..2] == r[..2];
    assert Number(r[..1]) == m[a + 3];
    assert Number(r[..2]) == 256 * Number(r[..1]) + m[a + 2];
    assert Number(r[..3]) == 256 * Number(r[..2]) + m[a + 1];
  }

  lemma JoinSplit(w: nat)
    requires w < WordLimit
    ensures Join(w % 0x100, w / 0x100 % 0x100, w / 0x1_0000 % 0x100, w / 0x100_0000) == w
  {
    var x := w / 0x100;
    var y := x / 0x100;
    assert w == 0x100 * x + w % 0x100;
    assert x == 0x100 * y + x % 0x100;
    assert y == 0x100 * (y / 0x100) + y % 0x100;
    assert w / 0x1_0000 == y && w / 0x100_0000 == y / 0x100;
  }

  /** Nothing outside [lo, hi) differs. */
  ghost predicate SameOutside(m: bytes, n: bytes, lo: nat, hi: nat) {
    lo <= hi <= |m| == |n| && m[..lo] == n[..lo] && m[hi..] == n[hi..]
  }

  lemma SameOutsideTrans(m: bytes, n: bytes, p: bytes, lo: nat, hi: nat, lo': nat, hi': nat)
    requires SameOutside(m, n, lo', hi') && SameOutside(n, p, lo', hi') && lo <= lo' && hi' <= hi <= |m|
    ensures SameOutside(m, p, lo, hi)
  {
    assert m[..lo] == m[..lo'][..lo] && n[..lo] == n[..lo'][..lo] && p[..lo] == p[..lo'][..lo];
    assert m[hi..] == m[hi'..][hi - hi'..] && n[hi..] == n[hi'..][hi - hi'..] && p[hi..] == p[hi'..][hi - hi'..];
  }

  lemma SliceOutside(m: bytes, n: bytes, lo: nat, hi: nat, x: nat, y: nat)
    requires SameOutside(m, n, lo, hi) && x <= y <= |m| && (y <= lo || hi <= x)
    ensures m[x..y] == n[x..y]
  {
    forall i | x <= i < y
      ensures m[i] == n[i]
    {
      if y <= lo {
        assert m[i] == m[..lo][i] && n[i] == n[..lo][i];
      } else {
        assert m[i] == m[hi..][i - hi] && n[i] == n[hi..][i - hi];
      }
    }
  }

  lemma WriteOutside(m: bytes, a: nat, w: nat, lo: nat, hi: nat)
    requires lo <= a && a + 4 <= hi <= |m| && w < WordLimit
    ensures SameOutside(m, WriteWord(m, a, w), lo, hi)
  {
  }

  lemma ReadFrame(m: bytes, n: bytes, a: nat)
    requires a + 4 <= |m| && a + 4 <= |n| && m[a..a + 4] == n[a..a + 4]
    ensures ReadWord(m, a) == ReadWord(n, a)
  {
    var x, y := m[a..a + 4], n[a..a + 4];
    assert x[0] == m[a] && x[1] == m[a + 1] && x[2] == m[a + 2] && x[3] == m[a + 3];
    assert y[0] == n[a] && y[1] == n[a + 1] && y[2] == n[a + 2] && y[3] == n[a + 3];
  }

  // ---------------------------------------------------------------- blocks

  /** A header's content: the payload size and whether the payload is in use. */
  datatype Block = Block(size: nat, alloc: bool)

  function Header(b: Block): (w: nat)
    requires b.size < AllocMask
    ensures w < WordLimit
  {
    b.size + if b.alloc then AllocMask else 0
  }

  /** The bytes that blocks take up, headers included. */
  function Span(bs: seq<Block>): (n: nat) {
    if bs == [] then 0 else Marker + bs[0].size + Span(bs[1..])
  }

  /** From address `lo` on, memory holds exactly the headers of `bs`, each behind the payload of the one before. */
  ghost predicate Tiled(m: bytes, lo: nat, bs: seq<Block>)
    decreases |bs|
  {
    bs == [] ||
    (&& bs[0].size < AllocMask
     && lo + Marker + bs[0].size <= |m|
     && ReadWord(m, lo) == Header(bs[0])
     && Tiled(m, lo + Marker + bs[0].size, bs[1..]))
  }

  /** Header and payload together are a multiple of eight bytes (_mem_block). */
  ghost predicate AllSized(bs: seq<Block>) {
    forall i | 0 <= i < |bs| :: bs[i].size % 8 == 4
  }

  lemma Mod8(x: nat)
    requires x % 8 == 4
    ensures x % 4 == 0
  {
    assert x == 4 * (2 * (x / 8) + 1);
  }

  lemma {:induction false} SpanConcat(a: seq<Block>, b: seq<Block>)
    ensures Span(a + b) == Span(a) + Span(b)
  {
    if a == [] {
      assert a + b == b;
    } else {
      assert (a + b)[1..] == a[1..] + b;
      SpanConcat(a[1..], b);
    }
  }

  lemma {:induction false} SpanSized(bs: seq<Block>)
    requires AllSized(bs)
    ensures Span(bs) % 8 == 0
  {
    if bs != [] {
      assert AllSized(bs[1..]) by { assert forall i | 0 <= i < |bs[1..]| :: bs[1..][i] == bs[i + 1]; }
      SpanSized(bs[1..]);
    }
  }

  lemma {:induction false} TiledConcat(m: bytes, lo: nat, a: seq<Block>, b: seq<Block>)
    ensures Tiled(m, lo, a + b) <==> Tiled(m, lo, a) && Tiled(m, lo + Span(a), b)
    decreases |a|
  {
    if a == [] {
      assert a + b == b;
    } else {
      assert (a + b)[1..] == a[1..] + b;
      TiledConcat(m, lo + Marker + a[0].size, a[1..], b);
    }
  }

  lemma {:induction false} TiledInside(m: bytes, lo: nat, bs: seq<Block>)
    requires Tiled(m, lo, bs) && lo <= |m|
    ensures lo + Span(bs) <= |m|
    decreases |bs|
  {
    if bs != [] {
      TiledInside(m, lo + Marker + bs[0].size, bs[1..]);
    }
  }

  /** Only the bytes of the blocks matter. */
  lemma {:induction false} TiledFrame(m: bytes, n: bytes, lo: nat, bs: seq<Block>)
    requires Tiled(m, lo, bs) && lo + Span(bs) <= |m| && lo + Span(bs) <= |n|
    requires m[lo..lo + Span(bs)] == n[lo..lo + Span(bs)]
    ensures Tiled(n, lo, bs)
    decreases |bs|
  {
    if bs != [] {
      var s := Span(bs);
      var next := lo + Marker + bs[0].size;
      assert m[lo..lo + 4] == m[lo..lo + s][..4] && n[lo..lo + 4] == n[lo..lo + s][..4];
      ReadFrame(m, n, lo);
      assert m[next..lo + s] == m[lo..lo + s][next - lo..] && n[next..lo + s] == n[lo..lo + s][next - lo..];
      TiledFrame(m, n, next, bs[1..]);
    }
  }

  /** Changing some blocks in the middle, and nothing else, changes just these blocks of the chain. */
  lemma TiledReplace(m: bytes, n: bytes, lo: nat, pre: seq<Block>, mid: seq<Block>, mid': seq<Block>, post: seq<Block>)
    requires lo <= |m| && Tiled(m, lo, pre + mid + post)
    requires Span(mid) == Span(mid')
    requires |m| == |n| && SameOutside(m, n, lo + Span(pre), lo + Span(pre) + Span(mid))
    requires Tiled(n, lo + Span(pre), mid')
    ensures Tiled(n, lo, pre + mid' + post)
  {
    hide Tiled, Span, SameOutside;
    TiledInside(m, lo, pre + mid + post);
    SpanConcat(pre + mid, post);
    SpanConcat(pre, mid);
    SpanConcat(pre, mid');
    TiledConcat(m, lo, pre + mid, post);
    TiledConcat(m, lo, pre, mid);
    var a := lo + Span(pre);
    var b := a + Span(mid);
    var c := b + Span(post);
    SliceOutside(m, n, a, b, lo, a);
    TiledFrame(m, n, lo, pre);
    SliceOutside(m, n, a, b, b, c);
    TiledFrame(m, n, b, post);
    TiledConcat(n, lo, pre, mid');
    TiledConcat(n, lo, pre + mid', post);
  }

  /** A chain is determined by memory: of two chains from one address, one continues the other. */
  lemma {:induction false} TilingUnique(m: bytes, lo: nat, a: seq<Block>, b: seq<Block>)
    requires Tiled(m, lo, a) && Tiled(m, lo, b) && |a| <= |b|
    ensures a == b[..|a|]
    decreases |a|
  {
    if a != [] {
      assert a[0] == b[0];
      TilingUnique(m, lo + Marker + a[0].size, a[1..], b[1..]);
      assert b[1..][..|a| - 1] == b[1..|a|];
      assert a == [a[0]] + a[1..] && b[..|a|] == [b[0]] + b[1..|a|];
    }
  }

  // ---------------------------------------------------------------- payloads in use

  /** The payloads in use: where they start and how long they are. */
  ghost function Live(lo: nat, bs: seq<Block>): (r: map<nat, nat>)
    decreases |bs|
  {
    if bs == [] then map[] else LiveOne(lo, bs[0]) + Live(lo + Marker + bs[0].size, bs[1..])
  }

  ghost function LiveOne(lo: nat, b: Block): (r: map<nat, nat>) {
    if b.alloc then map[lo + Marker := b.size] else map[]
  }

  lemma {:induction false} LiveConcat(lo: nat, a: seq<Block>, b: seq<Block>)
    ensures Live(lo, a + b) == Live(lo, a) + Live(lo + Span(a), b)
    decreases |a|
  {
    if a == [] {
      assert a + b == b;
    } else {
      assert (a + b)[1..] == a[1..] + b;
      var next := lo + Marker + a[0].size;
      LiveConcat(next, a[1..], b);
      assert next + Span(a[1..]) == lo + Span(a);
      MapAssoc(LiveOne(lo, a[0]), Live(next, a[1..]), Live(lo + Span(a), b));
    }
  }

  lemma MapAssoc(x: map<nat, nat>, y: map<nat, nat>, z: map<nat, nat>)
    ensures x + (y + z) == x + y + z
  {
  }

  /** Payloads in use lie inside their blocks, one behind the other. */
  lemma {:induction false} LiveInside(lo: nat, bs: seq<Block>, p: nat)
    requires p in Live(lo, bs)
    ensures lo + Marker <= p && p + Live(lo, bs)[p] <= lo + Span(bs)
    decreases |bs|
  {
    var next := lo + Marker + bs[0].size;
    if p in Live(next, bs[1..]) {
      LiveInside(next, bs[1..], p);
    }
  }

  /** Payloads in use are pairwise disjoint, with room for a header between them. */
  lemma {:induction false} LiveDisjoint(lo: nat, bs: seq<Block>, p: nat, q: nat)
    requires p in Live(lo, bs) && q in Live(lo, bs) && p < q
    ensures p + Live(lo, bs)[p] + Marker <= q
    decreases |bs|
  {
    var next := lo + Marker + bs[0].size;
    if p in Live(next, bs[1..]) {
      LiveInside(next, bs[1..], p);
      LiveDisjoint(next, bs[1..], p, q);
    } else {
      LiveInside(next, bs[1..], q);
    }
  }

  /** Finds the block of a payload in use. */
  lemma {:induction false} LiveBlock(lo: nat, bs: seq<Block>, p: nat) returns (i: nat)
    requires p in Live(lo, bs)
    ensures i < |bs| && bs[i] == Block(Live(lo, bs)[p], true) && p == lo + Span(bs[..i]) + Marker
    decreases |bs|
  {
    var next := lo + Marker + bs[0].size;
    if p in Live(next, bs[1..]) {
      LiveInside(next, bs[1..], p);
      var j := LiveBlock(next, bs[1..], p);
      i := j + 1;
      assert bs[..i] == [bs[0]] + bs[1..][..j];
      SpanConcat([bs[0]], bs[1..][..j]);
      assert Span([bs[0]]) == Marker + bs[0].size;
    } else {
      i := 0;
    }
  }

  /** Replacing blocks in the middle leaves the payloads of all others where they are. */
  lemma LiveReplace(lo: nat, pre: seq<Block>, mid: seq<Block>, mid': seq<Block>, post: seq<Block>)
    requires Span(mid) == Span(mid')
    ensures var a := lo + Span(pre);
            && Live(lo, pre + mid + post) == Live(lo, pre) + Live(a, mid) + Live(a + Span(mid), post)
            && Live(lo, pre + mid' + post) == Live(lo, pre) + Live(a, mid') + Live(a + Span(mid), post)
  {
    hide Live, Span;
    LiveConcat(lo, pre + mid, post);
    LiveConcat(lo, pre, mid);
    LiveConcat(lo, pre + mid', post);
    LiveConcat(lo, pre, mid');
    SpanConcat(pre, mid);
    SpanConcat(pre, mid');
  }
}
