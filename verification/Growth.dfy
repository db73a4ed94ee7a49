/** What realloc_in_place does to the chain when a block is to grow: lemmas about merging past the allocated part. */
module GrowthModel {
  import opened Bytes
  import opened BlockChain
  import opened FreeRuns
  import opened LinearMemory
  import opened HeapModel

  /** The blocks behind block `i`, with the unwritten rest of the heap read as free blocks of size zero. */
  ghost function Behind(bs: seq<Block>, i: nat, z: nat): (cs: seq<Block>)
    requires i < |bs|
  {
    bs[i + 1..] + ZeroChain(z)
  }

  lemma {:induction false} SpanPrefix(bs: seq<Block>, j: nat, k: nat)
    requires j <= k <= |bs|
    ensures Span(bs[..j]) <= Span(bs[..k]) <= Span(bs)
    ensures j < k ==> Span(bs[..j]) + Marker + bs[j].size <= Span(bs[..k])
  {
    assert bs[..k] == bs[..j] + bs[j..k] && bs == bs[..k] + bs[k..];
    SpanConcat(bs[..j], bs[j..k]);
    SpanConcat(bs[..k], bs[k..]);
    if j < k {
      assert bs[j..k][0] == bs[j];
    }
  }

  /** A payload in use behind another one is a block in use behind another one. */
  lemma BlocksBehind(lo: nat, bs: seq<Block>, i: nat)
    requires i < |bs|
    ensures var p := lo + Span(bs[..i]) + Marker;
            (forall q | q in Live(lo, bs) :: q <= p) <==> (forall j | i < j < |bs| :: !bs[j].alloc)
  {
    hide Span, Live;
    var p := lo + Span(bs[..i]) + Marker;
    if j :| i < j < |bs| && bs[j].alloc {
      LiveAt(lo, bs, j);
      SpanPrefix(bs, i, j);
    }
    forall q | q in Live(lo, bs) && q > p
      ensures exists j :: i < j < |bs| && bs[j].alloc
    {
      var j := LiveBlock(lo, bs, q);
      if j <= i {
        SpanPrefix(bs, j, i);
      }
    }
  }

  lemma LiveAt(lo: nat, bs: seq<Block>, j: nat)
    requires j < |bs| && bs[j].alloc
    ensures var q := lo + Span(bs[..j]) + Marker; q in Live(lo, bs) && Live(lo, bs)[q] == bs[j].size
  {
    hide Span, Live;
    var a := lo + Span(bs[..j]);
    assert bs == bs[..j] + [bs[j]] + bs[j + 1..];
    LiveReplace(lo, bs[..j], [bs[j]], [bs[j]], bs[j + 1..]);
    LiveSingle(a, bs[j]);
    SpanOne(bs[j]);
    LiveAbove(a + Span([bs[j]]), bs[j + 1..], a + Marker);
  }

  /** The chain behind block `i` reaches to the end of the heap. */
  lemma BehindTiles(m: bytes, lo: nat, bs: seq<Block>, i: nat, end: nat)
    requires Tiled(m, lo, bs) && AllSized(bs) && i < |bs| && lo + Span(bs) <= end <= |m|
    requires Zeroed(m, lo + Span(bs), end) && (end - lo - Span(bs)) % 4 == 0
    ensures var a, z := lo + Span(bs[..i]), (end - lo - Span(bs)) / 4; var cs := Behind(bs, i, z);
            && Tiled(m, a, [bs[i]] + cs) && WordSized(cs) && bs[i].size % 4 == 0
            && a + Marker + bs[i].size + Span(cs) == end
            && (forall j | i < j < |bs| :: cs[j - i - 1] == bs[j])
            && (forall j | |bs| - i - 1 <= j < |cs| :: !cs[j].alloc)
            && Span(cs[..|bs| - i - 1]) == lo + Span(bs) - (a + Marker + bs[i].size)
  {
    hide Tiled, Span, Zeroed, WordSized, ZeroChain, ReadWord;
    var a, z := lo + Span(bs[..i]), (end - lo - Span(bs)) / 4;
    var cs := Behind(bs, i, z);
    BlockAt(m, lo, bs, i);
    assert bs[i..] == [bs[i]] + bs[i + 1..];
    SpanConcat([bs[i]], bs[i + 1..]);
    SpanOne(bs[i]);
    ZeroChainTiles(m, lo + Span(bs), z);
    ZeroChainForm(z);
    assert [bs[i]] + cs == bs[i..] + ZeroChain(z);
    TiledConcat(m, a, bs[i..], ZeroChain(z));
    SpanConcat(bs[i + 1..], ZeroChain(z));
    assert cs[..|bs| - i - 1] == bs[i + 1..];
    BehindSized(bs, i, z);
  }

  lemma BehindSized(bs: seq<Block>, i: nat, z: nat)
    requires AllSized(bs) && i < |bs|
    ensures WordSized(Behind(bs, i, z)) && bs[i].size % 4 == 0
  {
    hide ZeroChain;
    ZeroChainForm(z);
    var cs := Behind(bs, i, z);
    forall j | 0 <= j < |cs|
      ensures cs[j].size % 4 == 0
    {
      if j < |bs| - i - 1 {
        assert cs[j] == bs[i + 1 + j];
        Mod8(cs[j].size);
      }
    }
    Mod8(bs[i].size);
  }

  /** Nothing is in use behind the block, and the bytes up to the end of the allocated part are too few. */
  ghost predicate OnlyFreeBehind(bs: seq<Block>, i: nat, size: nat) {
    && i < |bs|
    && (forall j | i < j < |bs| :: !bs[j].alloc)
    && Span(bs) - Span(bs[..i]) < Marker + size
  }

  /**
   * The merge loop leaves the allocated part exactly when only free blocks lie behind the block,
   * they are too few, and there is unwritten memory; it then finds enough whenever the heap is large enough.
   */
  lemma MergeLeaves(m: bytes, lo: nat, bs: seq<Block>, i: nat, end: nat, size: nat)
    requires Tiled(m, lo, bs) && AllSized(bs) && i < |bs| && lo + Span(bs) <= end <= |m|
    requires Zeroed(m, lo + Span(bs), end) && (end - lo - Span(bs)) % 4 == 0
    ensures var z := (end - lo - Span(bs)) / 4; var cs := Behind(bs, i, z);
            var k := GatherCount(bs[i].size, cs, size); var p := lo + Span(bs[..i]) + Marker;
            && (i + 1 + k > |bs| <==> z > 0 && OnlyFreeBehind(bs, i, size))
            && (i + 1 + k > |bs| && p + size <= end ==> Gathered(bs[i].size, cs, k) >= size)
            && (i + 1 + k <= |bs| && Gathered(bs[i].size, cs, k) >= size ==> !OnlyFreeBehind(bs, i, size))
            && (Gathered(bs[i].size, cs, k) >= size ==> p + size <= end)
  {
    hide Tiled, Span, Zeroed, GatherCount, ZeroChain, WordSized;
    var z := (end - lo - Span(bs)) / 4;
    var cs := Behind(bs, i, z);
    var k, n := GatherCount(bs[i].size, cs, size), |bs| - i - 1;
    BehindTiles(m, lo, bs, i, end);
    GatherStops(bs[i].size, cs, size);
    GatherFits(bs[i].size, cs, size);
    BlockAt(m, lo, bs, i);
    if k > n {
      GatherNeeds(bs[i].size, cs, size, n);
      forall j | i < j < |bs|
        ensures !bs[j].alloc
      {
        assert !cs[j - i - 1].alloc;
      }
      if k == |cs| {
        assert cs[..k] == cs;
      }
    } else {
      SpanPrefix(cs, k, n);
      if k < n {
        assert cs[k] == bs[i + 1 + k];
      }
    }
  }

  lemma SpanBehind(bs: seq<Block>, i: nat, z: nat, t: nat)
    requires i + 1 + t <= |bs|
    ensures t <= |Behind(bs, i, z)|
    ensures Span(bs[..i + 1 + t]) == Span(bs[..i]) + Gathered(Marker + bs[i].size, Behind(bs, i, z), t)
  {
    hide Span, ZeroChain;
    assert Behind(bs, i, z)[..t] == bs[i + 1..i + 1 + t];
    assert bs[..i + 1 + t] == bs[..i] + ([bs[i]] + bs[i + 1..i + 1 + t]);
    SpanConcat(bs[..i], [bs[i]] + bs[i + 1..i + 1 + t]);
    SpanConcat([bs[i]], bs[i + 1..i + 1 + t]);
    SpanOne(bs[i]);
  }

  /** Some payload in use, or its header, begins before the end of `size` bytes at `p`. */
  ghost predicate Blocked(live: map<nat, nat>, p: nat, size: nat) {
    exists q :: q in live && p < q < p + size + Marker
  }

  /** The merge loop finds enough exactly when the heap has the bytes and no payload in use is in their way. */
  lemma MergeFinds(m: bytes, lo: nat, bs: seq<Block>, i: nat, end: nat, size: nat)
    requires Tiled(m, lo, bs) && AllSized(bs) && i < |bs| && lo + Span(bs) <= end <= |m|
    requires Zeroed(m, lo + Span(bs), end) && (end - lo - Span(bs)) % 4 == 0
    ensures var z := (end - lo - Span(bs)) / 4; var cs := Behind(bs, i, z);
            var k := GatherCount(bs[i].size, cs, size); var p := lo + Span(bs[..i]) + Marker;
            Gathered(bs[i].size, cs, k) >= size <==> p + size <= end && !Blocked(Live(lo, bs), p, size)
  {
    hide Tiled, Span, Zeroed, GatherCount, ZeroChain, WordSized, Live, Behind;
    var z := (end - lo - Span(bs)) / 4;
    var cs, p, n := Behind(bs, i, z), lo + Span(bs[..i]) + Marker, |bs| - i - 1;
    var k := GatherCount(bs[i].size, cs, size);
    BehindTiles(m, lo, bs, i, end);
    MergeLeaves(m, lo, bs, i, end, size);
    GatherStops(bs[i].size, cs, size);
    if Gathered(bs[i].size, cs, k) >= size {
      forall q | q in Live(lo, bs) && p < q
        ensures q >= p + size + Marker
      {
        var j := LiveBlock(lo, bs, q);
        if j <= i {
          SpanPrefix(bs, j, i);
        } else {
          SpanBehind(bs, i, z, j - i - 1);
          SpanPrefix(cs, k, j - i - 1);
        }
      }
    } else if k == |cs| {
      assert cs[..k] == cs;
    } else {
      LiveAt(lo, bs, i + 1 + k);
      SpanBehind(bs, i, z, k);
    }
  }

  /** Memory after merge_contiguous has made the block `b` at `a`, with `cs` behind it, `size` bytes large. */
  ghost predicate AfterMerge(m: bytes, n: bytes, a: nat, b: Block, cs: seq<Block>, size: nat, end: nat) {
    var k := GatherCount(b.size, cs, size); var possible := Gathered(b.size, cs, k);
    && possible >= size && (possible > size ==> possible - size >= Marker)
    && a + Marker + possible <= end <= |m| == |n|
    && SameOutside(m, n, a, a + Marker + possible)
    && Tiled(n, a, Merged(b, possible, size) + cs[k..])
    && SamePayload(m, n, a + Marker, b.size)
  }

  /** The blocks after block `i` has grown by `k` blocks behind it. */
  ghost function GrownBlocks(bs: seq<Block>, i: nat, k: nat, size: nat): (r: seq<Block>)
    requires i + 1 + k <= |bs|
    requires var possible := Gathered(bs[i].size, bs[i + 1..], k); possible > size ==> possible - size >= Marker
  {
    bs[..i] + Merged(bs[i], Gathered(bs[i].size, bs[i + 1..], k), size) + bs[i + 1 + k..]
  }

  lemma BehindPrefix(bs: seq<Block>, i: nat, z: nat, k: nat)
    requires i + 1 + k <= |bs|
    ensures k <= |Behind(bs, i, z)| && Behind(bs, i, z)[..k] == bs[i + 1..][..k]
    ensures Behind(bs, i, z)[k..] == bs[i + 1 + k..] + ZeroChain(z)
    ensures Gathered(bs[i].size, Behind(bs, i, z), k) == Gathered(bs[i].size, bs[i + 1..], k)
  {
    hide Span, ZeroChain;
  }

  /** The facts that growing a block by blocks behind it in the chain rests on. */
  lemma GrownParts(m: bytes, n: bytes, lo: nat, bs: seq<Block>, i: nat, z: nat, end: nat, size: nat)
    requires Tiled(m, lo, bs) && AllSized(bs) && i < |bs| && bs[i].alloc && lo + Span(bs) <= end <= |m| == |n|
    requires Zeroed(m, lo + Span(bs), end) && size % 8 == 4 && bs[i].size < size
    requires i + 1 + GatherCount(bs[i].size, Behind(bs, i, z), size) <= |bs|
    requires AfterMerge(m, n, lo + Span(bs[..i]), bs[i], Behind(bs, i, z), size, end)
    ensures var k := GatherCount(bs[i].size, Behind(bs, i, z), size); var behind := bs[i + 1..];
            var a, possible := lo + Span(bs[..i]), Gathered(bs[i].size, behind, k);
            && bs == bs[..i] + [bs[i]] + behind && k <= |behind| && behind[k..] == bs[i + 1 + k..]
            && (forall j | 0 <= j < k :: !behind[j].alloc)
            && possible >= size && (possible > size ==> possible - size >= Marker)
            && a + Marker + possible <= |m| == |n| && SameOutside(m, n, a, a + Marker + possible)
            && Tiled(n, a, Merged(bs[i], possible, size) + behind[k..]) && SamePayload(m, n, a + Marker, bs[i].size)
  {
    hide Tiled, Span, Live, Preserved, AllSized, SameOutside, Zeroed, Merged, GatherCount, Behind, Gathered;
    var a, b, cs := lo + Span(bs[..i]), bs[i], Behind(bs, i, z);
    var k := GatherCount(b.size, cs, size);
    BehindPrefix(bs, i, z, k);
    var behind := bs[i + 1..];
    FreeBehind(b.size, cs, behind, size);
    DropZeros(n, a, Merged(b, Gathered(b.size, behind, k), size), behind[k..], z);
  }

  /** What stays as it was. */
  lemma GrownKeeps(m: bytes, n: bytes, lo: nat, bs: seq<Block>, i: nat, z: nat, end: nat, size: nat)
    requires Tiled(m, lo, bs) && AllSized(bs) && i < |bs| && bs[i].alloc && lo + Span(bs) <= end <= |m| == |n|
    requires Zeroed(m, lo + Span(bs), end) && size % 8 == 4 && bs[i].size < size
    requires i + 1 + GatherCount(bs[i].size, Behind(bs, i, z), size) <= |bs|
    requires AfterMerge(m, n, lo + Span(bs[..i]), bs[i], Behind(bs, i, z), size, end)
    ensures Zeroed(n, lo + Span(bs), end) && Preserved(m, n, Live(lo, bs)) && SameOutside(m, n, lo, end)
  {
    hide Tiled, Span, Live, Preserved, AllSized, SameOutside, Zeroed, Merged, GatherCount, Behind, Gathered, AfterMerge;
    GrownParts(m, n, lo, bs, i, z, end, size);
    var a, b, behind := lo + Span(bs[..i]), bs[i], bs[i + 1..];
    var k := GatherCount(b.size, Behind(bs, i, z), size);
    var possible := Gathered(b.size, behind, k);
    MergeStep(m, n, lo, bs[..i], b, behind, k, size);
    InsideSpan(bs, i, k);
    GrownOutsideChain(m, n, lo, lo + Span(bs), end, a, a + Marker + possible);
    GrownLive(m, n, Live(lo, bs[..i]), a, b, a + Marker + possible, behind[k..], size);
  }

  /** Growing a block by free blocks of the allocated part. */
  lemma GrownInside(m: bytes, n: bytes, lo: nat, bs: seq<Block>, i: nat, z: nat, end: nat, size: nat)
    requires Tiled(m, lo, bs) && AllSized(bs) && i < |bs| && bs[i].alloc && lo + Span(bs) <= end <= |m| == |n|
    requires Zeroed(m, lo + Span(bs), end) && size % 8 == 4 && bs[i].size < size
    requires i + 1 + GatherCount(bs[i].size, Behind(bs, i, z), size) <= |bs|
    requires AfterMerge(m, n, lo + Span(bs[..i]), bs[i], Behind(bs, i, z), size, end)
    ensures var k := GatherCount(bs[i].size, Behind(bs, i, z), size);
            && (var possible := Gathered(bs[i].size, bs[i + 1..], k); possible > size ==> possible - size >= Marker)
            && var bs' := GrownBlocks(bs, i, k, size);
               && Tiled(n, lo, bs') && AllSized(bs') && Span(bs') == Span(bs) && Zeroed(n, lo + Span(bs), end)
               && Live(lo, bs') == Live(lo, bs)[lo + Span(bs[..i]) + Marker := size]
               && Preserved(m, n, Live(lo, bs)) && SameOutside(m, n, lo, end)
  {
    hide Tiled, Span, Live, Preserved, AllSized, SameOutside, Zeroed, Merged, GatherCount, Behind, Gathered, AfterMerge;
    GrownParts(m, n, lo, bs, i, z, end, size);
    GrownKeeps(m, n, lo, bs, i, z, end, size);
    var a, b, behind := lo + Span(bs[..i]), bs[i], bs[i + 1..];
    var k := GatherCount(b.size, Behind(bs, i, z), size);
    MergeStep(m, n, lo, bs[..i], b, behind, k, size);
    GrownLive(m, n, Live(lo, bs[..i]), a, b, a + Marker + Gathered(b.size, behind, k), behind[k..], size);
  }

  lemma FreeBehind(total: nat, cs: seq<Block>, behind: seq<Block>, needed: nat)
    requires var k := GatherCount(total, cs, needed); k <= |behind| && cs[..k] == behind[..k]
    ensures forall j | 0 <= j < GatherCount(total, cs, needed) :: !behind[j].alloc
  {
    GatherStops(total, cs, needed);
    var k := GatherCount(total, cs, needed);
    forall j | 0 <= j < k
      ensures !behind[j].alloc
    {
      assert behind[j] == behind[..k][j] == cs[..k][j] == cs[j];
    }
  }

  lemma DropZeros(n: bytes, a: nat, merged: seq<Block>, rest: seq<Block>, z: nat)
    requires Tiled(n, a, merged + (rest + ZeroChain(z)))
    ensures Tiled(n, a, merged + rest)
  {
    hide Tiled, ZeroChain;
    assert merged + (rest + ZeroChain(z)) == merged + rest + ZeroChain(z);
    TiledConcat(n, a, merged + rest, ZeroChain(z));
  }

  lemma GrownOutsideChain(m: bytes, n: bytes, lo: nat, top: nat, end: nat, a: nat, c: nat)
    requires lo <= a <= c <= top <= end <= |m| == |n| && Zeroed(m, top, end) && SameOutside(m, n, a, c)
    ensures Zeroed(n, top, end) && SameOutside(m, n, lo, end)
  {
    ZeroedFrame(m, n, top, end, a, c);
    NoDifference(m, lo, end);
    OutsideInHeap(m, m, n, a, c, lo, end);
  }

  lemma GrownLive(m: bytes, n: bytes, x: map<nat, nat>, a: nat, b: Block, c: nat, post: seq<Block>, size: nat)
    requires Preserved(m, n, x) && Preserved(m, n, Live(c, post)) && SamePayload(m, n, a + Marker, b.size) && b.alloc && a <= c
    ensures Preserved(m, n, x + LiveOne(a, b) + Live(c, post))
    ensures x + LiveOne(a, Block(size, true)) + Live(c, post) == (x + LiveOne(a, b) + Live(c, post))[a + Marker := size] || a == c
  {
    hide Preserved, Live;
    PreservedThree(m, n, x, LiveOne(a, b), Live(c, post), a + Marker, b.size);
    if a < c {
      LiveAbove(c, post, a + Marker);
      LargerPayload(x, Live(c, post), a, b, size);
    }
  }

  lemma LargerPayload(x: map<nat, nat>, z: map<nat, nat>, a: nat, b: Block, size: nat)
    requires b.alloc && a + Marker !in z
    ensures x + LiveOne(a, Block(size, true)) + z == (x + LiveOne(a, b) + z)[a + Marker := size]
  {
  }

  lemma InsideSpan(bs: seq<Block>, i: nat, k: nat)
    requires i + 1 + k <= |bs|
    ensures Span(bs[..i]) + Marker + Gathered(bs[i].size, bs[i + 1..], k) <= Span(bs)
  {
    hide Span;
    assert bs == bs[..i] + bs[i..];
    SpanConcat(bs[..i], bs[i..]);
    assert bs[i..][1..] == bs[i + 1..];
    SpanOfRun(bs[i..], k);
  }

  /** Some chain of blocks tiles exactly the allocated part. */
  ghost predicate HasTiling(m: bytes, lo: nat, offset: nat) {
    exists bs :: Tiled(m, lo, bs) && Span(bs) == offset
  }

  /** A block that ends behind the allocated part leaves no way to tile it. */
  lemma GrownOutside(m: bytes, n: bytes, lo: nat, bs: seq<Block>, i: nat, end: nat, size: nat, merged: seq<Block>, tail: seq<Block>)
    requires Tiled(m, lo, bs) && i < |bs| && lo + Span(bs) < end <= |m| == |n|
    requires OnlyFreeBehind(bs, i, size)
    requires var a := lo + Span(bs[..i]);
             && a <= end && SameOutside(m, n, a, end)
             && merged != [] && merged[0].size == size
             && Tiled(n, a, merged + tail) && a + Span(merged + tail) == end
    ensures !HasTiling(n, lo, Span(bs))
  {
    hide Tiled, Span, SameOutside;
    var pre := bs[..i];
    var a := lo + Span(pre);
    var full := pre + (merged + tail);
    BlockAt(m, lo, bs, i);
    assert bs == pre + bs[i..];
    TiledConcat(m, lo, pre, bs[i..]);
    SliceOutside(m, n, a, end, lo, a);
    TiledFrame(m, n, lo, pre);
    TiledConcat(n, lo, pre, merged + tail);
    SpanConcat(pre, merged + tail);
    forall other | Tiled(n, lo, other) && Span(other) == Span(bs)
      ensures false
    {
      if |other| <= |full| {
        TilingUnique(n, lo, other, full);
        if |other| <= i {
          assert full[..|other|] == pre[..|other|];
          SpanPrefix(pre, |other|, i);
        } else {
          assert full[..i] == pre && full[i] == merged[0];
          SpanPrefix(full, i, |other|);
        }
      } else {
        TilingUnique(n, lo, full, other);
        SpanPrefix(other, |full|, |full|);
      }
    }
  }

  /** The merge loop has taken in unwritten memory, and the grown block ends behind the allocated part. */
  lemma GrownPast(m: bytes, n: bytes, lo: nat, bs: seq<Block>, i: nat, end: nat, size: nat)
    requires Tiled(m, lo, bs) && AllSized(bs) && i < |bs| && lo + Span(bs) < end <= |m| == |n|
    requires Zeroed(m, lo + Span(bs), end) && (end - lo - Span(bs)) % 4 == 0 && OnlyFreeBehind(bs, i, size)
    requires AfterMerge(m, n, lo + Span(bs[..i]), bs[i], Behind(bs, i, (end - lo - Span(bs)) / 4), size, end)
    ensures !HasTiling(n, lo, Span(bs))
  {
    hide Tiled, Span, SameOutside, Merged, GatherCount, Gathered, OnlyFreeBehind, HasTiling, Behind, AllSized, Zeroed, WordSized;
    var a, z := lo + Span(bs[..i]), (end - lo - Span(bs)) / 4;
    var cs := Behind(bs, i, z);
    var k := GatherCount(bs[i].size, cs, size);
    var possible := Gathered(bs[i].size, cs, k);
    var merged := Merged(bs[i], possible, size);
    BehindTiles(m, lo, bs, i, end);
    BehindRest(bs[i].size, cs, k);
    MergedFirst(bs[i], possible, size);
    MergedSpan(bs[i], possible, size);
    SpanConcat(merged, cs[k..]);
    NoDifference(m, a, end);
    OutsideInHeap(m, m, n, a, a + Marker + possible, a, end);
    GrownOutside(m, n, lo, bs, i, end, size, merged, cs[k..]);
  }

  /** Writing inside one payload leaves the chain and all other payloads as they are. */
  lemma PayloadChange(m: bytes, n: bytes, lo: nat, bs: seq<Block>, i: nat, p: nat, x: nat, y: nat, end: nat)
    requires Tiled(m, lo, bs) && i < |bs| && bs[i].alloc && lo + Span(bs) <= end <= |m| == |n| && Zeroed(m, lo + Span(bs), end)
    requires p == lo + Span(bs[..i]) + Marker && p <= x <= y <= p + bs[i].size && y <= |m| && SameOutside(m, n, x, y)
    ensures Tiled(n, lo, bs) && Zeroed(n, lo + Span(bs), end) && SameOutside(m, n, lo, end)
    ensures Preserved(m, n, Live(lo, bs)[p := x - p])
  {
    hide Tiled, Span, Live, SameOutside, Preserved, Zeroed, ReadWord;
    BlockAt(m, lo, bs, i);
    ZeroedFrame(m, n, lo + Span(bs), end, x, y);
    NoDifference(m, lo, end);
    OutsideInHeap(m, m, n, x, y, lo, end);
    PayloadChain(m, n, lo, bs, i, x, y);
  }

  lemma PayloadChain(m: bytes, n: bytes, lo: nat, bs: seq<Block>, i: nat, x: nat, y: nat)
    requires Tiled(m, lo, bs) && i < |bs| && bs[i].alloc && lo + Span(bs) <= |m| == |n|
    requires var p := lo + Span(bs[..i]) + Marker; p <= x <= y <= p + bs[i].size && y <= |m| && SameOutside(m, n, x, y)
    ensures Tiled(n, lo, bs)
    ensures var p := lo + Span(bs[..i]) + Marker; Preserved(m, n, Live(lo, bs)[p := x - p])
  {
    hide Tiled, Span, Live, SameOutside, Preserved, Zeroed, ReadWord;
    BlockAt(m, lo, bs, i);
    assert bs == bs[..i] + [bs[i]] + bs[i + 1..];
    PayloadParts(m, n, lo, bs[..i], bs[i], bs[i + 1..], x, y);
  }

  lemma PayloadParts(m: bytes, n: bytes, lo: nat, pre: seq<Block>, b: Block, post: seq<Block>, x: nat, y: nat)
    requires Tiled(m, lo, pre + [b] + post) && b.alloc && lo + Span(pre + [b] + post) <= |m| == |n|
    requires b.size < AllocMask && lo + Span(pre) + 4 <= |m| && ReadWord(m, lo + Span(pre)) == Header(b)
    requires var p := lo + Span(pre) + Marker; p <= x <= y <= p + b.size <= |m| && SameOutside(m, n, x, y)
    ensures Tiled(n, lo, pre + [b] + post)
    ensures var p := lo + Span(pre) + Marker; Preserved(m, n, Live(lo, pre + [b] + post)[p := x - p])
  {
    hide Tiled, Span, Live, SameOutside, Preserved, ReadWord;
    var a := lo + Span(pre);
    var len := x - (a + Marker);
    SpanOne(b);
    SpanConcat(pre + [b], post);
    SpanConcat(pre, [b]);
    NoDifference(m, a, a + Span([b]));
    OutsideInHeap(m, m, n, x, y, a, a + Span([b]));
    PayloadTiled(m, n, lo, pre, b, post, x, y);
    SliceOutside(m, n, x, y, a + Marker, a + Marker + len);
    PayloadCut(m, n, lo, pre, b, post, len);
  }

  lemma PayloadTiled(m: bytes, n: bytes, lo: nat, pre: seq<Block>, b: Block, post: seq<Block>, x: nat, y: nat)
    requires Tiled(m, lo, pre + [b] + post) && lo <= |m| == |n|
    requires var a := lo + Span(pre);
             && a + Marker <= x <= y <= a + Marker + b.size <= |m| && SameOutside(m, n, x, y)
             && b.size < AllocMask && ReadWord(m, a) == Header(b)
             && SameOutside(m, n, a, a + Span([b]))
    ensures Tiled(n, lo, pre + [b] + post)
  {
    hide Tiled, Span, SameOutside, ReadWord;
    var a := lo + Span(pre);
    SliceOutside(m, n, x, y, a, a + 4);
    ReadFrame(m, n, a);
    OneBlock(n, a, b);
    TiledReplace(m, n, lo, pre, [b], [b], post);
  }

  lemma PayloadCut(m: bytes, n: bytes, lo: nat, pre: seq<Block>, b: Block, post: seq<Block>, len: nat)
    requires |m| == |n| && b.alloc && lo + Span(pre) + Span([b]) + Span(post) <= |m|
    requires SameOutside(m, n, lo + Span(pre), lo + Span(pre) + Span([b]))
    requires SamePayload(m, n, lo + Span(pre) + Marker, len)
    ensures Preserved(m, n, Live(lo, pre + [b] + post)[lo + Span(pre) + Marker := len])
  {
    hide Span, Live, SameOutside, Preserved;
    var a := lo + Span(pre);
    var p := a + Marker;
    PreservedAround(m, n, lo, pre, [b], post);
    LiveReplace(lo, pre, [b], [b], post);
    LiveSingle(a, b);
    SpanOne(b);
    LiveBelow(lo, pre, p);
    LiveAbove(a + Span([b]), post, p);
    PreservedThree(m, n, Live(lo, pre), map[p := len], Live(a + Span([b]), post), p, len);
    assert Live(lo, pre + [b] + post)[p := len] == Live(lo, pre) + map[p := len] + Live(a + Span([b]), post);
  }

  /** Giving the last block a larger size. */
  lemma ResizeLast(m: bytes, lo: nat, bs: seq<Block>, size: nat, end: nat)
    requires bs != [] && Tiled(m, lo, bs) && AllSized(bs) && bs[|bs| - 1].alloc && size % 8 == 4 && size < AllocMask
    requires bs[|bs| - 1].size <= size && Zeroed(m, lo + Span(bs), end)
    requires lo + Span(bs) <= end <= |m| && lo + Span(bs[..|bs| - 1]) + Marker + size <= end
    ensures var i := |bs| - 1; var a, b := lo + Span(bs[..i]), Block(size, true);
            var n, bs' := WriteWord(m, a, Header(b)), bs[..i] + [b];
            && Tiled(n, lo, bs') && AllSized(bs') && Span(bs') == Span(bs) + size - bs[i].size
            && Zeroed(n, lo + Span(bs'), end)
            && Live(lo, bs') == Live(lo, bs)[a + Marker := size]
            && Preserved(m, n, Live(lo, bs)) && SameOutside(m, n, lo, end)
  {
    hide Tiled, Span, Live, SameOutside, Preserved, Zeroed, ReadWord, WriteWord;
    var i := |bs| - 1;
    var pre, c, b := bs[..i], bs[i], Block(size, true);
    var a := lo + Span(pre);
    var n := WriteWord(m, a, Header(b));
    BlockAt(m, lo, bs, i);
    assert bs == pre + [c];
    TiledConcat(m, lo, pre, [c]);
    SpanConcat(pre, [c]);
    SpanConcat(pre, [b]);
    SpanOne(b);
    SpanOne(c);
    WriteOutside(m, a, Header(b), a, a + 4);
    WriteOutside(m, a, Header(b), lo, end);
    WriteOutside(m, a, Header(b), a, a + Span([c]));
    SliceOutside(m, n, a, a + 4, lo, a);
    TiledFrame(m, n, lo, pre);
    ReadBack(m, a, Header(b));
    OneBlock(n, a, b);
    TiledConcat(n, lo, pre, [b]);
    SizedTail(bs, i);
    ZeroedTail(m, lo + Span(bs), a + Marker + size, end);
    ZeroedFrame(m, n, a + Marker + size, end, a, a + 4);
    SliceOutside(m, n, a, a + 4, a + Marker, a + Marker + c.size);
    ResizeLive(m, n, lo, pre, c, size);
  }

  lemma ResizeLive(m: bytes, n: bytes, lo: nat, pre: seq<Block>, c: Block, size: nat)
    requires |m| == |n| && c.alloc && lo + Span(pre) + Span([c]) <= |m|
    requires SameOutside(m, n, lo + Span(pre), lo + Span(pre) + Span([c]))
    requires SamePayload(m, n, lo + Span(pre) + Marker, c.size)
    ensures Live(lo, pre + [Block(size, true)]) == Live(lo, pre + [c])[lo + Span(pre) + Marker := size]
    ensures Preserved(m, n, Live(lo, pre + [c]))
  {
    hide Span, Live, SameOutside, Preserved;
    var a, b := lo + Span(pre), Block(size, true);
    SpanNone();
    PreservedAround(m, n, lo, pre, [c], []);
    LiveConcat(lo, pre, [c]);
    LiveConcat(lo, pre, [b]);
    LiveSingle(a, b);
    LiveSingle(a, c);
    LargerPayload(Live(lo, pre), map[], a, c, size);
    NoPayload(m, n);
    PreservedThree(m, n, Live(lo, pre), LiveOne(a, c), map[], a + Marker, c.size);
    assert Live(lo, pre) + LiveOne(a, c) + map[] == Live(lo, pre) + LiveOne(a, c);
    assert Live(lo, pre) + LiveOne(a, b) + map[] == Live(lo, pre) + LiveOne(a, b);
  }

  lemma NoPayload(m: bytes, n: bytes)
    ensures Preserved(m, n, map[])
  {
  }

  /** The last block of a chain is the one that ends where the chain ends. */
  lemma IsLast(bs: seq<Block>, i: nat)
    requires AllSized(bs) && i < |bs|
    ensures Span(bs[..i]) + Marker + bs[i].size == Span(bs) <==> i + 1 == |bs|
  {
    hide Span;
    assert bs == bs[..i] + ([bs[i]] + bs[i + 1..]);
    SpanConcat(bs[..i], [bs[i]] + bs[i + 1..]);
    SpanConcat([bs[i]], bs[i + 1..]);
    SpanOne(bs[i]);
    SizedTail(bs, i + 1);
    NothingLeft(bs[i + 1..]);
  }

  lemma WriteSame(m: bytes, a: nat)
    requires a + 4 <= |m|
    ensures WriteWord(m, a, ReadWord(m, a)) == m
  {
    SplitJoin(m[a], m[a + 1], m[a + 2], m[a + 3]);
    assert m[a..a + 4] == [m[a], m[a + 1], m[a + 2], m[a + 3]];
    assert m == m[..a] + m[a..a + 4] + m[a + 4..];
  }

  lemma SplitJoin(a: byte, b: byte, c: byte, d: byte)
    ensures WordBytes(Join(a, b, c, d)) == [a, b, c, d]
  {
    var w := Join(a, b, c, d);
    assert w / 0x100 == b as int + 0x100 * c as int + 0x1_0000 * d as int;
    assert w / 0x1_0000 == c as int + 0x100 * d as int;
    assert w / 0x100_0000 == d;
  }
}
