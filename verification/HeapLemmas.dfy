/** Lemmas about the chain of a heap under the operations of malloc.cpp. */
module HeapModel {
  import opened Bytes
  import opened BlockChain
  import opened FreeRuns
  import opened LinearMemory

  /** No byte of [lo, hi) has been written yet. */
  ghost predicate Zeroed(m: bytes, lo: nat, hi: nat) {
    hi <= |m| && forall i | lo <= i < hi :: m[i] == 0
  }

  /** Unwritten memory reads as a chain of free blocks of size zero. */
  ghost function ZeroChain(n: nat): (r: seq<Block>)
    ensures |r| == n
  {
    if n == 0 then [] else [Block(0, false)] + ZeroChain(n - 1)
  }

  lemma {:induction false} ZeroChainForm(n: nat)
    ensures Span(ZeroChain(n)) == 4 * n && WordSized(ZeroChain(n))
    ensures forall i | 0 <= i < n :: ZeroChain(n)[i] == Block(0, false)
  {
    if n > 0 {
      ZeroChainForm(n - 1);
      assert ZeroChain(n)[1..] == ZeroChain(n - 1);
    }
  }

  lemma {:induction false} ZeroChainTiles(m: bytes, lo: nat, n: nat)
    requires Zeroed(m, lo, lo + 4 * n)
    ensures Tiled(m, lo, ZeroChain(n))
    decreases n
  {
    hide ReadWord;
    if n > 0 {
      ZeroChainTiles(m, lo + 4, n - 1);
      ZeroWord(m, lo);
      assert ZeroChain(n)[1..] == ZeroChain(n - 1);
      assert ZeroChain(n)[0] == Block(0, false);
    }
  }

  lemma ZeroWord(m: bytes, lo: nat)
    requires Zeroed(m, lo, lo + 4)
    ensures ReadWord(m, lo) == Header(Block(0, false))
  {
    assert m[lo] == 0 && m[lo + 1] == 0 && m[lo + 2] == 0 && m[lo + 3] == 0;
  }

  lemma ZeroedFrame(m: bytes, n: bytes, lo: nat, hi: nat, a: nat, b: nat)
    requires Zeroed(m, lo, hi) && SameOutside(m, n, a, b) && (hi <= a || b <= lo || lo >= hi)
    ensures Zeroed(n, lo, hi)
  {
    forall i | lo <= i < hi
      ensures n[i] == 0
    {
      SliceOutside(m, n, a, b, i, i + 1);
      assert m[i] == m[i..i + 1][0] == n[i..i + 1][0] == n[i];
    }
  }

  /** The payload at `q` with `len` bytes holds the same bytes. */
  ghost predicate SamePayload(m: bytes, n: bytes, q: nat, len: nat) {
    q + len <= |m| && q + len <= |n| && m[q..q + len] == n[q..q + len]
  }

  /** All payloads of `live` hold the same bytes. */
  ghost predicate Preserved(m: bytes, n: bytes, live: map<nat, nat>) {
    forall q | q in live :: SamePayload(m, n, q, live[q])
  }

  lemma PreservedTrans(m: bytes, n: bytes, p: bytes, live: map<nat, nat>)
    requires Preserved(m, n, live) && Preserved(n, p, live)
    ensures Preserved(m, p, live)
  {
    forall q | q in live
      ensures SamePayload(m, p, q, live[q])
    {
      assert SamePayload(m, n, q, live[q]) && SamePayload(n, p, q, live[q]);
    }
  }

  /** Writing only into the middle of a chain keeps every payload in use before and behind it. */
  lemma PreservedAround(m: bytes, n: bytes, lo: nat, pre: seq<Block>, mid: seq<Block>, post: seq<Block>)
    requires |m| == |n| && SameOutside(m, n, lo + Span(pre), lo + Span(pre) + Span(mid))
    requires lo + Span(pre) + Span(mid) + Span(post) <= |m|
    ensures Preserved(m, n, Live(lo, pre))
    ensures Preserved(m, n, Live(lo + Span(pre) + Span(mid), post))
  {
    hide Span, Live, SameOutside;
    var a := lo + Span(pre);
    var b := a + Span(mid);
    forall q | q in Live(lo, pre)
      ensures SamePayload(m, n, q, Live(lo, pre)[q])
    {
      LiveInside(lo, pre, q);
      SliceOutside(m, n, a, b, q, q + Live(lo, pre)[q]);
    }
    forall q | q in Live(b, post)
      ensures SamePayload(m, n, q, Live(b, post)[q])
    {
      LiveInside(b, post, q);
      SliceOutside(m, n, a, b, q, q + Live(b, post)[q]);
    }
  }

  lemma PreservedUnion(m: bytes, n: bytes, x: map<nat, nat>, y: map<nat, nat>, z: map<nat, nat>)
    requires Preserved(m, n, x) && Preserved(m, n, z)
    ensures Preserved(m, n, x + z)
    ensures y == map[] ==> x + y + z == x + z
  {
  }

  lemma {:induction false} LiveSized(lo: nat, bs: seq<Block>, p: nat)
    requires AllSized(bs) && p in Live(lo, bs)
    ensures Live(lo, bs)[p] % 8 == 4
  {
    var i := LiveBlock(lo, bs, p);
  }

  lemma NothingChanged(m: bytes, lo: nat, bs: seq<Block>)
    requires Tiled(m, lo, bs) && lo <= |m|
    ensures Preserved(m, m, Live(lo, bs))
  {
    TiledInside(m, lo, bs);
    forall q | q in Live(lo, bs)
      ensures SamePayload(m, m, q, Live(lo, bs)[q])
    {
      LiveInside(lo, bs, q);
    }
  }

  /** Writing the header of a block behind the chain makes the chain longer by this block. */
  lemma AppendBlock(m: bytes, lo: nat, bs: seq<Block>, b: Block, end: nat)
    requires Tiled(m, lo, bs) && AllSized(bs) && b.size % 8 == 4 && b.size < AllocMask
    requires lo + Span(bs) + Marker + b.size <= end <= |m| && Zeroed(m, lo + Span(bs), end)
    ensures var a := lo + Span(bs); var n := WriteWord(m, a, Header(b));
            && Tiled(n, lo, bs + [b]) && AllSized(bs + [b]) && Span(bs + [b]) == Span(bs) + Marker + b.size
            && Zeroed(n, a + Marker + b.size, end)
            && SameOutside(m, n, a, a + Marker + b.size) && SameOutside(m, n, a, end)
            && Preserved(m, n, Live(lo, bs))
            && a + Marker !in Live(lo, bs)
            && Live(lo, bs + [b]) == if b.alloc then Live(lo, bs)[a + Marker := b.size] else Live(lo, bs)
  {
    hide Tiled, Span, Live, WriteWord, ReadWord, SameOutside, Preserved, Zeroed;
    var a := lo + Span(bs);
    var n := WriteWord(m, a, Header(b));
    WriteOutside(m, a, Header(b), a, a + 4);
    WriteOutside(m, a, Header(b), a, a + Marker + b.size);
    WriteOutside(m, a, Header(b), a, end);
    SliceOutside(m, n, a, a + 4, lo, a);
    TiledFrame(m, n, lo, bs);
    ReadBack(m, a, Header(b));
    OneBlock(n, a, b);
    TiledConcat(n, lo, bs, [b]);
    SpanConcat(bs, [b]);
    SpanOne(b);
    ZeroedTail(m, a, a + Marker + b.size, end);
    ZeroedFrame(m, n, a + Marker + b.size, end, a, a + 4);
    SpanNone();
    PreservedAround(m, n, lo, bs, [b], []);
    LiveConcat(lo, bs, [b]);
    LiveSingle(a, b);
    LiveBelow(lo, bs, a + Marker);
  }

  lemma ZeroedTail(m: bytes, lo: nat, mid: nat, hi: nat)
    requires Zeroed(m, lo, hi) && lo <= mid
    ensures Zeroed(m, mid, hi)
  {
  }

  lemma SpanNone()
    ensures Span([]) == 0
  {
  }

  lemma LiveSingle(lo: nat, b: Block)
    ensures Live(lo, [b]) == LiveOne(lo, b)
  {
  }

  /** The header in memory of block `i` of a chain. */
  lemma BlockAt(m: bytes, lo: nat, bs: seq<Block>, i: nat)
    requires Tiled(m, lo, bs) && lo <= |m| && i < |bs|
    ensures bs[i].size < AllocMask && lo + Span(bs[..i]) + Marker + bs[i].size <= |m|
    ensures lo + Span(bs[..i]) + Marker + bs[i].size <= lo + Span(bs)
    ensures ReadWord(m, lo + Span(bs[..i])) == Header(bs[i])
    ensures Tiled(m, lo + Span(bs[..i]), bs[i..])
    ensures Span(bs) == Span(bs[..i]) + Span(bs[i..])
  {
    hide Span, ReadWord;
    TiledInside(m, lo, bs);
    assert bs == bs[..i] + bs[i..];
    TiledConcat(m, lo, bs[..i], bs[i..]);
    SpanConcat(bs[..i], bs[i..]);
    assert bs[i..] == [bs[i]] + bs[i + 1..];
    SpanConcat([bs[i]], bs[i + 1..]);
    SpanOne(bs[i]);
  }

  /** Changing the state bit of one block changes that block's state. */
  lemma ChangeState(m: bytes, lo: nat, bs: seq<Block>, i: nat, alloc: bool, end: nat)
    requires Tiled(m, lo, bs) && AllSized(bs) && i < |bs| && lo + Span(bs) <= end <= |m|
    requires bs[i].size < AllocMask && lo + Span(bs[..i]) + 4 <= |m|
    requires Zeroed(m, lo + Span(bs), end)
    ensures var a := lo + Span(bs[..i]); var b := Block(bs[i].size, alloc);
            var n := WriteWord(m, a, Header(b)); var bs' := bs[i := b];
            && Tiled(n, lo, bs') && AllSized(bs') && Span(bs') == Span(bs)
            && Zeroed(n, lo + Span(bs), end)
            && SameOutside(m, n, a, a + Marker)
            && Preserved(m, n, Live(lo, bs))
            && Live(lo, bs') == if alloc then Live(lo, bs)[a + Marker := bs[i].size] else Live(lo, bs) - {a + Marker}
  {
    hide Tiled, Span, Live, WriteWord, ReadWord, SameOutside, Zeroed, Preserved;
    BlockAt(m, lo, bs, i);
    var a, b := lo + Span(bs[..i]), Block(bs[i].size, alloc);
    var n := WriteWord(m, a, Header(b));
    var pre, post := bs[..i], bs[i + 1..];
    assert bs == pre + [bs[i]] + post && bs[i := b] == pre + [b] + post;
    SpanOne(b);
    SpanOne(bs[i]);
    SpanConcat(pre + [b], post);
    SpanConcat(pre, [b]);
    SpanConcat(pre + [bs[i]], post);
    SpanConcat(pre, [bs[i]]);
    WriteOutside(m, a, Header(b), a, a + 4);
    WriteOutside(m, a, Header(b), a, a + Span([b]));
    ReadBack(m, a, Header(b));
    OneBlock(n, a, b);
    TiledReplace(m, n, lo, pre, [bs[i]], [b], post);
    ZeroedFrame(m, n, lo + Span(bs), end, a, a + 4);
    ChangeLive(lo, pre, bs[i], alloc, post);
    PreservedAround(m, n, lo, pre, [bs[i]], post);
    SliceOutside(m, n, a, a + 4, a + Marker, a + Marker + bs[i].size);
    LiveReplace(lo, pre, [bs[i]], [b], post);
    LiveSingle(a, bs[i]);
    PreservedThree(m, n, Live(lo, pre), LiveOne(a, bs[i]), Live(a + Span([bs[i]]), post), a + Marker, bs[i].size);
  }

  lemma PreservedThree(m: bytes, n: bytes, x: map<nat, nat>, y: map<nat, nat>, z: map<nat, nat>, p: nat, len: nat)
    requires Preserved(m, n, x) && Preserved(m, n, z) && SamePayload(m, n, p, len)
    requires y == map[] || y == map[p := len]
    ensures Preserved(m, n, x + y + z)
  {
  }

  lemma ChangeLive(lo: nat, pre: seq<Block>, b: Block, alloc: bool, post: seq<Block>)
    ensures var p := lo + Span(pre) + Marker; var live := Live(lo, pre + [b] + post);
            Live(lo, pre + [Block(b.size, alloc)] + post) == if alloc then live[p := b.size] else live - {p}
  {
    hide Span, Live;
    var a, c := lo + Span(pre), Block(b.size, alloc);
    SpanOne(b);
    SpanOne(c);
    LiveReplace(lo, pre, [b], [c], post);
    LiveSingle(a, b);
    LiveSingle(a, c);
    LiveBelow(lo, pre, a + Marker);
    LiveAbove(a + Span([b]), post, a + Marker);
  }

  /** How the search continues behind its first block or behind the blocks merged into it. */
  lemma FirstFitStep(bs: seq<Block>, needed: nat)
    requires Splittable(bs, needed) && bs != []
    ensures bs[0].alloc ==>
              && Splittable(bs[1..], needed)
              && FirstFit(bs, needed) == (var r := FirstFit(bs[1..], needed); Fit(r.found, Marker + bs[0].size + r.offset, [bs[0]] + r.blocks))
    ensures !bs[0].alloc ==>
              var k := GatherCount(bs[0].size, bs[1..], needed);
              var possible := Gathered(bs[0].size, bs[1..], k);
              && Splittable(bs[k + 1..], needed) && bs[k + 1..] == bs[1..][k..]
              && (possible > needed ==> possible - needed >= Marker)
              && FirstFit(bs, needed) ==
                 if possible >= needed then Fit(true, 0, Merged(Block(0, true), possible, needed) + bs[k + 1..])
                 else var r := FirstFit(bs[k + 1..], needed); Fit(r.found, Marker + possible + r.offset, [Block(possible, false)] + r.blocks)
  {
    if !bs[0].alloc {
      GatherSized(bs[0].size, bs[1..], needed, GatherCount(bs[0].size, bs[1..], needed));
    }
  }

  lemma WordsOfSized(bs: seq<Block>)
    requires AllSized(bs) && bs != []
    ensures bs[0].size % 4 == 0 && WordSized(bs[1..])
  {
    forall i | 0 <= i < |bs|
      ensures bs[i].size % 4 == 0
    {
      Mod8(bs[i].size);
    }
  }

  lemma FreePrefixTail(bs: seq<Block>, needed: nat)
    requires bs != []
    ensures forall i | 0 <= i < GatherCount(bs[0].size, bs[1..], needed) :: !bs[1..][i].alloc
  {
    GatherStops(bs[0].size, bs[1..], needed);
  }

  /** The block behind `pre` and the blocks behind it, as merge_contiguous wants them. */
  lemma MergeReady(m: bytes, lo: nat, pre: seq<Block>, rest: seq<Block>)
    requires Tiled(m, lo, pre + rest) && AllSized(pre + rest) && rest != [] && lo + Span(pre + rest) <= |m|
    ensures rest == [rest[0]] + rest[1..]
    ensures Tiled(m, lo + Span(pre), [rest[0]] + rest[1..])
    ensures Span(pre + rest) == Span(pre) + Marker + rest[0].size + Span(rest[1..])
    ensures AllSized(rest) && rest[0].size % 4 == 0 && WordSized(rest[1..])
  {
    hide Tiled, Span;
    assert rest == [rest[0]] + rest[1..];
    TiledConcat(m, lo, pre, rest);
    SpanConcat(pre, rest);
    SpanConcat([rest[0]], rest[1..]);
    SpanOne(rest[0]);
    assert (pre + rest)[|pre|..] == rest;
    SizedTail(pre + rest, |pre|);
    WordsOfSized(rest);
  }

  /** The blocks after merging the first `k` + 1 of `rest` behind `pre`. */
  ghost function Coalesced(pre: seq<Block>, rest: seq<Block>, k: nat, needed: nat): (r: seq<Block>)
    requires k < |rest|
    requires var possible := Gathered(rest[0].size, rest[1..], k); possible > needed ==> possible - needed >= Marker
  {
    pre + Merged(rest[0], Gathered(rest[0].size, rest[1..], k), needed) + rest[k + 1..]
  }

  /** Memory after merge_contiguous on the block `b` at `a` with `cs` behind it. */
  ghost predicate MergedAt(m: bytes, n: bytes, a: nat, b: Block, cs: seq<Block>, needed: nat, end: nat) {
    var k := GatherCount(b.size, cs, needed);
    var possible := Gathered(b.size, cs, k);
    && (possible > needed ==> possible - needed >= Marker)
    && a + Marker + possible <= end <= |m| == |n|
    && SameOutside(m, n, a, a + Marker + possible)
    && Tiled(n, a, Merged(b, possible, needed) + cs[k..])
  }

  /** What merging the first block of `rest` leaves as it was. */
  lemma CoalesceKeeps(m: bytes, n: bytes, lo: nat, pre: seq<Block>, rest: seq<Block>, needed: nat, end: nat)
    requires Tiled(m, lo, pre + rest) && AllSized(pre + rest) && rest != [] && lo + Span(pre + rest) == end <= |m| == |n|
    requires !rest[0].alloc && needed % 8 == 4 && MergedAt(m, n, lo + Span(pre), rest[0], rest[1..], needed, end)
    ensures Preserved(m, n, Live(lo, pre + rest)) && SameOutside(m, n, lo, end)
  {
    hide Tiled, Span, Live, Preserved, AllSized, SameOutside, Gathered, Merged, GatherCount;
    var b, cs := rest[0], rest[1..];
    var k := GatherCount(b.size, cs, needed);
    var a, possible := lo + Span(pre), Gathered(b.size, cs, k);
    FreePrefixTail(rest, needed);
    assert pre + rest == pre + [b] + cs;
    MergeStep(m, n, lo, pre, b, cs, k, needed);
    PreservedUnion(m, n, Live(lo, pre), LiveOne(a, b), Live(a + Marker + possible, cs[k..]));
    NoDifference(m, lo, end);
    OutsideInHeap(m, m, n, a, a + Marker + possible, lo, end);
  }

  /** The chain after merging. */
  lemma CoalesceTiles(m: bytes, n: bytes, lo: nat, pre: seq<Block>, rest: seq<Block>, needed: nat, end: nat)
    requires Tiled(m, lo, pre + rest) && AllSized(pre + rest) && rest != [] && lo + Span(pre + rest) == end <= |m| == |n|
    requires !rest[0].alloc && needed % 8 == 4 && MergedAt(m, n, lo + Span(pre), rest[0], rest[1..], needed, end)
    ensures var k := GatherCount(rest[0].size, rest[1..], needed);
            && (var possible := Gathered(rest[0].size, rest[1..], k); possible > needed ==> possible - needed >= Marker)
            && var bs' := Coalesced(pre, rest, k, needed);
               && Tiled(n, lo, bs') && AllSized(bs') && Span(bs') == Span(pre + rest)
               && Live(lo, bs') == Live(lo, pre + rest)
  {
    hide Tiled, Span, Live, Preserved, AllSized, SameOutside, Gathered, Merged, GatherCount;
    var b, cs := rest[0], rest[1..];
    var k := GatherCount(b.size, cs, needed);
    FreePrefixTail(rest, needed);
    assert pre + rest == pre + [b] + cs;
    assert rest[k + 1..] == cs[k..];
    MergeStep(m, n, lo, pre, b, cs, k, needed);
  }

  /** Merging free blocks with a free block changes no payload in use. */
  lemma CoalesceStep(m: bytes, n: bytes, lo: nat, pre: seq<Block>, rest: seq<Block>, needed: nat, end: nat)
    requires Tiled(m, lo, pre + rest) && AllSized(pre + rest) && rest != [] && lo + Span(pre + rest) == end <= |m| == |n|
    requires !rest[0].alloc && needed % 8 == 4 && MergedAt(m, n, lo + Span(pre), rest[0], rest[1..], needed, end)
    ensures var k := GatherCount(rest[0].size, rest[1..], needed);
            && (var possible := Gathered(rest[0].size, rest[1..], k); possible > needed ==> possible - needed >= Marker)
            && var bs' := Coalesced(pre, rest, k, needed);
               && Tiled(n, lo, bs') && AllSized(bs') && Span(bs') == Span(pre + rest)
               && Live(lo, bs') == Live(lo, pre + rest)
               && Preserved(m, n, Live(lo, pre + rest)) && SameOutside(m, n, lo, end)
  {
    hide Tiled, Span, Live, Preserved, AllSized, SameOutside, Gathered, Merged, GatherCount, Coalesced, MergedAt;
    CoalesceTiles(m, n, lo, pre, rest, needed, end);
    CoalesceKeeps(m, n, lo, pre, rest, needed, end);
  }

  /** The search has dealt with `pre` and has `rest` still before it. */
  ghost predicate Continues(blocks0: seq<Block>, size: nat, pre: seq<Block>, rest: seq<Block>) {
    && Splittable(blocks0, size) && Splittable(rest, size)
    && var r0, r := FirstFit(blocks0, size), FirstFit(rest, size);
       r0.found == r.found && r0.offset == Span(pre) + r.offset && r0.blocks == pre + r.blocks
  }

  /** Passing a block `b` that is not taken, with `tail` behind it. */
  lemma ContinueBehind(blocks0: seq<Block>, size: nat, pre: seq<Block>, rest: seq<Block>, b: Block, tail: seq<Block>)
    requires Continues(blocks0, size, pre, rest) && Splittable(tail, size)
    requires FirstFit(rest, size) == (var r := FirstFit(tail, size); Fit(r.found, Marker + b.size + r.offset, [b] + r.blocks))
    ensures Continues(blocks0, size, pre + [b], tail)
    ensures Span(pre + [b]) == Span(pre) + Marker + b.size
    ensures pre + ([b] + tail) == pre + [b] + tail
  {
    hide Span, FirstFit;
    SpanConcat(pre, [b]);
    SpanOne(b);
    assert pre + [b] + FirstFit(tail, size).blocks == pre + ([b] + FirstFit(tail, size).blocks);
  }

  lemma HeadWord(m: bytes, lo: nat, bs: seq<Block>)
    requires Tiled(m, lo, bs) && bs != []
    ensures bs[0].size < AllocMask && lo + Marker + bs[0].size <= |m| && ReadWord(m, lo) == Header(bs[0])
  {
  }

  /** Blocks that are left over take up at least eight bytes. */
  lemma NothingLeft(bs: seq<Block>)
    requires AllSized(bs)
    ensures if bs == [] then Span(bs) == 0 else Span(bs) >= 8
  {
    SpanSized(bs);
  }

  lemma NothingZeroed(m: bytes, at: nat)
    requires at <= |m|
    ensures Zeroed(m, at, at)
  {
  }

  lemma MergedWhole(b: Block, possible: nat, needed: nat)
    requires possible <= needed
    ensures Merged(b, possible, needed) == [Block(possible, b.alloc)]
  {
  }

  /** The first of the merged blocks, before and after it is marked as used. */
  lemma TakeFirst(pre: seq<Block>, b: Block, possible: nat, needed: nat, post: seq<Block>)
    requires possible >= needed && (possible > needed ==> possible - needed >= Marker) && !b.alloc
    ensures var bs := pre + Merged(b, possible, needed) + post;
            && |pre| < |bs| && bs[|pre|] == Block(needed, false) && bs[..|pre|] == pre
            && bs[|pre| := Block(needed, true)] == pre + Merged(Block(0, true), possible, needed) + post
  {
  }

  lemma OutsideInHeap(m: bytes, n: bytes, p: bytes, lo: nat, hi: nat, heap: nat, end: nat)
    requires SameOutside(m, n, heap, end) && SameOutside(n, p, lo, hi) && heap <= lo && hi <= end
    ensures SameOutside(m, p, heap, end)
  {
    SliceOutside(n, p, lo, hi, 0, heap);
    SliceOutside(n, p, lo, hi, end, |n|);
    assert n[0..heap] == n[..heap] && p[0..heap] == p[..heap];
    assert n[end..|n|] == n[end..] && p[end..|n|] == p[end..];
  }

  lemma NoDifference(m: bytes, lo: nat, hi: nat)
    requires lo <= hi <= |m|
    ensures SameOutside(m, m, lo, hi)
  {
  }

  /** Merging the block `b` with the `k` free blocks behind it, seen from the whole chain. */
  lemma MergeStep(m: bytes, n: bytes, lo: nat, pre: seq<Block>, b: Block, cs: seq<Block>, k: nat, needed: nat)
    requires lo <= |m| && Tiled(m, lo, pre + [b] + cs) && AllSized(pre + [b] + cs) && k <= |cs| && needed % 8 == 4
    requires forall i | 0 <= i < k :: !cs[i].alloc
    requires var possible := Gathered(b.size, cs, k); possible > needed ==> possible - needed >= Marker
    requires var a := lo + Span(pre); var possible := Gathered(b.size, cs, k);
             && a + Marker + possible <= |m| == |n|
             && SameOutside(m, n, a, a + Marker + possible)
             && Tiled(n, a, Merged(b, possible, needed) + cs[k..])
    ensures var a := lo + Span(pre); var possible := Gathered(b.size, cs, k);
            var bs' := pre + Merged(b, possible, needed) + cs[k..];
            var rest := Live(a + Marker + possible, cs[k..]);
            && Tiled(n, lo, bs') && AllSized(bs') && Span(bs') == Span(pre + [b] + cs)
            && Live(lo, pre + [b] + cs) == Live(lo, pre) + LiveOne(a, b) + rest
            && Live(lo, bs') == Live(lo, pre) + LiveOne(a, Block(if possible < needed then possible else needed, b.alloc)) + rest
            && Preserved(m, n, Live(lo, pre)) && Preserved(m, n, rest)
  {
    hide Tiled, Span, Live, SameOutside, Preserved, AllSized, Merged;
    var a, possible := lo + Span(pre), Gathered(b.size, cs, k);
    var mid, post, new_ := [b] + cs[..k], cs[k..], Merged(b, possible, needed);
    var full := pre + [b] + cs;
    assert full == pre + ([b] + cs) && full == pre + mid + post;
    TiledInside(m, lo, full);
    SpanConcat(pre + mid, post);
    SpanConcat(pre, mid);
    SpanConcat([b], cs[..k]);
    SpanOne(b);
    TiledConcat(m, lo, pre, [b] + cs);
    SliceOutside(m, n, a, a + Marker + possible, lo, a);
    TiledFrame(m, n, lo, pre);
    TiledConcat(n, lo, pre, new_ + post);
    assert pre + (new_ + post) == pre + new_ + post;
    MergedSpan(b, possible, needed);
    SpanConcat(pre + new_, post);
    SpanConcat(pre, new_);
    MergeSizes(pre, b, cs, k, needed);
    LiveReplace(lo, pre, mid, new_, post);
    MergeLive(a, b, cs, k, needed);
    PreservedAround(m, n, lo, pre, mid, post);
  }

  lemma MergeSizes(pre: seq<Block>, b: Block, cs: seq<Block>, k: nat, needed: nat)
    requires AllSized(pre + [b] + cs) && k <= |cs| && needed % 8 == 4
    requires var possible := Gathered(b.size, cs, k); possible > needed ==> possible - needed >= Marker
    ensures AllSized(pre + Merged(b, Gathered(b.size, cs, k), needed) + cs[k..])
  {
    hide Span;
    var full := pre + [b] + cs;
    assert full[|pre|] == b && full[..|pre|] == pre && full[|pre| + 1..] == cs;
    SizedTail(full, |pre|);
    SizedTail(full, |pre| + 1);
    SizedTail(cs, k);
    GatherSized(b.size, cs, needed, k);
    MergedSized(b, Gathered(b.size, cs, k), needed);
    SizedConcat(pre, Merged(b, Gathered(b.size, cs, k), needed));
    SizedConcat(pre + Merged(b, Gathered(b.size, cs, k), needed), cs[k..]);
  }

  lemma MergeLive(a: nat, b: Block, cs: seq<Block>, k: nat, needed: nat)
    requires k <= |cs| && forall i | 0 <= i < k :: !cs[i].alloc
    requires var possible := Gathered(b.size, cs, k); possible > needed ==> possible - needed >= Marker
    ensures Live(a, [b] + cs[..k]) == LiveOne(a, b)
    ensures var possible := Gathered(b.size, cs, k);
            Live(a, Merged(b, possible, needed)) == LiveOne(a, Block(if possible < needed then possible else needed, b.alloc))
  {
    hide Span, Live;
    SpanOne(b);
    LiveConcat(a, [b], cs[..k]);
    LiveSingle(a, b);
    LiveOfFree(a + Marker + b.size, cs[..k]);
    var possible := Gathered(b.size, cs, k);
    if possible <= needed {
      LiveSingle(a, Block(possible, b.alloc));
    } else {
      var h, t := Block(needed, b.alloc), Block(possible - needed - Marker, false);
      assert Merged(b, possible, needed) == [h] + [t];
      SpanOne(h);
      LiveConcat(a, [h], [t]);
      LiveSingle(a, h);
      LiveOfFree(a + Marker + needed, [t]);
    }
  }

  lemma KeepAll(m: bytes, lo: nat, bs: seq<Block>, p: nat, end: nat)
    requires Tiled(m, lo, bs) && lo <= |m| && p in Live(lo, bs) && lo <= end <= |m|
    ensures Preserved(m, m, Live(lo, bs)) && SameOutside(m, m, lo, end)
    ensures Live(lo, bs)[p := Live(lo, bs)[p]] == Live(lo, bs)
  {
    NothingChanged(m, lo, bs);
  }

  lemma MergedFirst(b: Block, possible: nat, needed: nat)
    requires possible >= needed && (possible > needed ==> possible - needed >= Marker)
    ensures var r := Merged(b, possible, needed); r != [] && r[0] == Block(needed, b.alloc)
  {
  }

  lemma BehindRest(size: nat, cs: seq<Block>, k: nat)
    requires k <= |cs|
    ensures Gathered(size, cs, k) + Span(cs[k..]) == size + Span(cs)
  {
    assert cs == cs[..k] + cs[k..];
    SpanConcat(cs[..k], cs[k..]);
  }
}
