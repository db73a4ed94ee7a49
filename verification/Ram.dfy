/** Linear memory, and the buffer_ptr operations of malloc.cpp on the headers in it. */
module LinearMemory {
  import opened Bytes
  import opened BlockChain
  import opened FreeRuns

  lemma WriteTwice(m: bytes, a: nat, v: nat, w: nat)
    requires a + 4 <= |m| && v < WordLimit && w < WordLimit
    ensures WriteWord(WriteWord(m, a, v), a, w) == WriteWord(m, a, w)
  {
  }

  /** A header in front of enough memory is a block. */
  lemma OneBlock(m: bytes, lo: nat, b: Block)
    requires b.size < AllocMask && lo + Marker + b.size <= |m| && ReadWord(m, lo) == Header(b)
    ensures Tiled(m, lo, [b])
  {
  }

  /** All sizes are multiples of four, so that a remainder always has room for its header. */
  ghost predicate WordSized(bs: seq<Block>) {
    forall i | 0 <= i < |bs| :: bs[i].size % 4 == 0
  }

  lemma {:induction false} SpanWords(bs: seq<Block>)
    requires WordSized(bs)
    ensures Span(bs) % 4 == 0
  {
    if bs != [] {
      assert WordSized(bs[1..]) by { assert forall i | 0 <= i < |bs[1..]| :: bs[1..][i] == bs[i + 1]; }
      SpanWords(bs[1..]);
    }
  }

  lemma GatherWords(size: nat, cs: seq<Block>, needed: nat)
    requires size % 4 == 0 && WordSized(cs) && needed % 4 == 0
    ensures var possible := Gathered(size, cs, GatherCount(size, cs, needed));
            possible % 4 == 0 && (possible > needed ==> possible - needed >= Marker)
  {
    SpanWords(cs[..GatherCount(size, cs, needed)]);
  }

  class Ram {
    var bytes: bytes

    constructor (initial: bytes)
      ensures bytes == initial
    {
      bytes := initial;
    }

    /** buffer_ptr::size(val): writes the size and keeps the state bit. */
    method SetSize(ptr: nat, val: nat)
      requires Marker <= ptr <= |bytes| && val < AllocMask
      modifies this
      ensures bytes == WriteWord(old(bytes), ptr - Marker, Header(Block(val, old(ReadWord(bytes, ptr - Marker)) >= AllocMask)))
    {
      var state := if ReadWord(bytes, ptr - Marker) >= AllocMask then AllocMask else 0;
      bytes := WriteWord(bytes, ptr - Marker, val + state);
    }

    /** buffer_ptr::mark_alloc. */
    method MarkAlloc(ptr: nat, ghost b: Block)
      requires Marker <= ptr <= |bytes| && b.size < AllocMask && ReadWord(bytes, ptr - Marker) == Header(b)
      modifies this
      ensures bytes == WriteWord(old(bytes), ptr - Marker, Header(Block(b.size, true)))
    {
      hide ReadWord, WriteWord;
      var w := ReadWord(bytes, ptr - Marker);
      bytes := WriteWord(bytes, ptr - Marker, if w >= AllocMask then w else w + AllocMask);
    }

    /** buffer_ptr::mark_free. */
    method MarkFree(ptr: nat, ghost b: Block)
      requires Marker <= ptr <= |bytes| && b.size < AllocMask && ReadWord(bytes, ptr - Marker) == Header(b)
      modifies this
      ensures bytes == WriteWord(old(bytes), ptr - Marker, Header(Block(b.size, false)))
    {
      hide ReadWord, WriteWord;
      var w := ReadWord(bytes, ptr - Marker);
      bytes := WriteWord(bytes, ptr - Marker, if w >= AllocMask then w - AllocMask else w);
    }

    /** A new buffer_ptr over `size` bytes, marked free: whatever its header held before, it is now a free block. */
    method NewFree(ptr: nat, size: nat)
      requires Marker <= ptr <= |bytes| && size < AllocMask
      modifies this
      ensures bytes == WriteWord(old(bytes), ptr - Marker, Header(Block(size, false)))
    {
      ghost var b := Block(size, ReadWord(bytes, ptr - Marker) >= AllocMask);
      SetSize(ptr, size);
      ReadBack(old(bytes), ptr - Marker, Header(b));
      MarkFree(ptr, b);
      WriteTwice(old(bytes), ptr - Marker, Header(b), Header(Block(size, false)));
    }

    /** A new buffer_ptr over `size` bytes, marked as used. */
    method NewAlloc(ptr: nat, size: nat)
      requires Marker <= ptr <= |bytes| && size < AllocMask
      modifies this
      ensures bytes == WriteWord(old(bytes), ptr - Marker, Header(Block(size, true)))
    {
      ghost var b := Block(size, ReadWord(bytes, ptr - Marker) >= AllocMask);
      SetSize(ptr, size);
      ReadBack(old(bytes), ptr - Marker, Header(b));
      MarkAlloc(ptr, b);
      WriteTwice(old(bytes), ptr - Marker, Header(b), Header(Block(size, true)));
    }

    /**
     * buffer_ptr::merge_contiguous on the block `b` at `ptr`, with the blocks `cs` behind it up to
     * the end of the heap: takes in free blocks until `needed` bytes are there, and splits what is
     * left over.
     */
    method MergeContiguous(ptr: nat, heapEnd: nat, needed: nat, allOrNothing: bool, ghost b: Block, ghost cs: seq<Block>)
      returns (ok: bool, newSize: nat)
      requires Marker <= ptr && Tiled(bytes, ptr - Marker, [b] + cs)
      requires ptr + b.size + Span(cs) == heapEnd <= |bytes| < AllocMask
      requires b.size % 4 == 0 && WordSized(cs) && needed % 4 == 0
      modifies this
      ensures var k := GatherCount(b.size, cs, needed);
              var possible := Gathered(b.size, cs, k);
              && |bytes| == |old(bytes)|
              && (possible > needed ==> possible - needed >= Marker)
              && ok == (possible >= needed)
              && if allOrNothing && !ok then bytes == old(bytes)
                 else
                   && newSize == (if ok then needed else possible)
                   && ptr + possible <= heapEnd
                   && SameOutside(old(bytes), bytes, ptr - Marker, ptr + possible)
                   && Tiled(bytes, ptr - Marker, Merged(b, possible, needed) + cs[k..])
                   && (b.size <= needed ==> bytes[ptr..ptr + b.size] == old(bytes)[ptr..ptr + b.size])
    {
      hide Tiled, Span, SameOutside, WordSized, GatherCount, ReadWord, WriteWord, Gathered;
      ghost var m0 := bytes;
      SpanConcat([b], cs);
      SpanOne(b);
      newSize := ReadSize(ptr, b, cs);
      GatherWords(b.size, cs, needed);
      GatherFits(b.size, cs, needed);
      if allOrNothing && heapEnd - ptr < needed {
        return false, newSize;
      }
      var possible := newSize;
      possible := GatherLoop(ptr, heapEnd, needed, b, cs);
      if allOrNothing && possible < needed {
        return false, newSize;
      }
      ghost var k := GatherCount(b.size, cs, needed);
      newSize := if possible < needed then possible else needed;
      SplitChain(bytes, ptr - Marker, b, cs, k);
      MergedTiled(bytes, ptr - Marker, b, cs, k, needed);
      SetSize(ptr, newSize);
      if possible > needed {
        NewFree(ptr + needed + Marker, possible - needed - Marker);
      }
      assert bytes == MergeWrites(m0, ptr - Marker, b, possible, needed);
      ok := newSize == needed;
    }

    /** The constructor of buffer_ptr reads the size from the header. */
    method ReadSize(ptr: nat, ghost b: Block, ghost cs: seq<Block>) returns (size: nat)
      requires Marker <= ptr <= |bytes| && Tiled(bytes, ptr - Marker, [b] + cs)
      ensures size == b.size
    {
      var w := ReadWord(bytes, ptr - Marker);
      size := w % AllocMask;
    }

    /** The loop of merge_contiguous, which only reads. */
    method GatherLoop(ptr: nat, heapEnd: nat, needed: nat, ghost b: Block, ghost cs: seq<Block>) returns (possible: nat)
      requires Marker <= ptr && Tiled(bytes, ptr - Marker, [b] + cs)
      requires ptr + b.size + Span(cs) == heapEnd <= |bytes|
      ensures possible == Gathered(b.size, cs, GatherCount(b.size, cs, needed))
    {
      hide Tiled, Span, ReadWord, GatherCount, Gathered;
      possible := ReadSize(ptr, b, cs);
      ghost var j := 0;
      GatherStart(bytes, ptr - Marker, b, cs);
      assert cs[0..] == cs;
      while possible < needed && ptr + possible < heapEnd
        invariant j <= |cs|
        invariant possible == Gathered(b.size, cs, j)
        invariant Tiled(bytes, ptr + possible, cs[j..])
        invariant ptr + possible + Span(cs[j..]) == heapEnd
        invariant GatherCount(b.size, cs, needed) == j + GatherCount(possible, cs[j..], needed)
        decreases |cs| - j
      {
        GatherNext(bytes, ptr, b, cs, j, needed);
        var nextMemFlagSize := ReadWord(bytes, ptr + possible);
        if nextMemFlagSize >= AllocMask {
          return;
        }
        possible := possible + nextMemFlagSize % AllocMask + Marker;
        j := j + 1;
      }
      GatherEnd(possible, cs[j..], needed);
    }
  }

  lemma GatherStart(m: bytes, lo: nat, b: Block, cs: seq<Block>)
    requires Tiled(m, lo, [b] + cs)
    ensures Tiled(m, lo + Marker + b.size, cs) && Gathered(b.size, cs, 0) == b.size
  {
    assert ([b] + cs)[1..] == cs;
  }

  /** One more turn of the merge loop. */
  lemma GatherNext(m: bytes, ptr: nat, b: Block, cs: seq<Block>, j: nat, needed: nat)
    requires j <= |cs|
    requires var possible := Gathered(b.size, cs, j);
             possible < needed && Tiled(m, ptr + possible, cs[j..]) && Span(cs[j..]) > 0
    ensures var possible := Gathered(b.size, cs, j);
            && j < |cs| && cs[j].size < AllocMask && ptr + possible + 4 <= |m| && ReadWord(m, ptr + possible) == Header(cs[j])
            && Span(cs[j..]) == Marker + cs[j].size + Span(cs[j + 1..])
            && Gathered(b.size, cs, j + 1) == possible + Marker + cs[j].size
            && Tiled(m, ptr + possible + Marker + cs[j].size, cs[j + 1..])
            && GatherCount(possible, cs[j..], needed) ==
               if cs[j].alloc then 0 else 1 + GatherCount(possible + Marker + cs[j].size, cs[j + 1..], needed)
  {
    hide ReadWord;
    assert cs[j..] != [];
    assert cs[j..][0] == cs[j] && cs[j..][1..] == cs[j + 1..];
    assert cs[..j + 1] == cs[..j] + [cs[j]];
    SpanConcat(cs[..j], [cs[j]]);
    SpanOne(cs[j]);
  }

  lemma GatherEnd(possible: nat, cs: seq<Block>, needed: nat)
    requires possible >= needed || Span(cs) == 0
    ensures GatherCount(possible, cs, needed) == 0
  {
  }

  lemma GatherFits(size: nat, cs: seq<Block>, needed: nat)
    ensures Gathered(size, cs, GatherCount(size, cs, needed)) <= size + Span(cs)
  {
    var k := GatherCount(size, cs, needed);
    assert cs == cs[..k] + cs[k..];
    SpanConcat(cs[..k], cs[k..]);
  }

  /** The chain of a block and the blocks behind it, cut after the first `k` of these. */
  lemma SplitChain(m: bytes, lo: nat, b: Block, cs: seq<Block>, k: nat)
    requires k <= |cs| && Tiled(m, lo, [b] + cs) && lo + Span([b] + cs) <= |m|
    ensures b.size < AllocMask && lo + Marker + Gathered(b.size, cs, k) <= |m|
    ensures ReadWord(m, lo) == Header(b)
    ensures Span([b] + cs[..k]) == Marker + Gathered(b.size, cs, k)
    ensures Tiled(m, lo + Marker + Gathered(b.size, cs, k), cs[k..])
  {
    assert ([b] + cs)[0] == b;
    var head := [b] + cs[..k];
    assert [b] + cs == head + cs[k..];
    SpanConcat([b], cs[..k]);
    SpanOne(b);
    TiledConcat(m, lo, head, cs[k..]);
    SpanConcat(head, cs[k..]);
  }

  /** The headers that a merge leaves behind. */
  ghost function MergeWrites(m: bytes, lo: nat, b: Block, possible: nat, needed: nat): (n: bytes)
    requires lo + Marker + possible <= |m| < AllocMask && (possible > needed ==> possible - needed >= Marker)
    ensures |n| == |m|
  {
    if possible <= needed then WriteWord(m, lo, Header(Block(possible, b.alloc)))
    else WriteWord(WriteWord(m, lo, Header(Block(needed, b.alloc))), lo + Marker + needed,
                   Header(Block(possible - needed - Marker, false)))
  }

  lemma MergedBlocks(m: bytes, lo: nat, b: Block, possible: nat, needed: nat)
    requires lo + Marker + possible <= |m| < AllocMask && (possible > needed ==> possible - needed >= Marker)
    ensures var n := MergeWrites(m, lo, b, possible, needed);
            && SameOutside(m, n, lo, lo + Marker + possible)
            && Tiled(n, lo, Merged(b, possible, needed))
            && (b.size <= needed && b.size <= possible ==>
                  n[lo + Marker..lo + Marker + b.size] == m[lo + Marker..lo + Marker + b.size])
  {
    hide ReadWord, WriteWord, Span, Tiled, SameOutside;
    var n := MergeWrites(m, lo, b, possible, needed);
    var hi := lo + Marker + possible;
    if possible <= needed {
      var h := Block(possible, b.alloc);
      ReadBack(m, lo, Header(h));
      WriteOutside(m, lo, Header(h), lo, hi);
      WriteOutside(m, lo, Header(h), lo, lo + 4);
      if b.size <= possible {
        SliceOutside(m, n, lo, lo + 4, lo + 4, lo + 4 + b.size);
      }
      OneBlock(n, lo, h);
    } else {
      var h, t := Block(needed, b.alloc), Block(possible - needed - Marker, false);
      var m1 := WriteWord(m, lo, Header(h));
      var mid := lo + Marker + needed;
      ReadBack(m, lo, Header(h));
      ReadBack(m1, mid, Header(t));
      WriteOutside(m, lo, Header(h), lo, hi);
      WriteOutside(m1, mid, Header(t), lo, hi);
      SameOutsideTrans(m, m1, n, lo, hi, lo, hi);
      WriteOutside(m1, mid, Header(t), mid, mid + 4);
      SliceOutside(m1, n, mid, mid + 4, lo, lo + 4);
      WriteOutside(m, lo, Header(h), lo, lo + 4);
      if b.size <= needed {
        SliceOutside(m, m1, lo, lo + 4, lo + 4, lo + 4 + b.size);
        SliceOutside(m1, n, mid, mid + 4, lo + 4, lo + 4 + b.size);
      }
      ReadFrame(m1, n, lo);
      OneBlock(n, lo, h);
      OneBlock(n, mid, t);
      SpanOne(h);
      TiledConcat(n, lo, [h], [t]);
      assert [h] + [t] == Merged(b, possible, needed);
    }
  }

  lemma MergedTiled(m: bytes, lo: nat, b: Block, cs: seq<Block>, k: nat, needed: nat)
    requires k <= |cs| && Tiled(m, lo, [b] + cs) && lo + Span([b] + cs) <= |m| < AllocMask
    requires var possible := Gathered(b.size, cs, k); possible > needed ==> possible - needed >= Marker
    ensures var possible := Gathered(b.size, cs, k);
            && lo + Marker + possible <= |m|
            && var n := MergeWrites(m, lo, b, possible, needed);
               && SameOutside(m, n, lo, lo + Marker + possible)
               && Tiled(n, lo, Merged(b, possible, needed) + cs[k..])
               && (b.size <= needed ==> n[lo + Marker..lo + Marker + b.size] == m[lo + Marker..lo + Marker + b.size])
  {
    hide ReadWord, WriteWord, Span, Tiled, SameOutside, MergeWrites;
    var possible := Gathered(b.size, cs, k);
    SplitChain(m, lo, b, cs, k);
    var n := MergeWrites(m, lo, b, possible, needed);
    MergedBlocks(m, lo, b, possible, needed);
    MergedSpan(b, possible, needed);
    var hi := lo + Marker + possible;
    TiledInside(m, hi, cs[k..]);
    SliceOutside(m, n, lo, hi, hi, hi + Span(cs[k..]));
    TiledFrame(m, n, hi, cs[k..]);
    TiledConcat(n, lo, Merged(b, possible, needed), cs[k..]);
  }
}
