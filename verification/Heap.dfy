/** One heap of the memory manager: class memory of malloc.cpp. */
module MemoryHeap {
  import opened Bytes
  import opened BlockChain
  import opened FreeRuns
  import opened LinearMemory
  import opened HeapModel
  import opened GrowthModel

  /** The blocks tile [0, offset) of the heap exactly, and everything behind has never been written. */
  ghost predicate HeapOk(m: bytes, heap: nat, heapSize: nat, offset: nat, blocks: seq<Block>) {
    && heap > 0 && heapSize > 0 && heapSize % 8 == 0 && offset <= heapSize
    && heap + heapSize <= |m| < AllocMask
    && Span(blocks) == offset && AllSized(blocks) && Tiled(m, heap, blocks)
    && Zeroed(m, heap + offset, heap + heapSize)
  }

  /** A heap does not notice what happens outside of it. */
  lemma HeapOkFrame(m: bytes, n: bytes, heap: nat, heapSize: nat, offset: nat, blocks: seq<Block>, lo: nat, hi: nat)
    requires HeapOk(m, heap, heapSize, offset, blocks) && |n| == |m| && SameOutside(m, n, lo, hi)
    requires hi <= heap || heap + heapSize <= lo
    ensures HeapOk(n, heap, heapSize, offset, blocks)
    ensures Preserved(m, n, Live(heap, blocks))
  {
    hide Tiled, Span, AllSized, Zeroed, SameOutside, Live, Preserved;
    SliceOutside(m, n, lo, hi, heap, heap + offset);
    TiledFrame(m, n, heap, blocks);
    ZeroedFrame(m, n, heap + offset, heap + heapSize, lo, hi);
    SpanNone();
    assert blocks + [] == blocks;
    PayloadsApart(m, n, heap, blocks, lo, hi);
  }

  lemma PayloadsApart(m: bytes, n: bytes, heap: nat, blocks: seq<Block>, lo: nat, hi: nat)
    requires |n| == |m| && SameOutside(m, n, lo, hi) && heap + Span(blocks) <= |m|
    requires hi <= heap || heap + Span(blocks) <= lo
    ensures Preserved(m, n, Live(heap, blocks))
  {
    hide Span, SameOutside, Live;
    forall q | q in Live(heap, blocks)
      ensures SamePayload(m, n, q, Live(heap, blocks)[q])
    {
      LiveInside(heap, blocks, q);
      SliceOutside(m, n, lo, hi, q, q + Live(heap, blocks)[q]);
    }
  }

  /** A heap does not notice that memory grows. */
  lemma HeapOkGrow(m: bytes, more: bytes, heap: nat, heapSize: nat, offset: nat, blocks: seq<Block>)
    requires HeapOk(m, heap, heapSize, offset, blocks) && |m + more| < AllocMask
    ensures HeapOk(m + more, heap, heapSize, offset, blocks)
    ensures Preserved(m, m + more, Live(heap, blocks))
  {
    hide Tiled, Span, AllSized, Live;
    var n := m + more;
    assert m[heap..heap + offset] == n[heap..heap + offset];
    TiledFrame(m, n, heap, blocks);
    forall q | q in Live(heap, blocks)
      ensures SamePayload(m, n, q, Live(heap, blocks)[q])
    {
      LiveInside(heap, blocks, q);
    }
  }

  class Memory {
    const ram: Ram
    var heapSize: nat
    var heap: nat
    var offset: nat
    ghost var blocks: seq<Block>

    constructor (ram: Ram)
      ensures this.ram == ram && heapSize == 0 && heap == 0 && offset == 0 && blocks == []
    {
      this.ram := ram;
      heapSize, heap, offset, blocks := 0, 0, 0, [];
    }

    /** The blocks tile [0, offset) exactly, and everything behind has never been written. */
    ghost predicate Valid()
      reads this, ram
    {
      HeapOk(ram.bytes, heap, heapSize, offset, blocks)
    }

    ghost function End(): nat
      reads this
    {
      heap + heapSize
    }

    /** The payloads in use, with their sizes. */
    ghost function LiveHere(): map<nat, nat>
      reads this
    {
      Live(heap, blocks)
    }

    /** memory::init. */
    method Init(memHeap: nat, size: nat)
      requires heap == 0 && offset == 0 && blocks == [] && memHeap > 0 && size > 0 && size % 8 == 0
      requires memHeap + size <= |ram.bytes| < AllocMask && Zeroed(ram.bytes, memHeap, memHeap + size)
      modifies this
      ensures Valid() && heap == memHeap && heapSize == size && offset == 0 && blocks == []
    {
      heapSize := size;
      heap := memHeap;
    }

    /** memory::is_in_heap. */
    method IsInHeap(ptr: nat) returns (r: bool)
      requires Valid()
      ensures r == (heap + Marker <= ptr < heap + heapSize)
      ensures ptr in LiveHere() ==> r
    {
      r := ptr >= heap + Marker && ptr < heap + heapSize;
      if ptr in LiveHere() {
        LiveInside(heap, blocks, ptr);
        LiveSized(heap, blocks, ptr);
      }
    }

    /** memory::malloc: takes the next bytes behind the chain, if there are enough. */
    method Malloc(size: nat) returns (p: nat)
      requires Valid() && size % 8 == 4 && size < AllocMask
      modifies this, ram
      ensures Valid() && heap == old(heap) && heapSize == old(heapSize)
      ensures p == 0 <==> old(offset) + size + Marker > heapSize
      ensures p == 0 ==> ram.bytes == old(ram.bytes) && offset == old(offset) && blocks == old(blocks)
      ensures p != 0 ==>
                && p == heap + old(offset) + Marker && offset == old(offset) + size + Marker
                && blocks == old(blocks) + [Block(size, true)]
                && p !in old(LiveHere()) && LiveHere() == old(LiveHere())[p := size]
                && SameOutside(old(ram.bytes), ram.bytes, p - Marker, p + size)
                && Preserved(old(ram.bytes), ram.bytes, old(LiveHere()))
    {
      hide Tiled, Span, Live, WriteWord, ReadWord, SameOutside, Preserved, AllSized, Zeroed;
      var usedUpSize := offset + size + Marker;
      if usedUpSize > heapSize {
        return 0;
      }
      p := heap + offset + Marker;
      ghost var m, b := ram.bytes, Block(size, true);
      ram.NewAlloc(p, size);
      AppendBlock(m, heap, blocks, b, heap + heapSize);
      offset := offset + size + Marker;
      blocks := blocks + [b];
    }

    /**
     * memory::malloc_from_freed: first fit over the freed blocks, merging neighbours on the way;
     * made only for a heap that is completely allocated.
     */
    method MallocFromFreed(size: nat) returns (aborted: bool, p: nat)
      requires Valid() && size % 8 == 4 && size < AllocMask
      modifies this, ram
      ensures aborted <==> old(offset) != old(heapSize)
      ensures heap == old(heap) && heapSize == old(heapSize) && offset == old(offset)
      ensures aborted ==> ram.bytes == old(ram.bytes) && blocks == old(blocks)
      ensures !aborted ==>
                && Valid()
                && var fit := FirstFit(old(blocks), size);
                   && blocks == fit.blocks
                   && p == if fit.found then heap + fit.offset + Marker else 0
      ensures SameOutside(old(ram.bytes), ram.bytes, heap, heap + heapSize)
      ensures Preserved(old(ram.bytes), ram.bytes, old(LiveHere()))
    {
      hide Tiled, Span, Live, WriteWord, ReadWord, Preserved, AllSized, Zeroed, FirstFit, Merged, GatherCount, SameOutside;
      ghost var m0, blocks0 := ram.bytes, blocks;
      NothingChanged(m0, heap, blocks);
      NoDifference(m0, heap, heap + heapSize);
      if offset != heapSize {
        return true, 0;
      }
      aborted := false;
      var heapEnd := heap + heapSize;
      var current := heap + Marker;
      ghost var pre: seq<Block>, rest := [], blocks;
      assert blocks == pre + rest;
      SpanNone();
      while current != 0
        invariant heap == old(heap) && heapSize == old(heapSize) && offset == old(offset) == heapSize
        invariant heapEnd == heap + heapSize
        invariant Valid() && blocks == pre + rest
        invariant current == 0 ==> rest == []
        invariant current != 0 ==> rest != [] && current == heap + Span(pre) + Marker
        invariant Continues(blocks0, size, pre, rest)
        invariant Live(heap, blocks) == Live(heap, blocks0)
        invariant Preserved(m0, ram.bytes, Live(heap, blocks0))
        invariant SameOutside(m0, ram.bytes, heap, heapEnd)
        decreases |rest|, current
      {
        ghost var m := ram.bytes;
        var found, next;
        found, next, pre, rest := ScanBlock(current, heapEnd, size, blocks0, pre, rest);
        PreservedTrans(m0, m, ram.bytes, Live(heap, blocks0));
        OutsideInHeap(m0, m, ram.bytes, heap, heapEnd, heap, heapEnd);
        if found {
          return false, current;
        }
        current := next;
      }
      FirstFitEmpty(size);
      p := 0;
    }

    /** One step of the search: from the block at `current` to the next one that is not merged into it. */
    method ScanBlock(current: nat, heapEnd: nat, size: nat, ghost blocks0: seq<Block>, ghost pre: seq<Block>, ghost rest: seq<Block>)
      returns (found: bool, next: nat, ghost pre': seq<Block>, ghost rest': seq<Block>)
      requires Valid() && offset == heapSize && heapEnd == heap + heapSize && size % 8 == 4 && size < AllocMask
      requires blocks == pre + rest && rest != [] && current == heap + Span(pre) + Marker
      requires Continues(blocks0, size, pre, rest)
      modifies this, ram
      ensures Valid() && heap == old(heap) && heapSize == old(heapSize) && offset == old(offset)
      ensures SameOutside(old(ram.bytes), ram.bytes, heap, heap + heapSize)
      ensures Preserved(old(ram.bytes), ram.bytes, old(LiveHere()))
      ensures found ==> var fit := FirstFit(blocks0, size); fit.found && blocks == fit.blocks && current == heap + fit.offset + Marker
      ensures !found ==>
                && LiveHere() == old(LiveHere())
                && blocks == pre' + rest' && |rest'| < |rest| && Continues(blocks0, size, pre', rest')
                && if next == 0 then rest' == [] else rest' != [] && next == heap + Span(pre') + Marker
    {
      hide Tiled, Span, Live, WriteWord, ReadWord, Preserved, AllSized, Zeroed, FirstFit, Merged, GatherCount, SameOutside, Gathered;
      ghost var b, cs := rest[0], rest[1..];
      NothingChanged(ram.bytes, heap, blocks);
      NoDifference(ram.bytes, heap, heapEnd);
      MergeReady(ram.bytes, heap, pre, rest);
      HeadWord(ram.bytes, heap + Span(pre), rest);
      FirstFitStep(rest, size);
      found := false;
      if ReadWord(ram.bytes, current - Marker) >= AllocMask {
        var bufferSize := ram.ReadSize(current, b, cs);
        next := current + bufferSize + Marker;
        ContinueBehind(blocks0, size, pre, rest, b, cs);
        pre', rest' := pre + [b], cs;
      } else {
        ghost var one, tail := Block(Gathered(b.size, cs, GatherCount(b.size, cs, size)), false), rest[GatherCount(b.size, cs, size) + 1..];
        var newSize;
        found, newSize := TakeFree(current, size, pre, rest);
        if found {
          pre', rest' := pre, rest;
          return true, current, pre, rest;
        }
        next := current + newSize + Marker;
        ContinueBehind(blocks0, size, pre, rest, one, tail);
        pre', rest' := pre + [one], tail;
      }
      SpanConcat(pre', rest');
      NothingLeft(rest');
      if next >= heapEnd {
        next := 0;
      }
    }

    /** One free block of the search: merged with the free blocks behind it, and taken if that is enough. */
    method TakeFree(current: nat, size: nat, ghost pre: seq<Block>, ghost rest: seq<Block>) returns (ok: bool, newSize: nat)
      requires Valid() && offset == heapSize && size % 8 == 4 && size < AllocMask
      requires blocks == pre + rest && rest != [] && !rest[0].alloc && current == heap + Span(pre) + Marker
      modifies this, ram
      ensures Valid() && heap == old(heap) && heapSize == old(heapSize) && offset == old(offset)
      ensures var k := GatherCount(rest[0].size, rest[1..], size);
              var possible := Gathered(rest[0].size, rest[1..], k);
              && ok == (possible >= size) && newSize == (if ok then size else possible)
              && (possible > size ==> possible - size >= Marker)
              && blocks == pre + ((if ok then Merged(Block(0, true), possible, size) else [Block(possible, false)]) + rest[k + 1..])
      ensures !ok ==> LiveHere() == old(LiveHere())
      ensures SameOutside(old(ram.bytes), ram.bytes, heap, heap + heapSize)
      ensures Preserved(old(ram.bytes), ram.bytes, old(LiveHere()))
    {
      hide Tiled, Span, Live, WriteWord, ReadWord, Preserved, AllSized, Zeroed, FirstFit, Merged, GatherCount, SameOutside, Gathered;
      ghost var m, bs := ram.bytes, blocks;
      ghost var b, k := rest[0], GatherCount(rest[0].size, rest[1..], size);
      ghost var possible, post := Gathered(b.size, rest[1..], k), rest[k + 1..];
      ok, newSize := Coalesce(current, size, pre, rest);
      if ok {
        ghost var m1 := ram.bytes;
        TakeFirst(pre, b, possible, size, post);
        BlockAt(m1, heap, blocks, |pre|);
        ram.MarkAlloc(current, Block(size, false));
        ChangeState(m1, heap, blocks, |pre|, true, heap + heapSize);
        PreservedTrans(m, m1, ram.bytes, Live(heap, bs));
        OutsideInHeap(m, m1, ram.bytes, current - Marker, current, heap, heap + heapSize);
        blocks := blocks[|pre| := Block(size, true)];
        assert pre + (Merged(Block(0, true), possible, size) + post) == pre + Merged(Block(0, true), possible, size) + post;
      } else {
        MergedWhole(b, possible, size);
        assert pre + ([Block(possible, false)] + post) == pre + [Block(possible, false)] + post;
      }
    }

    /** merge_contiguous on a free block of a completely allocated heap. */
    method Coalesce(current: nat, size: nat, ghost pre: seq<Block>, ghost rest: seq<Block>) returns (ok: bool, newSize: nat)
      requires Valid() && offset == heapSize && size % 8 == 4 && size < AllocMask
      requires blocks == pre + rest && rest != [] && !rest[0].alloc && current == heap + Span(pre) + Marker
      modifies this, ram
      ensures Valid() && heap == old(heap) && heapSize == old(heapSize) && offset == old(offset)
      ensures var k := GatherCount(rest[0].size, rest[1..], size);
              var possible := Gathered(rest[0].size, rest[1..], k);
              && ok == (possible >= size) && newSize == (if ok then size else possible)
              && (possible > size ==> possible - size >= Marker)
              && blocks == Coalesced(pre, rest, k, size)
      ensures LiveHere() == old(LiveHere())
      ensures SameOutside(old(ram.bytes), ram.bytes, heap, heap + heapSize)
      ensures Preserved(old(ram.bytes), ram.bytes, old(LiveHere()))
    {
      hide Tiled, Span, Live, WriteWord, ReadWord, Preserved, AllSized, Zeroed, FirstFit, Merged, GatherCount, SameOutside, Gathered, WordSized, Coalesced, MergedAt;
      ghost var b, cs, m := rest[0], rest[1..], ram.bytes;
      ghost var k := GatherCount(b.size, cs, size);
      MergeReady(m, heap, pre, rest);
      Mod8(size);
      assert current - Marker == heap + Span(pre);
      ok, newSize := MergeFree(current, size, b, cs);
      CoalesceStep(m, ram.bytes, heap, pre, rest, size, heap + heapSize);
      NothingZeroed(ram.bytes, heap + heapSize);
      blocks := Coalesced(pre, rest, k, size);
    }

    /** merge_contiguous without the all-or-nothing rule. */
    method MergeFree(ptr: nat, size: nat, ghost b: Block, ghost cs: seq<Block>) returns (ok: bool, newSize: nat)
      requires Marker <= ptr && Tiled(ram.bytes, ptr - Marker, [b] + cs)
      requires ptr + b.size + Span(cs) == heap + heapSize <= |ram.bytes| < AllocMask
      requires b.size % 4 == 0 && WordSized(cs) && size % 4 == 0
      modifies ram
      ensures MergedAt(old(ram.bytes), ram.bytes, ptr - Marker, b, cs, size, heap + heapSize)
      ensures var possible := Gathered(b.size, cs, GatherCount(b.size, cs, size));
              ok == (possible >= size) && newSize == (if ok then size else possible)
      ensures |ram.bytes| == |old(ram.bytes)|
    {
      hide Tiled, Merged, GatherCount, Gathered, Span, SameOutside, WordSized;
      ok, newSize := ram.MergeContiguous(ptr, heap + heapSize, size, false, b, cs);
    }

    /** memory::free. */
    method Free(ptr: nat)
      requires Valid() && ptr in LiveHere()
      modifies this, ram
      ensures Valid() && heap == old(heap) && heapSize == old(heapSize) && offset == old(offset)
      ensures LiveHere() == old(LiveHere()) - {ptr}
      ensures ptr >= Marker && SameOutside(old(ram.bytes), ram.bytes, ptr - Marker, ptr)
      ensures Preserved(old(ram.bytes), ram.bytes, old(LiveHere()))
    {
      hide Tiled, Span, Live, WriteWord, ReadWord, SameOutside, Preserved, AllSized, Zeroed;
      ghost var m := ram.bytes;
      ghost var i := LiveBlock(heap, blocks, ptr);
      ghost var b := blocks[i];
      BlockAt(m, heap, blocks, i);
      ram.MarkFree(ptr, b);
      ChangeState(m, heap, blocks, i, false, heap + heapSize);
      blocks := blocks[i := Block(b.size, false)];
    }

    /** memory::cleanup_remaining: what is left behind the chain becomes a free block. */
    method CleanupRemaining()
      requires Valid()
      modifies this, ram
      ensures Valid() && heap == old(heap) && heapSize == old(heapSize) && offset == heapSize
      ensures old(offset) == heapSize ==> blocks == old(blocks)
      ensures old(offset) != heapSize ==>
                && heapSize - old(offset) >= 8
                && blocks == old(blocks) + [Block(heapSize - old(offset) - Marker, false)]
      ensures LiveHere() == old(LiveHere())
      ensures SameOutside(old(ram.bytes), ram.bytes, heap + old(offset), heap + heapSize)
      ensures Preserved(old(ram.bytes), ram.bytes, old(LiveHere()))
    {
      hide Tiled, Span, Live, WriteWord, ReadWord, Preserved, AllSized, Zeroed;
      SpanSized(blocks);
      if offset == heapSize {
        NothingChanged(ram.bytes, heap, blocks);
        return;
      }
      var size := heapSize - offset - Marker;
      ghost var m, b := ram.bytes, Block(size, false);
      ram.NewFree(heap + offset + Marker, size);
      AppendBlock(m, heap, blocks, b, heap + heapSize);
      offset := heapSize;
      blocks := blocks + [b];
    }

    /** memory::expand_memory: memory right behind the heap becomes part of it. */
    method ExpandMemory(expMem: nat, size: nat) returns (ok: bool)
      requires Valid() && size % 8 == 0
      requires expMem + size <= |ram.bytes| && Zeroed(ram.bytes, expMem, expMem + size)
      modifies this
      ensures Valid() && heap == old(heap) && offset == old(offset) && blocks == old(blocks)
      ensures ok == (old(End()) == expMem)
      ensures heapSize == old(heapSize) + if ok then size else 0
    {
      if heap + heapSize != expMem {
        return false;
      }
      heapSize := heapSize + size;
      ok := true;
    }

    /** Some chain of blocks tiles exactly [0, offset), inside the heap. */
    ghost predicate Intact()
      reads this, ram
    {
      offset <= heapSize && HasTiling(ram.bytes, heap, offset)
    }

    /**
     * Growing the payload at `ptr` to `size` bytes in place would leave the allocated part of the
     * heap. For the last payload this is when `size` exceeds the address of the end of the heap,
     * where the subtraction in the guard wraps around. For another payload it is when the heap is
     * not completely allocated, nothing is in use behind the payload, and the bytes up to the end
     * of the allocated part are too few while those up to the end of the heap are enough.
     */
    ghost predicate GrowthOverruns(ptr: nat, size: nat)
      reads this
    {
      && ptr in LiveHere() && size > LiveHere()[ptr]
      && if ptr + LiveHere()[ptr] == heap + offset then size > heap + heapSize
         else
           && offset < heapSize
           && (forall q | q in LiveHere() :: q <= ptr)
           && heap + offset < ptr + size <= heap + heapSize
    }

    /**
     * memory::realloc_in_place. A payload that is to shrink keeps its block and its size; only the
     * four bytes behind the new size are written. A payload that is to grow takes in the free blocks
     * behind it or, when it is the last one, memory behind the allocated part; the chain stays
     * intact exactly when this does not overrun the allocated part.
     */
    method ReallocInPlace(ptr: nat, size: nat) returns (p: nat, origSize: nat)
      requires Valid() && ptr in LiveHere() && size % 8 == 4 && size < AllocMask
      modifies this, ram
      ensures heap == old(heap) && heapSize == old(heapSize)
      ensures origSize == old(LiveHere())[ptr] && offset >= old(offset)
      ensures old(GrowthOverruns(ptr, size)) ==> p == ptr && !Intact()
      ensures !old(GrowthOverruns(ptr, size)) ==>
                && Valid()
                && (p == 0 || p == ptr)
                && LiveHere() == (if p == ptr && size > origSize then old(LiveHere())[ptr := size] else old(LiveHere()))
                && Preserved(old(ram.bytes), ram.bytes, old(LiveHere())[ptr := if size < origSize then size else origSize])
                && SameOutside(old(ram.bytes), ram.bytes, heap, heap + heapSize)
      ensures p == 0 || p == ptr
      ensures p == ptr <==>
                || size <= origSize || old(GrowthOverruns(ptr, size))
                || (ptr + size <= heap + heapSize && !Blocked(old(LiveHere()), ptr, size))
      ensures p == 0 ==> ram.bytes == old(ram.bytes) && blocks == old(blocks) && offset == old(offset)
    {
      hide Tiled, Span, Live, WriteWord, ReadWord, Preserved, AllSized, Zeroed, SameOutside, HasTiling;
      var endOfBuffer := heap + heapSize;
      ghost var i := LiveBlock(heap, blocks, ptr);
      BlockAt(ram.bytes, heap, blocks, i);
      assert blocks[i..] == [blocks[i]] + blocks[i + 1..];
      origSize := ram.ReadSize(ptr, blocks[i], blocks[i + 1..]);
      IsLast(blocks, i);
      BlocksBehind(heap, blocks, i);
      KeepAll(ram.bytes, heap, blocks, ptr, heap + heapSize);
      // pointer subtraction, modulo 2^32
      var limit := if size <= endOfBuffer then endOfBuffer - size else endOfBuffer + WordLimit - size;
      if ptr > limit {
        return 0, origSize;
      }
      if origSize > size {
        Shrink(ptr, size, origSize, i);
        return ptr, origSize;
      } else if ptr + origSize == heap + offset {
        GrowLast(ptr, size, origSize, i);
        return ptr, origSize;
      }
      if size == origSize {
        return ptr, origSize;
      }
      p := GrowByMerging(ptr, size, i);
    }

    /** The bytes behind the new size get a header of their own, but the block keeps its size. */
    method Shrink(ptr: nat, size: nat, origSize: nat, ghost i: nat)
      requires Valid() && i < |blocks| && ptr == heap + Span(blocks[..i]) + Marker && blocks[i] == Block(origSize, true)
      requires size % 8 == 4 && size < origSize
      modifies ram
      ensures Valid()
      ensures Preserved(old(ram.bytes), ram.bytes, LiveHere()[ptr := size])
      ensures SameOutside(old(ram.bytes), ram.bytes, heap, heap + heapSize)
    {
      hide Tiled, Span, Live, WriteWord, ReadWord, Preserved, Zeroed, SameOutside;
      ghost var m := ram.bytes;
      assert origSize % 8 == 4;
      BlockAt(m, heap, blocks, i);
      ram.NewFree(ptr + size + Marker, origSize - size);
      WriteOutside(m, ptr + size, Header(Block(origSize - size, false)), ptr + size, ptr + size + 4);
      PayloadChange(m, ram.bytes, heap, blocks, i, ptr, ptr + size, ptr + size + 4, heap + heapSize);
    }

    /** The last payload grows into memory that was not allocated yet. */
    method GrowLast(ptr: nat, size: nat, origSize: nat, ghost i: nat)
      requires Valid() && i + 1 == |blocks| && ptr == heap + Span(blocks[..i]) + Marker && blocks[i] == Block(origSize, true)
      requires ptr + origSize == heap + offset && size % 8 == 4 && origSize <= size < AllocMask
      requires ptr + size <= heap + heapSize || size > heap + heapSize
      modifies this, ram
      ensures heap == old(heap) && heapSize == old(heapSize)
      ensures offset >= old(offset)
      ensures size > heap + heapSize ==> offset > heapSize
      ensures size <= heap + heapSize ==>
                && Valid()
                && LiveHere() == old(LiveHere())[ptr := size]
                && Preserved(old(ram.bytes), ram.bytes, old(LiveHere()))
                && SameOutside(old(ram.bytes), ram.bytes, heap, heap + heapSize)
    {
      hide Tiled, Span, Live, WriteWord, ReadWord, Preserved, AllSized, Zeroed, SameOutside;
      BlockAt(ram.bytes, heap, blocks, i);
      if size <= heap + heapSize {
        ResizeLast(ram.bytes, heap, blocks, size, heap + heapSize);
      }
      ram.SetSize(ptr, size);
      offset := offset + (size - origSize);
      blocks := blocks[..i] + [Block(size, true)];
    }

    /** The payload takes in the free blocks behind it. */
    method GrowByMerging(ptr: nat, size: nat, ghost i: nat) returns (p: nat)
      requires Valid() && i + 1 < |blocks| && ptr == heap + Span(blocks[..i]) + Marker && blocks[i].alloc
      requires size % 8 == 4 && blocks[i].size < size < AllocMask
      modifies this, ram
      ensures heap == old(heap) && heapSize == old(heapSize) && offset == old(offset)
      ensures p == 0 || p == ptr
      ensures p == ptr <==> ptr + size <= heap + heapSize && !Blocked(old(LiveHere()), ptr, size)
      ensures old(GrowthOverruns(ptr, size)) ==> p == ptr && !Intact()
      ensures !old(GrowthOverruns(ptr, size)) ==>
                && Valid()
                && LiveHere() == (if p == ptr then old(LiveHere())[ptr := size] else old(LiveHere()))
                && Preserved(old(ram.bytes), ram.bytes, old(LiveHere()))
                && SameOutside(old(ram.bytes), ram.bytes, heap, heap + heapSize)
      ensures p == 0 ==> ram.bytes == old(ram.bytes) && blocks == old(blocks)
    {
      hide Tiled, Span, Live, WriteWord, ReadWord, Preserved, AllSized, Zeroed, Merged, GatherCount, SameOutside, Gathered, HasTiling, Behind, OnlyFreeBehind, AfterMerge, GrownBlocks, WordSized, Blocked;
      ghost var m, bs, end := ram.bytes, blocks, heap + heapSize;
      SpanSized(bs);
      ghost var z := (heapSize - offset) / 4;
      ghost var b, cs := bs[i], Behind(bs, i, z);
      ghost var k := GatherCount(b.size, cs, size);
      BehindTiles(m, heap, bs, i, end);
      MergeLeaves(m, heap, bs, i, end, size);
      MergeFinds(m, heap, bs, i, end, size);
      OverrunMeaning(ptr, size, i);
      KeepAll(m, heap, bs, ptr, end);
      Mod8(size);
      var ok := MergeBehind(ptr, size, b, cs);
      if !ok {
        return 0;
      }
      p := ptr;
      if i + 1 + k <= |bs| {
        GrownInside(m, ram.bytes, heap, bs, i, z, end, size);
        blocks := GrownBlocks(bs, i, k, size);
      } else {
        GrownPast(m, ram.bytes, heap, bs, i, end, size);
      }
    }

    /** merge_contiguous_if_available and, if it succeeds, mark_alloc, which leaves the header as it is. */
    method MergeBehind(ptr: nat, size: nat, ghost b: Block, ghost cs: seq<Block>) returns (ok: bool)
      requires b.alloc && Marker <= ptr && Tiled(ram.bytes, ptr - Marker, [b] + cs)
      requires ptr + b.size + Span(cs) == heap + heapSize <= |ram.bytes| < AllocMask
      requires b.size % 4 == 0 && WordSized(cs) && size % 4 == 0 && b.size < size
      modifies ram
      ensures ok == (Gathered(b.size, cs, GatherCount(b.size, cs, size)) >= size)
      ensures |ram.bytes| == |old(ram.bytes)|
      ensures !ok ==> ram.bytes == old(ram.bytes)
      ensures ok ==> AfterMerge(old(ram.bytes), ram.bytes, ptr - Marker, b, cs, size, heap + heapSize)
    {
      hide Tiled, WriteWord, ReadWord, Merged, GatherCount, Gathered, Span, SameOutside, WordSized;
      var newSize;
      ok, newSize := ram.MergeContiguous(ptr, heap + heapSize, size, true, b, cs);
      if ok {
        ghost var k := GatherCount(b.size, cs, size);
        MergedFirst(b, Gathered(b.size, cs, k), size);
        HeadWord(ram.bytes, ptr - Marker, Merged(b, Gathered(b.size, cs, k), size) + cs[k..]);
        WriteSame(ram.bytes, ptr - Marker);
        ram.MarkAlloc(ptr, Block(size, true));
      }
    }

    /** GrowthOverruns in terms of the blocks. */
    lemma OverrunMeaning(ptr: nat, size: nat, i: nat)
      requires Valid() && i + 1 < |blocks| && ptr == heap + Span(blocks[..i]) + Marker && blocks[i].alloc
      requires blocks[i].size < size
      ensures ptr in LiveHere() && LiveHere()[ptr] == blocks[i].size
      ensures GrowthOverruns(ptr, size) <==>
              offset < heapSize && OnlyFreeBehind(blocks, i, size) && ptr + size <= heap + heapSize
    {
      hide Tiled, Span, Live, AllSized, Zeroed;
      LiveAt(heap, blocks, i);
      IsLast(blocks, i);
      BlocksBehind(heap, blocks, i);
    }
  }
}
