/** Calls of realloc_in_place that leave the allocated part of the heap. */
module GrowthExamples {
  import opened BlockChain
  import opened FreeRuns
  import opened HeapModel
  import opened MemoryHeap

  /** Two payloads, the second one freed, and the first one grown beyond both: the loop merges unallocated memory. */
  method GrowPastFreedNeighbour(h: Memory)
    requires h.Valid() && h.blocks == [] && h.offset == 0 && h.heapSize == 8192
    modifies h, h.ram
    ensures !h.Intact()
  {
    hide HeapOk, SameOutside, Preserved, Live;
    NoneLive(h.heap);
    var a := h.Malloc(12);
    BumpedOnce(h, 12);
    var b := h.Malloc(12);
    BumpedOffset(h, 12, 12);
    h.Free(b);
    assert h.LiveHere() == map[a := 12];
    assert h.GrowthOverruns(a, 44);
    var p, origSize := h.ReallocInPlace(a, 44);
  }

  /** The last payload grown to more bytes than there are addresses up to the end of the heap: the guard wraps around. */
  method GrowPastAddressSpace(h: Memory)
    requires h.Valid() && h.blocks == [] && h.offset == 0 && h.heapSize == 8192 && h.heap + 8192 < 0x10_0000
    modifies h, h.ram
    ensures !h.Intact()
  {
    hide HeapOk, SameOutside, Preserved, Live;
    NoneLive(h.heap);
    var a := h.Malloc(12);
    BumpedOnce(h, 12);
    assert h.LiveHere() == map[a := 12];
    assert h.GrowthOverruns(a, 0x10_0004);
    var p, origSize := h.ReallocInPlace(a, 0x10_0004);
  }

  lemma NoneLive(lo: nat)
    ensures Live(lo, []) == map[]
  {
  }

  lemma BumpedOnce(h: Memory, s: nat)
    requires h.Valid() && h.blocks == [] + [Block(s, true)]
    ensures h.offset == s + Marker
  {
    SpanOne(Block(s, true));
    assert h.blocks == [Block(s, true)];
  }

  lemma BumpedOffset(h: Memory, s: nat, t: nat)
    requires h.Valid() && h.blocks == [] + [Block(s, true)] + [Block(t, true)]
    ensures h.offset == s + t + 2 * Marker
  {
    SpanOne(Block(s, true));
    SpanOne(Block(t, true));
    SpanConcat([Block(s, true)], [Block(t, true)]);
    assert h.blocks == [Block(s, true)] + [Block(t, true)];
  }
}
