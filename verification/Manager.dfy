/** The memory manager of malloc.cpp: sixteen slots for heaps over one linear memory, and sbrk. */
module ManagerModel {
  import opened Bytes
  import opened BlockChain
  import opened FreeRuns
  import opened LinearMemory
  import opened HeapModel
  import opened GrowthModel
  import opened MemoryHeap
  import Powers
  import opened Wrappers

  const PageSize: nat := 0x1_0000
  const InitialHeapSize: nat := 8192
  const HeapsSize: nat := 16

  /** adjust_to_mem_block: the size that makes header and payload a multiple of eight bytes. */
  function AdjustToMemBlock(size: nat): (r: nat)
    ensures r % 8 == 4 && size <= r < size + 8
  {
    var remainder := (size + Marker) % 8;
    if remainder > 0 then size + (8 - remainder) else size
  }

  /** How much next_active_heap asks for: up to the end of the page, or of the next pair of pages when little is left. */
  function HeapAdj(size: nat): (r: nat) {
    if size % PageSize <= PageSize - 1024 then size + PageSize - size % PageSize - size
    else size + PageSize * 2 - size % (PageSize * 2) - size
  }

  lemma HeapAdjOnPages(size: nat)
    requires size % PageSize == 0
    ensures HeapAdj(size) == PageSize
  {
  }

  /** The rounding of sbrk. */
  function RoundToEight(n: nat): (r: nat) {
    (n + 7) / 8 * 8
  }

  lemma RoundAbove(n: nat)
    ensures n <= RoundToEight(n) < n + 8
  {
  }

  /** The number of pages that `bytes` bytes need. */
  lemma PagesFor(bytes: nat)
    ensures var p := (bytes + PageSize - 1) / PageSize; bytes <= p * PageSize < bytes + PageSize
  {
  }

  lemma NoZeros(m: bytes)
    ensures m + Zeros(0) == m
  {
  }

  lemma SamePages(pages: nat, n: nat)
    requires n % PageSize == 0 && n <= pages * PageSize && (pages > 0 ==> n > pages * PageSize - PageSize)
    ensures pages * PageSize == n
  {
    var k := n / PageSize;
    assert n == k * PageSize;
  }

  lemma NewMemoryIsZero(m: bytes, n: nat)
    ensures Zeroed(m + Zeros(n), |m|, |m| + n)
  {
  }

  /** A slot that has not been initialised. */
  ghost predicate Unused(h: Memory)
    reads h
  {
    h.heap == 0 && h.heapSize == 0 && h.offset == 0 && h.blocks == []
  }

  ghost function SlotOf(h: Memory): (s: Slot)
    reads h
  {
    Slot(h.heap, h.heapSize, h.offset, h.blocks)
  }

  /** Payloads of two heaps, one behind the other. */
  lemma Combine(x: map<nat, nat>, y: map<nat, nat>, p: nat, len: nat)
    ensures p !in y ==> x[p := len] + y == (x + y)[p := len] && (x - {p}) + y == (x + y) - {p}
    ensures p !in x ==> x + y[p := len] == (x + y)[p := len] && x + (y - {p}) == (x + y) - {p}
    ensures p in x || p in y <==> p in x + y
  {
  }

  lemma PreservedBoth(m: bytes, n: bytes, x: map<nat, nat>, y: map<nat, nat>)
    requires Preserved(m, n, x) && Preserved(m, n, y)
    ensures Preserved(m, n, x + y)
  {
  }

  lemma WrittenInside(m: bytes, ptr: nat, data: bytes)
    requires ptr + |data| <= |m|
    ensures var n := m[..ptr] + data + m[ptr + |data|..];
            |n| == |m| && SameOutside(m, n, ptr, ptr + |data|) && n[ptr..ptr + |data|] == data
  {
  }

  lemma Forget(m: bytes, n: bytes, x: map<nat, nat>, p: nat, len: nat)
    requires Preserved(m, n, x[p := len])
    ensures Preserved(m, n, x - {p})
  {
    forall q | q in x - {p}
      ensures SamePayload(m, n, q, (x - {p})[q])
    {
      assert SamePayload(m, n, q, x[p := len][q]);
    }
  }

  lemma Recall(m: bytes, n: bytes, x: map<nat, nat>, p: nat, len: nat)
    requires Preserved(m, n, x[p := len])
    ensures SamePayload(m, n, p, len)
  {
    assert p in x[p := len];
  }

  lemma SameMap(x: map<nat, nat>, p: nat)
    requires p in x
    ensures x[p := x[p]] == x
  {
  }

  lemma LoseOne(m: bytes, n: bytes, x: map<nat, nat>, p: nat)
    requires Preserved(m, n, x)
    ensures Preserved(m, n, x - {p})
  {
    forall q | q in x - {p}
      ensures SamePayload(m, n, q, (x - {p})[q])
    {
      assert SamePayload(m, n, q, x[q]);
    }
  }

  lemma AdjustedAlready(size: nat)
    requires size % 8 == 4
    ensures AdjustToMemBlock(size) == size
  {
  }

  /** Filling the new payload `p` keeps all the old ones. */
  lemma MoveKeeps(m: bytes, n1: bytes, n2: bytes, live: map<nat, nat>, p: nat, size: nat)
    requires Preserved(m, n1, live) && p !in live && Preserved(n1, n2, live[p := size] - {p})
    ensures Preserved(m, n2, live)
  {
    assert live[p := size] - {p} == live;
    PreservedTrans(m, n1, n2, live);
  }

  /** After the old payload `ptr` is freed, its bytes are those of the new payload `p`. */
  lemma AfterMove(m: bytes, n2: bytes, n3: bytes, live: map<nat, nat>, p: nat, size: nat, ptr: nat, len: nat)
    requires Preserved(m, n2, live) && Preserved(n2, n3, live[p := size]) && p !in live && ptr in live && len <= size
    requires p + len <= |n2| && ptr + len <= |m| && n2[p..p + len] == m[ptr..ptr + len]
    ensures live[p := size] - {ptr} == (live - {ptr})[p := size]
    ensures Preserved(m, n3, live - {ptr})
    ensures p + len <= |n3| && n3[p..p + len] == m[ptr..ptr + len]
  {
    hide Preserved;
    Recall(n2, n3, live, p, size);
    assert n3[p..p + len] == n3[p..p + size][..len] && n2[p..p + len] == n2[p..p + size][..len];
    LoseOne(n2, n3, live[p := size], p);
    assert live[p := size] - {p} == live;
    PreservedTrans(m, n2, n3, live);
    LoseOne(m, n3, live, ptr);
  }

  lemma SameLength(m: bytes, n: bytes, lo: nat, hi: nat)
    requires SameOutside(m, n, lo, hi)
    ensures |m| == |n|
  {
  }

  lemma Widen(m: bytes, n: bytes, lo: nat, hi: nat, heap: nat, end: nat)
    requires SameOutside(m, n, lo, hi) && heap <= lo && hi <= end <= |m|
    ensures SameOutside(m, n, heap, end)
  {
    NoDifference(m, heap, end);
    OutsideInHeap(m, m, n, lo, hi, heap, end);
  }

  // ---------------------------------------------------------------- where a request is served

  datatype Slot = Slot(heap: nat, heapSize: nat, offset: nat, blocks: seq<Block>)

  /** The two slots that are ever used, which of them is active, and the size of linear memory. */
  datatype Layout = Layout(slots: seq<Slot>, active: nat, memory: nat)

  /** Two slots, of which the second ends at the end of memory as soon as it is active. */
  ghost predicate Sound(l: Layout) {
    && |l.slots| == 2 && l.active < 2
    && (l.active == 1 ==> l.slots[1].heap + l.slots[1].heapSize == l.memory)
  }

  /** The active heap has room behind its allocated part. */
  ghost predicate Fits(l: Layout, size: nat)
    requires Sound(l)
  {
    l.slots[l.active].offset + size + Marker <= l.slots[l.active].heapSize
  }

  /** The payload that starts there. */
  ghost function Place(l: Layout): (p: nat)
    requires Sound(l)
  {
    l.slots[l.active].heap + l.slots[l.active].offset + Marker
  }

  ghost function Taken(l: Layout, size: nat): (r: Layout)
    requires Sound(l)
  {
    var s := l.slots[l.active];
    l.(slots := l.slots[l.active := s.(offset := s.offset + size + Marker, blocks := s.blocks + [Block(size, true)])])
  }

  /** A slot whose remaining bytes have become a free block. */
  ghost function Cleaned(s: Slot): (r: Slot) {
    if s.offset + Marker > s.heapSize then s
    else s.(offset := s.heapSize, blocks := s.blocks + [Block(s.heapSize - s.offset - Marker, false)])
  }

  /** After so many pages more: they belong to the active heap if it ended with memory, and to the next slot otherwise. */
  ghost function Grown(l: Layout, pages: nat): (r: Layout)
    requires Sound(l)
  {
    var s, more := l.slots[l.active], pages * PageSize;
    if pages == 0 then l
    else if s.heap + s.heapSize == l.memory then
      Layout(l.slots[l.active := s.(heapSize := s.heapSize + more)], l.active, l.memory + more)
    else
      Layout(l.slots[l.active := Cleaned(s)][l.active + 1 := Slot(l.memory, more, 0, [])], l.active + 1, l.memory + more)
  }

  /** After memory.grow was refused. */
  ghost function Closed(l: Layout): (r: Layout)
    requires Sound(l)
  {
    l.(slots := l.slots[l.active := Cleaned(l.slots[l.active])], active := l.active + 1)
  }

  /** `p` is the start of the lowest free run of the slot that is large enough. */
  ghost predicate AtLowestRun(s: Slot, size: nat, p: nat) {
    exists i: nat :: i <= |s.blocks| && LowestBigRun(s.blocks, i, size) && p == s.heap + Span(s.blocks[..i]) + Marker
  }

  /** The search through the closed slots, from the slot `first` on; it ends at slot `last`. */
  ghost predicate Searched(l: Layout, first: nat, size: nat, p: nat, last: nat)
    requires |l.slots| == 2 && first < l.active <= 2
  {
    if HasBigRun(l.slots[first].blocks, size) then AtLowestRun(l.slots[first], size, p) && last == first
    else if l.active == 2 && HasBigRun(l.slots[1 - first].blocks, size) then AtLowestRun(l.slots[1 - first], size, p) && last == 1 - first
    else p == 0 && last == first
  }

  /**
   * A request is served after `pages` pages more, none of which was asked for before it was needed:
   * behind the allocated part of the active heap or, when memory.grow was refused, among the freed blocks.
   */
  ghost predicate Served(l: Layout, pages: nat, size: nat, p: nat, now: Layout, exhausted: bool, last: nat)
    requires Sound(l)
  {
    GrownSound(l, pages);
    && (forall k: nat | k < pages :: NoRoom(l, k, size))
    && if exhausted then
         && NoRoom(l, pages, size) && now.memory == Grown(l, pages).memory
         && Searched(Closed(Grown(l, pages)), 0, size, p, last)
       else Fits(Grown(l, pages), size) && p == Place(Grown(l, pages)) && now == Taken(Grown(l, pages), size)
  }

  /** Where malloc puts a request. */
  ghost predicate PlacedBy(l: Layout, exhausted: bool, first: nat, size: nat, p: nat) {
    if exhausted then |l.slots| == 2 && first < l.active <= 2 && exists last: nat :: Searched(l, first, size, p, last)
    else Sound(l) && exists pages: nat, now: Layout, later: bool, last: nat :: Served(l, pages, size, p, now, later, last)
  }

  ghost predicate NoRoom(l: Layout, pages: nat, size: nat)
    requires Sound(l)
  {
    GrownSound(l, pages);
    !Fits(Grown(l, pages), size)
  }

  lemma GrownSound(l: Layout, pages: nat)
    requires Sound(l)
    ensures Sound(Grown(l, pages))
  {
  }

  lemma GrownNone(l: Layout)
    requires Sound(l)
    ensures Grown(l, 0) == l
  {
  }

  lemma GrownOnce(l: Layout, pages: nat)
    requires Sound(l)
    ensures Sound(Grown(l, pages)) && Grown(Grown(l, pages), 1) == Grown(l, pages + 1)
  {
    assert (pages + 1) * PageSize == pages * PageSize + PageSize;
  }

  lemma NoRoomLeft(l: Layout, pages: nat, size: nat)
    requires Sound(l) && Sound(Grown(l, pages)) && !Fits(Grown(l, pages), size)
    ensures NoRoom(l, pages, size)
  {
  }

  lemma ServedHere(l: Layout, pages: nat, size: nat, p: nat, now: Layout, last: nat)
    requires Sound(l) && Sound(Grown(l, pages)) && forall k: nat | k < pages :: NoRoom(l, k, size)
    requires Fits(Grown(l, pages), size) && p == Place(Grown(l, pages)) && now == Taken(Grown(l, pages), size)
    ensures Served(l, pages, size, p, now, false, last)
  {
    hide Grown, Fits, Place, Taken, NoRoom;
  }

  lemma ServedLater(l: Layout, pages: nat, size: nat, p: nat, closed: Layout, now: Layout, last: nat)
    requires Sound(l) && Sound(Grown(l, pages)) && (forall k: nat | k < pages :: NoRoom(l, k, size)) && NoRoom(l, pages, size)
    requires closed == Closed(Grown(l, pages)) && now.memory == closed.memory
    requires |closed.slots| == 2 && 0 < closed.active <= 2 && Searched(closed, 0, size, p, last)
    ensures Served(l, pages, size, p, now, true, last)
  {
    hide Grown, NoRoom, Searched;
  }

  /** What the active heap can hold is put behind its allocated part, and memory does not grow. */
  lemma ServedAtOnce(l: Layout, pages: nat, size: nat, p: nat, now: Layout, exhausted: bool, last: nat)
    requires Sound(l) && Served(l, pages, size, p, now, exhausted, last) && Fits(l, size)
    ensures pages == 0 && !exhausted && p == Place(l) && now == Taken(l, size)
  {
    assert Grown(l, 0) == l;
    assert !NoRoom(l, 0, size);
  }

  lemma ServedWhere(l: Layout, pages: nat, size: nat, p: nat, now: Layout, exhausted: bool, last: nat)
    requires Sound(l) && Served(l, pages, size, p, now, exhausted, last)
    ensures Fits(l, size) ==> p == Place(l) && now.memory == l.memory
  {
    if Fits(l, size) {
      ServedAtOnce(l, pages, size, p, now, exhausted, last);
    }
  }

  /** When memory grows, the payload lies behind the old allocated part or at the old end of memory, and reaches into the last page. */
  lemma ServedFromGrowth(l: Layout, pages: nat, size: nat, p: nat, now: Layout, last: nat)
    requires Sound(l) && Served(l, pages, size, p, now, false, last) && pages > 0
    ensures now.memory == l.memory + pages * PageSize && p + size > now.memory - PageSize
    ensures p == if l.slots[l.active].heap + l.slots[l.active].heapSize == l.memory then Place(l) else l.memory + Marker
  {
    assert NoRoom(l, pages - 1, size);
    assert (pages - 1) * PageSize == pages * PageSize - PageSize;
  }

  class MemoryManager {
    const ram: Ram
    const initialHeap: nat
    const maxPages: nat
    const heaps: seq<Memory>
    var sbrkInitialized: bool
    var sbrkBytes: nat
    var heapsActualSize: nat
    var activeHeap: nat
    var activeFreeHeap: nat

    ghost predicate Wired() {
      && |heaps| == HeapsSize
      && (forall i | 0 <= i < HeapsSize :: heaps[i].ram == ram)
      && (forall i, j | 0 <= i < j < HeapsSize :: heaps[i] != heaps[j])
    }

    /** Linear memory consists of pages, and sbrk has handed out all of them. */
    ghost predicate MemoryOk()
      reads this, ram
    {
      && |ram.bytes| % PageSize == 0 && |ram.bytes| <= maxPages * PageSize < AllocMask
      && initialHeap > 0 && initialHeap + InitialHeapSize <= |ram.bytes|
      && (sbrkInitialized ==> sbrkBytes == |ram.bytes|)
    }

    /** How many slots are initialised. */
    ghost function Used(): nat
      reads this
    {
      if heapsActualSize == 0 then 0 else if activeHeap < heapsActualSize then activeHeap + 1 else heapsActualSize
    }

    /** sbrk has refused, and from then on only freed blocks are handed out. */
    ghost predicate Exhausted()
      reads this
    {
      0 < heapsActualSize <= activeHeap
    }

    ghost predicate Complete(h: Memory)
      reads h
    {
      h.offset == h.heapSize
    }

    ghost predicate Valid()
      reads this, ram, heaps
    {
      && Wired() && MemoryOk() && Used() <= 2
      && (forall i | Used() <= i < HeapsSize :: Unused(heaps[i]))
      && (Used() == 0 ==> activeHeap == 0 && activeFreeHeap == 0 && Zeroed(ram.bytes, initialHeap, initialHeap + InitialHeapSize))
      && (Used() >= 1 ==> heaps[0].Valid() && heaps[0].heap == initialHeap)
      && (Used() == 2 ==>
            && heaps[1].Valid() && Complete(heaps[0])
            && heaps[0].End() <= heaps[1].heap && heaps[1].End() == |ram.bytes|)
      && (Used() >= 1 && !Exhausted() ==> heapsActualSize == HeapsSize && activeFreeHeap == 0)
      && (Exhausted() ==>
            && activeHeap == heapsActualSize && activeFreeHeap < heapsActualSize
            && (forall i | 0 <= i < heapsActualSize :: Complete(heaps[i])))
    }

    /** All payloads in use. */
    ghost function LiveAll(): map<nat, nat>
      requires Wired()
      reads this, heaps
    {
      heaps[0].LiveHere() + heaps[1].LiveHere()
    }

    /** Where requests will be served. */
    ghost function Now(): (l: Layout)
      requires Wired()
      reads this, ram, heaps
    {
      Layout([SlotOf(heaps[0]), SlotOf(heaps[1])], activeHeap, |ram.bytes|)
    }

    /** The same after the static buffer has become the first heap. */
    ghost function Begun(): (l: Layout)
      requires Wired()
      reads this, ram, heaps
    {
      if Used() == 0 then Now().(slots := [Slot(initialHeap, InitialHeapSize, 0, []), SlotOf(heaps[1])]) else Now()
    }

    /** The first request is served from the static buffer if its block fits there. */
    lemma FirstPlace(size: nat)
      requires Valid() && Used() == 0
      ensures Sound(Begun()) && Place(Begun()) == initialHeap + Marker
      ensures Fits(Begun(), size) <==> size + Marker <= InitialHeapSize
    {
    }

    /** The manager before its first use; its static buffer and its slots are zero. */
    constructor (ram: Ram, initialHeap: nat, maxPages: nat, slots: seq<Memory>)
      requires |slots| == HeapsSize && (forall i | 0 <= i < HeapsSize :: slots[i].ram == ram && Unused(slots[i]))
      requires forall i, j | 0 <= i < j < HeapsSize :: slots[i] != slots[j]
      requires |ram.bytes| % PageSize == 0 && |ram.bytes| <= maxPages * PageSize < AllocMask
      requires initialHeap > 0 && initialHeap + InitialHeapSize <= |ram.bytes|
      requires Zeroed(ram.bytes, initialHeap, initialHeap + InitialHeapSize)
      ensures Valid() && LiveAll() == map[] && this.ram == ram && heaps == slots
    {
      this.ram, this.initialHeap, this.maxPages, heaps := ram, initialHeap, maxPages, slots;
      sbrkInitialized, sbrkBytes := false, 0;
      heapsActualSize, activeHeap, activeFreeHeap := 0, 0, 0;
    }

    /** memory.grow: the host may refuse, and always does beyond the limit. */
    method GrowMemory(pages: nat) returns (granted: bool)
      requires |ram.bytes| % PageSize == 0
      modifies ram
      ensures granted ==> ram.bytes == old(ram.bytes) + Zeros(pages * PageSize) && |ram.bytes| <= maxPages * PageSize
      ensures !granted ==> ram.bytes == old(ram.bytes)
    {
      granted := *;
      granted := granted && |ram.bytes| / PageSize + pages <= maxPages;
      if granted {
        ram.bytes := ram.bytes + seq(pages * PageSize, _ => 0);
      }
    }

    /** The part of MemoryOk that sbrk needs, for callers of any kind. */
    ghost predicate SbrkOk()
      reads this`sbrkInitialized, this`sbrkBytes, ram
    {
      && |ram.bytes| % PageSize == 0 && |ram.bytes| <= maxPages * PageSize < AllocMask
      && (sbrkInitialized ==> sbrkBytes <= |ram.bytes|)
    }

    /** sbrk: refused for too many bytes or by the host; otherwise hands out the bytes behind those handed out before. */
    method Sbrk(numBytes: nat) returns (r: Option<nat>)
      requires SbrkOk()
      modifies this`sbrkInitialized, this`sbrkBytes, ram
      ensures SbrkOk() && sbrkInitialized
      ensures var before := if old(sbrkInitialized) then old(sbrkBytes) else |old(ram.bytes)|;
              match r
              case None => ram.bytes == old(ram.bytes) && sbrkBytes == before && before + RoundToEight(numBytes) > |ram.bytes|
              case Some(start) =>
                && start == before && sbrkBytes == before + RoundToEight(numBytes) <= |ram.bytes| && numBytes <= 0x7FFF_FFFF
                && exists pages :: 0 <= pages && ram.bytes == old(ram.bytes) + Zeros(pages * PageSize)
                                   && (pages > 0 ==> sbrkBytes > |ram.bytes| - PageSize)
    {
      hide Zeros;
      if !sbrkInitialized {
        sbrkBytes := |ram.bytes| / PageSize * PageSize;
        sbrkInitialized := true;
      }
      RoundAbove(numBytes);
      if numBytes > 0x7FFF_FFFF {
        return None;
      }
      var prevNumBytes := sbrkBytes;
      var currentPages := |ram.bytes| / PageSize;
      var rounded := (numBytes + 7) / 8 * 8;
      var numDesiredPages := (sbrkBytes + rounded + PageSize - 1) / PageSize;
      PagesFor(sbrkBytes + rounded);
      ghost var pages := 0;
      NoZeros(ram.bytes);
      if numDesiredPages > currentPages {
        var granted := GrowMemory(numDesiredPages - currentPages);
        if !granted {
          return None;
        }
        pages := numDesiredPages - currentPages;
      }
      sbrkBytes := sbrkBytes + rounded;
      assert ram.bytes == old(ram.bytes) + Zeros(pages * PageSize);
      r := Some(prevNumBytes);
    }

    /** sbrk as the manager uses it: whole pages, at the end of memory. */
    method SbrkPages(numBytes: nat) returns (r: Option<nat>)
      requires MemoryOk() && numBytes % PageSize == 0
      modifies this`sbrkInitialized, this`sbrkBytes, ram
      ensures MemoryOk() && sbrkInitialized
      ensures r.None? ==> ram.bytes == old(ram.bytes)
      ensures r.Some? ==> r.value == |old(ram.bytes)| && ram.bytes == old(ram.bytes) + Zeros(numBytes)
      ensures numBytes == 0 ==> r.Some?
    {
      hide Zeros;
      RoundPages(|ram.bytes|, numBytes);
      r := Sbrk(numBytes);
      if r.Some? {
        ghost var pages :| 0 <= pages && ram.bytes == old(ram.bytes) + Zeros(pages * PageSize) && (pages > 0 ==> sbrkBytes > |ram.bytes| - PageSize);
        SamePages(pages, numBytes);
      }
    }

    /** A slot with its payloads, apart from the slot `i` that is being worked on. */
    ghost predicate Apart(i: nat, m: bytes)
      requires Wired() && i < 2
      reads this, heaps
    {
      var h, o := heaps[i], heaps[1 - i];
      if Used() == 2 then HeapOk(m, o.heap, o.heapSize, o.offset, o.blocks) && (h.End() <= o.heap || o.End() <= h.heap)
      else Unused(o)
    }

    /** A change inside slot `i` leaves the other slot as it is. */
    lemma OtherKept(i: nat, m: bytes, n: bytes)
      requires Wired() && i < 2 && Apart(i, m) && |m| == |n| < AllocMask
      requires SameOutside(m, n, heaps[i].heap, heaps[i].End())
      ensures Apart(i, n) && Preserved(m, n, heaps[1 - i].LiveHere())
    {
      var h, o := heaps[i], heaps[1 - i];
      if Used() == 2 {
        HeapOkFrame(m, n, o.heap, o.heapSize, o.offset, o.blocks, h.heap, h.End());
      }
    }

    /** No payload of one slot has an address of the other. */
    lemma Distinct(i: nat, p: nat)
      requires Valid() && i < Used() && p in heaps[i].LiveHere()
      ensures p !in heaps[1 - i].LiveHere()
    {
      hide Tiled, Span, AllSized, Zeroed, Live;
      var h, o := heaps[i], heaps[1 - i];
      LiveInside(h.heap, h.blocks, p);
      if p in o.LiveHere() {
        if Used() == 2 {
          LiveInside(o.heap, o.blocks, p);
        } else {
          assert o.blocks == [];
          LiveOfFree(o.heap, o.blocks);
        }
      }
    }

    /** memory::malloc on the active heap. */
    method MallocFromActive(size: nat) returns (p: nat)
      requires Valid() && Used() >= 1 && !Exhausted() && size % 8 == 4 && size < AllocMask
      modifies ram, heaps
      ensures Valid() && |ram.bytes| == |old(ram.bytes)|
      ensures p == 0 ==> LiveAll() == old(LiveAll()) && ram.bytes == old(ram.bytes)
      ensures p != 0 ==> p !in old(LiveAll()) && LiveAll() == old(LiveAll())[p := size]
      ensures Sound(old(Now())) && (p != 0 <==> Fits(old(Now()), size))
      ensures p != 0 ==> p == Place(old(Now())) && Now() == Taken(old(Now()), size)
      ensures p == 0 ==> Now() == old(Now())
      ensures Preserved(old(ram.bytes), ram.bytes, old(LiveAll()))
    {
      hide Tiled, Span, AllSized, Zeroed, Live, SameOutside, Preserved;
      var i := activeHeap;
      ghost var m, h, o, x, y := ram.bytes, heaps[i], heaps[1 - i], heaps[0].LiveHere(), heaps[1].LiveHere();
      NothingChanged(m, h.heap, h.blocks);
      assert Apart(i, m);
      NoDifference(m, h.heap, h.End());
      p := heaps[i].Malloc(size);
      if p != 0 {
        SpanConcat(old(heaps[i].blocks), [Block(size, true)]);
        SpanOne(Block(size, true));
        Widen(m, ram.bytes, p - Marker, p + size, h.heap, h.End());
      }
      SameLength(m, ram.bytes, h.heap, h.End());
      OtherKept(i, m, ram.bytes);
      PreservedBoth(m, ram.bytes, x, y);
      if p != 0 {
        Distinct(i, p);
      }
      Combine(x, y, p, size);
    }

    /** memory::malloc_from_freed on slot `i`, which is complete. */
    method MallocFromSlot(i: nat, size: nat) returns (p: nat)
      requires Valid() && Exhausted() && i < heapsActualSize && size % 8 == 4 && size < AllocMask
      modifies ram, heaps[i]
      ensures Valid()
      ensures p == 0 <==> !HasBigRun(old(heaps[i].blocks), size)
      ensures p == 0 ==> LiveAll() == old(LiveAll()) && !HasBigRun(heaps[i].blocks, size)
      ensures p != 0 ==> p !in old(LiveAll()) && LiveAll() == old(LiveAll())[p := size]
      ensures p != 0 ==> AtLowestRun(old(SlotOf(heaps[i])), size, p)
      ensures Preserved(old(ram.bytes), ram.bytes, old(LiveAll())) && |ram.bytes| == |old(ram.bytes)|
    {
      hide HeapOk, Live, SameOutside, Preserved, FirstFit, HasBigRun, AtLowestRun;
      ghost var m, h, x, y := ram.bytes, heaps[i], heaps[0].LiveHere(), heaps[1].LiveHere();
      assert Apart(i, m);
      SearchFacts(i, size);
      var aborted;
      aborted, p := heaps[i].MallocFromFreed(size);
      assert !aborted;
      SameLength(m, ram.bytes, h.heap, h.End());
      OtherKept(i, m, ram.bytes);
      PreservedBoth(m, ram.bytes, x, y);
      if p != 0 {
        Distinct(i, p);
      }
      Combine(x, y, p, size);
    }

    /** What the search in slot `i` will find. */
    lemma SearchFacts(i: nat, size: nat)
      requires Valid() && Exhausted() && i < heapsActualSize && size % 8 == 4
      ensures Splittable(heaps[i].blocks, size) && heaps[i].heap > 0 && |ram.bytes| < AllocMask
      ensures var h := heaps[i]; var fit := FirstFit(h.blocks, size);
              && fit.found == HasBigRun(h.blocks, size)
              && (!fit.found ==> !HasBigRun(fit.blocks, size))
              && var p := h.heap + fit.offset + Marker;
                 if fit.found then p !in h.LiveHere() && Live(h.heap, fit.blocks) == h.LiveHere()[p := size]
                 else Live(h.heap, fit.blocks) == h.LiveHere()
      ensures var h := heaps[i]; var fit := FirstFit(h.blocks, size);
              fit.found ==> AtLowestRun(SlotOf(h), size, h.heap + fit.offset + Marker)
    {
      hide Tiled, Span, Zeroed, Live, FirstFit, HasBigRun, LowestBigRun;
      var h := heaps[i];
      FirstFitFinds(h.blocks, size);
      FirstFitLive(h.heap, h.blocks, size);
      if !FirstFit(h.blocks, size).found {
        NotFoundNoRun(h.blocks, size);
      }
    }

    /** memory::cleanup_remaining on the active heap. */
    method CleanupActive()
      requires Valid() && Used() >= 1 && !Exhausted()
      modifies ram, heaps
      ensures Valid() && |ram.bytes| == |old(ram.bytes)| && LiveAll() == old(LiveAll())
      ensures Complete(heaps[activeHeap]) && heaps[activeHeap].heap == old(heaps[activeHeap].heap) && heaps[activeHeap].heapSize == old(heaps[activeHeap].heapSize)
      ensures Now() == old(Now()).(slots := old(Now()).slots[activeHeap := Cleaned(old(Now()).slots[activeHeap])])
      ensures SameOutside(old(ram.bytes), ram.bytes, heaps[activeHeap].heap, heaps[activeHeap].End())
      ensures Preserved(old(ram.bytes), ram.bytes, old(LiveAll()))
    {
      hide Tiled, Span, AllSized, Zeroed, Live, SameOutside, Preserved;
      var i := activeHeap;
      ghost var m, h, x, y := ram.bytes, heaps[i], heaps[0].LiveHere(), heaps[1].LiveHere();
      assert Apart(i, m);
      heaps[i].CleanupRemaining();
      Widen(m, ram.bytes, h.heap + old(heaps[activeHeap].offset), h.End(), h.heap, h.End());
      SameLength(m, ram.bytes, h.heap, h.End());
      OtherKept(i, m, ram.bytes);
      PreservedBoth(m, ram.bytes, x, y);
    }

    /** Both slots after memory has grown behind them. */
    lemma GrownMemory(m: bytes, more: bytes)
      requires Wired() && Used() >= 1 && |m + more| < AllocMask
      requires HeapOk(m, heaps[0].heap, heaps[0].heapSize, heaps[0].offset, heaps[0].blocks)
      requires Apart(0, m)
      ensures HeapOk(m + more, heaps[0].heap, heaps[0].heapSize, heaps[0].offset, heaps[0].blocks)
      ensures Apart(0, m + more)
      ensures Preserved(m, m + more, LiveAll())
    {
      hide HeapOk, Preserved;
      HeapOkGrow(m, more, heaps[0].heap, heaps[0].heapSize, heaps[0].offset, heaps[0].blocks);
      if Used() == 2 {
        HeapOkGrow(m, more, heaps[1].heap, heaps[1].heapSize, heaps[1].offset, heaps[1].blocks);
      } else {
        NoPayload(m, m + more);
      }
      PreservedBoth(m, m + more, heaps[0].LiveHere(), heaps[1].LiveHere());
    }

    /** next_active_heap: more memory for the active heap, or for the next slot, or none at all. */
    method NextActiveHeap() returns (more: bool)
      requires Valid() && Used() >= 1 && !Exhausted()
      modifies this, ram, heaps
      ensures Valid() && LiveAll() == old(LiveAll()) && Used() >= 1
      ensures more ==> !Exhausted() && |ram.bytes| == |old(ram.bytes)| + PageSize
      ensures !more ==> Exhausted()
      ensures Sound(old(Now())) && Now() == (if more then Grown(old(Now()), 1) else Closed(old(Now()))) && activeFreeHeap == old(activeFreeHeap)
      ensures Preserved(old(ram.bytes), ram.bytes, old(LiveAll()))
    {
      hide Tiled, Span, AllSized, Live, SameOutside, Preserved, HeapOk, Zeros;
      ghost var m := ram.bytes;
      assert Apart(0, m);
      var current := SbrkPages(0);
      assert ram.bytes == m;
      var heapAdj := HeapAdj(current.value);
      HeapAdjOnPages(current.value);
      var start := SbrkPages(heapAdj);
      if start.None? {
        CleanupActive();
        activeHeap := activeHeap + 1;
        heapsActualSize := activeHeap;
        return false;
      }
      more := true;
      UseNewMemory(start.value, heapAdj, m);
    }

    /** New memory goes to the active heap if it lies right behind it, and to the next slot otherwise. */
    method UseNewMemory(start: nat, heapAdj: nat, ghost m: bytes)
      requires Wired() && Used() >= 1 && !Exhausted() && MemoryOk() && Used() <= 2 && heapsActualSize == HeapsSize
      requires heapAdj == PageSize && start == |m| && ram.bytes == m + Zeros(PageSize)
      requires HeapOk(m, heaps[0].heap, heaps[0].heapSize, heaps[0].offset, heaps[0].blocks) && Apart(0, m)
      requires heaps[0].heap == initialHeap && activeFreeHeap == 0 && forall i | Used() <= i < HeapsSize :: Unused(heaps[i])
      requires Used() == 2 ==> Complete(heaps[0]) && heaps[0].End() <= heaps[1].heap && heaps[1].End() == |m|
      modifies this, ram, heaps
      ensures Valid() && LiveAll() == old(LiveAll()) && Used() >= 1 && !Exhausted()
      ensures |ram.bytes| == |old(ram.bytes)| && activeFreeHeap == old(activeFreeHeap)
      ensures var l := old(Now()).(memory := |m|); Sound(l) && Now() == Grown(l, 1)
      ensures Preserved(m, ram.bytes, old(LiveAll()))
    {
      hide Tiled, Span, AllSized, Live, SameOutside, Preserved, Zeros, HeapOk;
      ghost var n := ram.bytes;
      HeapBounds(m, heaps[0]);
      GrownMemory(m, Zeros(PageSize));
      NewMemoryIsZero(m, PageSize);
      var expanded := heaps[activeHeap].ExpandMemory(start, heapAdj);
      if expanded {
        return;
      }
      CleanupActive();
      ZeroedFrame(n, ram.bytes, |m|, |n|, heaps[0].heap, heaps[0].End());
      PreservedTrans(m, n, ram.bytes, old(LiveAll()));
      NoPayloads(heaps[1]);
      activeHeap := activeHeap + 1;
      heaps[activeHeap].Init(start, heapAdj);
      NoPayloads(heaps[1]);
    }

    lemma HeapBounds(m: bytes, h: Memory)
      requires HeapOk(m, h.heap, h.heapSize, h.offset, h.blocks)
      ensures h.End() <= |m| && h.offset <= h.heapSize
    {
    }

    lemma NoPayloads(h: Memory)
      requires h.blocks == []
      ensures h.LiveHere() == map[]
    {
    }

    /** The first thing malloc does: prepare the static buffer as the first heap. */
    method Start()
      requires Valid()
      modifies this, heaps
      ensures Valid() && Used() >= 1 && LiveAll() == old(LiveAll())
      ensures old(Used()) >= 1 ==> heapsActualSize == old(heapsActualSize) && activeHeap == old(activeHeap)
      ensures old(Used()) >= 1 ==> forall i | 0 <= i < HeapsSize :: heaps[i].blocks == old(heaps[i].blocks)
      ensures Now() == old(Begun()) && activeFreeHeap == old(activeFreeHeap)
    {
      hide HeapOk, Live, Zeroed;
      if heapsActualSize == 0 {
        heapsActualSize := HeapsSize;
      }
      if activeHeap < heapsActualSize {
        if activeHeap == 0 && heaps[0].heap == 0 {
          heaps[0].Init(initialHeap, InitialHeapSize);
          NoPayloads(heaps[0]);
        }
      }
    }

    /** The loop of malloc: the active heap, as long as memory.grow gives it or the next one another page. */
    method MallocOrGrow(size: nat) returns (p: nat, ghost pages: nat)
      requires Valid() && Used() >= 1 && !Exhausted() && size % 8 == 4 && size < AllocMask
      modifies this, ram, heaps
      ensures Valid() && Exhausted() == (p == 0)
      ensures p == 0 ==> LiveAll() == old(LiveAll())
      ensures p != 0 ==> p !in old(LiveAll()) && LiveAll() == old(LiveAll())[p := size]
      ensures Sound(old(Now())) && Sound(Grown(old(Now()), pages)) && forall k: nat | k < pages :: NoRoom(old(Now()), k, size)
      ensures p != 0 ==> Served(old(Now()), pages, size, p, Now(), false, activeFreeHeap)
      ensures p == 0 ==> Now() == Closed(Grown(old(Now()), pages)) && NoRoom(old(Now()), pages, size) && activeFreeHeap == 0
      ensures Preserved(old(ram.bytes), ram.bytes, old(LiveAll()))
    {
      hide HeapOk, Live, Zeroed, Preserved, Fits, Place, Taken, Grown, Closed, Served, NoRoom;
      ghost var m, live, l := ram.bytes, LiveAll(), Now();
      AllInside();
      GrownNone(l);
      p, pages := 0, 0;
      var current := true;
      while current
        invariant Valid() && Used() >= 1 && current == !Exhausted()
        invariant p == 0 && LiveAll() == live && Preserved(m, ram.bytes, live)
        invariant Sound(l) && Sound(Grown(l, pages)) && activeFreeHeap == 0
        invariant Now() == if current then Grown(l, pages) else Closed(Grown(l, pages))
        invariant (forall k: nat | k < pages :: NoRoom(l, k, size)) && (!current ==> NoRoom(l, pages, size))
        decreases current, maxPages * PageSize - |ram.bytes|
      {
        ghost var n := ram.bytes;
        p := MallocFromActive(size);
        PreservedTrans(m, n, ram.bytes, live);
        if p != 0 {
          ServedHere(l, pages, size, p, Now(), activeFreeHeap);
          return;
        }
        NoRoomLeft(l, pages, size);
        n := ram.bytes;
        GrownOnce(l, pages);
        current := NextActiveHeap();
        PreservedTrans(m, n, ram.bytes, live);
        if current {
          pages := pages + 1;
        }
      }
    }

    /**
     * memory_manager::malloc. A request that the active heap can hold is put behind its allocated
     * part without any growth. Otherwise as few pages are asked for as it needs; and when they are
     * refused, now or before, the lowest large enough run of freed blocks serves it, from the slot
     * that was last successful on.
     */
    method Malloc(size: nat) returns (p: nat)
      requires Valid() && size <= 0x7FFF_FFF0
      modifies this, ram, heaps
      ensures Valid() && (old(Exhausted()) ==> Exhausted() && heapsActualSize == old(heapsActualSize))
      ensures size == 0 ==> p == 0
      ensures p == 0 ==> LiveAll() == old(LiveAll())
      ensures p != 0 ==> p !in old(LiveAll()) && LiveAll() == old(LiveAll())[p := AdjustToMemBlock(size)]
      ensures p == 0 && size > 0 ==>
                Exhausted() && forall i | 0 <= i < heapsActualSize ::
                  Complete(heaps[i]) && !HasBigRun(heaps[i].blocks, AdjustToMemBlock(size))
      ensures size > 0 && old(Exhausted()) ==>
                (p == 0 <==> forall i | 0 <= i < old(heapsActualSize) :: !HasBigRun(old(heaps[i].blocks), AdjustToMemBlock(size)))
      ensures size > 0 && old(Exhausted()) ==>
                && old(activeFreeHeap) < old(activeHeap) <= 2 && |ram.bytes| == |old(ram.bytes)|
                && Searched(old(Now()), old(activeFreeHeap), AdjustToMemBlock(size), p, activeFreeHeap)
      ensures size > 0 && !old(Exhausted()) ==>
                && Sound(old(Begun()))
                && (exists pages: nat :: Served(old(Begun()), pages, AdjustToMemBlock(size), p, Now(), Exhausted(), activeFreeHeap))
                && (Fits(old(Begun()), AdjustToMemBlock(size)) ==> p == Place(old(Begun())) && |ram.bytes| == |old(ram.bytes)|)
      ensures size > 0 ==> PlacedBy(old(Begun()), old(Exhausted()), old(activeFreeHeap), AdjustToMemBlock(size), p)
      ensures Preserved(old(ram.bytes), ram.bytes, old(LiveAll()))
    {
      hide HeapOk, Live, Zeroed, Preserved, HasBigRun, AdjustToMemBlock, Searched, Fits, Place, Taken, Grown, Closed, Served, NoRoom;
      ghost var m, live, l := ram.bytes, LiveAll(), Begun();
      AllInside();
      if size == 0 {
        return 0;
      }
      Start();
      var adjusted := AdjustToMemBlock(size);
      ghost var pages: nat := 0;
      if activeHeap < heapsActualSize {
        p, pages := MallocOrGrow(adjusted);
        if p != 0 {
          ServedWhere(l, pages, adjusted, p, Now(), false, activeFreeHeap);
          return;
        }
      }
      ghost var n, closed := ram.bytes, Now();
      p := MallocFromAnySlot(adjusted);
      PreservedTrans(m, n, ram.bytes, live);
      if !old(Exhausted()) {
        ServedLater(l, pages, adjusted, p, closed, Now(), activeFreeHeap);
        ServedWhere(l, pages, adjusted, p, Now(), true, activeFreeHeap);
      }
    }

    /** The search through the complete heaps, from the one that was last successful on. */
    method MallocFromAnySlot(size: nat) returns (p: nat)
      requires Valid() && Exhausted() && size % 8 == 4 && size < AllocMask
      modifies this, ram, heaps
      ensures Valid() && Exhausted() && heapsActualSize == old(heapsActualSize)
      ensures p == 0 ==> LiveAll() == old(LiveAll())
      ensures p != 0 ==> p !in old(LiveAll()) && LiveAll() == old(LiveAll())[p := size]
      ensures p == 0 ==> forall i | 0 <= i < heapsActualSize :: Complete(heaps[i]) && !HasBigRun(heaps[i].blocks, size)
      ensures p == 0 <==> forall i | 0 <= i < heapsActualSize :: !HasBigRun(old(heaps[i].blocks), size)
      ensures old(activeFreeHeap) < activeHeap <= 2 && Searched(old(Now()), old(activeFreeHeap), size, p, activeFreeHeap)
      ensures Preserved(old(ram.bytes), ram.bytes, old(LiveAll())) && |ram.bytes| == |old(ram.bytes)|
    {
      hide HeapOk, Live, Zeroed, Preserved, HasBigRun, AtLowestRun;
      ghost var m, live := ram.bytes, LiveAll();
      AllInside();
      var endFreeHeap := activeFreeHeap;
      ghost var tried0, tried1 := false, false;
      var searching := true;
      while searching
        invariant Valid() && Exhausted() && heapsActualSize == old(heapsActualSize) <= 2 && endFreeHeap < heapsActualSize
        invariant LiveAll() == live && Preserved(m, ram.bytes, live)
        invariant searching ==> if activeFreeHeap == 0 then !tried0 else !tried1
        invariant searching && activeFreeHeap == endFreeHeap ==> !tried0 && !tried1
        invariant searching && activeFreeHeap != endFreeHeap ==> if endFreeHeap == 0 then tried0 else tried1
        invariant !searching ==> tried0 && (heapsActualSize == 2 ==> tried1)
        invariant tried0 ==> !HasBigRun(heaps[0].blocks, size) && !HasBigRun(old(heaps[0].blocks), size)
        invariant tried1 ==> heapsActualSize == 2 && !HasBigRun(heaps[1].blocks, size) && !HasBigRun(old(heaps[1].blocks), size)
        invariant (!tried0 ==> SlotOf(heaps[0]) == old(SlotOf(heaps[0]))) && (!tried1 ==> SlotOf(heaps[1]) == old(SlotOf(heaps[1])))
        invariant |ram.bytes| == |old(ram.bytes)| && (!searching ==> activeFreeHeap == endFreeHeap)
        decreases searching, !tried0, !tried1
      {
        p := TrySlot(activeFreeHeap, size, m, live);
        if p != 0 {
          return;
        }
        tried0, tried1 := tried0 || activeFreeHeap == 0, tried1 || activeFreeHeap == 1;
        activeFreeHeap := activeFreeHeap + 1;
        if activeFreeHeap == heapsActualSize {
          activeFreeHeap := 0;
        }
        searching := activeFreeHeap != endFreeHeap;
      }
      p := 0;
    }

    /** One slot of the search, on the way from memory `m`. */
    method TrySlot(i: nat, size: nat, ghost m: bytes, ghost live: map<nat, nat>) returns (p: nat)
      requires Valid() && Exhausted() && i < heapsActualSize && size % 8 == 4 && size < AllocMask
      requires LiveAll() == live && Preserved(m, ram.bytes, live)
      modifies ram, heaps[i]
      ensures Valid()
      ensures p == 0 <==> !HasBigRun(old(heaps[i].blocks), size)
      ensures p == 0 ==> LiveAll() == live && !HasBigRun(heaps[i].blocks, size)
      ensures p != 0 ==> p !in live && LiveAll() == live[p := size]
      ensures p != 0 ==> AtLowestRun(old(SlotOf(heaps[i])), size, p)
      ensures Preserved(m, ram.bytes, live) && |ram.bytes| == |old(ram.bytes)|
    {
      hide HeapOk, Live, Zeroed, Preserved, HasBigRun, AtLowestRun;
      ghost var n := ram.bytes;
      p := MallocFromSlot(i, size);
      PreservedTrans(m, n, ram.bytes, live);
    }

    /** Every payload in use belongs to an initialised slot. */
    lemma LiveSlot(ptr: nat)
      requires Valid() && ptr in LiveAll()
      ensures ptr in heaps[0].LiveHere() || (Used() == 2 && ptr in heaps[1].LiveHere())
      ensures Used() >= 1
    {
      if Used() < 2 {
        NoPayloads(heaps[1]);
      }
    }

    /** The loop of free and realloc over the slots: the one whose addresses contain the pointer. */
    method FindHeap(ptr: nat) returns (i: nat)
      requires Valid() && ptr in LiveAll()
      ensures i < Used() && ptr in heaps[i].LiveHere()
    {
      hide Live, Tiled, Span, AllSized, Zeroed;
      LiveSlot(ptr);
      i := 0;
      while i < heapsActualSize && heaps[i].heap != 0
        invariant i < Used() && (i == 0 || ptr !in heaps[0].LiveHere())
        decreases 2 - i
      {
        var inHeap := heaps[i].IsInHeap(ptr);
        if inHeap {
          if ptr !in heaps[i].LiveHere() {
            LiveInside(heaps[1 - i].heap, heaps[1 - i].blocks, ptr);
            assert false;
          }
          return;
        }
        i := i + 1;
      }
      assert false;
    }

    /** memory_manager::free. */
    method Free(ptr: nat)
      requires Valid() && (ptr == 0 || ptr in LiveAll())
      modifies this, ram, heaps
      ensures Valid() && LiveAll() == old(LiveAll()) - {ptr}
      ensures Exhausted() == old(Exhausted()) && heapsActualSize == old(heapsActualSize)
      ensures Preserved(old(ram.bytes), ram.bytes, old(LiveAll()))
    {
      hide HeapOk, Live, SameOutside, Preserved;
      AllInside();
      if ptr == 0 {
        NullIsNotLive();
        return;
      }
      var i := FindHeap(ptr);
      ghost var m, h, x, y := ram.bytes, heaps[i], heaps[0].LiveHere(), heaps[1].LiveHere();
      assert Apart(i, m);
      Distinct(i, ptr);
      PayloadBounds(i, ptr);
      heaps[i].Free(ptr);
      Widen(m, ram.bytes, ptr - Marker, ptr, h.heap, h.End());
      SameLength(m, ram.bytes, h.heap, h.End());
      OtherKept(i, m, ram.bytes);
      PreservedBoth(m, ram.bytes, x, y);
      Combine(x, y, ptr, 0);
    }

    /** A payload in use lies behind a header and inside its heap. */
    lemma PayloadBounds(i: nat, ptr: nat)
      requires Valid() && i < Used() && ptr in heaps[i].LiveHere()
      ensures heaps[i].heap + Marker <= ptr && ptr + heaps[i].LiveHere()[ptr] <= heaps[i].heap + heaps[i].offset
      ensures heaps[i].offset <= heaps[i].heapSize && heaps[i].End() <= |ram.bytes| < AllocMask
      ensures heaps[i].LiveHere()[ptr] % 8 == 4
    {
      hide Live, Tiled, Span, Zeroed;
      LiveInside(heaps[i].heap, heaps[i].blocks, ptr);
      LiveSized(heaps[i].heap, heaps[i].blocks, ptr);
    }

    lemma NullIsNotLive()
      requires Valid()
      ensures 0 !in LiveAll() && LiveAll() - {0} == LiveAll()
    {
      hide HeapOk, Live;
      if 0 in LiveAll() {
        LiveSlot(0);
        PayloadBounds(if 0 in heaps[0].LiveHere() then 0 else 1, 0);
      }
    }

    /** Some slot's blocks tile its allocated part no longer. */
    ghost predicate Broken()
      requires Wired()
      reads this, ram, heaps
    {
      !heaps[0].Intact() || !heaps[1].Intact()
    }

    /** Growing the payload at `ptr` in place would leave the allocated part of its heap. */
    ghost predicate GrowthOverruns(ptr: nat, size: nat)
      requires Wired()
      reads this, heaps
    {
      heaps[0].GrowthOverruns(ptr, size) || heaps[1].GrowthOverruns(ptr, size)
    }

    /** The heap of the payload has `size` bytes from its start on, and no other payload in use is in their way. */
    ghost predicate GrowsInPlace(ptr: nat, size: nat)
      requires Wired()
      reads this, heaps
    {
      || (ptr in heaps[0].LiveHere() && ptr + size <= heaps[0].End() && !Blocked(heaps[0].LiveHere(), ptr, size))
      || (ptr in heaps[1].LiveHere() && ptr + size <= heaps[1].End() && !Blocked(heaps[1].LiveHere(), ptr, size))
    }

    /** memory::realloc_in_place on the slot of the pointer. */
    method ReallocInSlot(i: nat, ptr: nat, size: nat) returns (p: nat, origSize: nat)
      requires Valid() && i < Used() && ptr in heaps[i].LiveHere() && size % 8 == 4 && size < AllocMask
      modifies ram, heaps
      ensures ptr in old(LiveAll()) && origSize == old(LiveAll())[ptr]
      ensures p == 0 || p == ptr
      ensures (p == ptr <==> size <= origSize || old(GrowthOverruns(ptr, size)) || old(GrowsInPlace(ptr, size)))
      ensures p == 0 ==> Now() == old(Now())
      ensures old(GrowthOverruns(ptr, size)) ==> p == ptr && Broken()
      ensures !old(GrowthOverruns(ptr, size)) ==>
                && Valid() && (p == 0 || p == ptr)
                && (p == 0 ==> size > origSize)
                && LiveAll() == (if p == ptr && size > origSize then old(LiveAll())[ptr := size] else old(LiveAll()))
                && Preserved(old(ram.bytes), ram.bytes, old(LiveAll())[ptr := if size < origSize then size else origSize])
    {
      hide HeapOk, Live, SameOutside, Preserved, HasTiling, Blocked;
      ghost var m, h, x, y := ram.bytes, heaps[i], heaps[0].LiveHere(), heaps[1].LiveHere();
      ghost var overruns := GrowthOverruns(ptr, size);
      assert Apart(i, m);
      Distinct(i, ptr);
      PayloadBounds(i, ptr);
      p, origSize := heaps[i].ReallocInPlace(ptr, size);
      if !overruns {
        HeapBounds(ram.bytes, h);
      }
      Combine(x, y, ptr, size);
      if !overruns {
        SameLength(m, ram.bytes, h.heap, h.End());
        OtherKept(i, m, ram.bytes);
        ghost var kept := if size < origSize then size else origSize;
        Combine(x, y, ptr, kept);
        if i == 0 {
          PreservedBoth(m, ram.bytes, x[ptr := kept], y);
        } else {
          PreservedBoth(m, ram.bytes, x, y[ptr := kept]);
        }
      }
    }

    /** Bytes written by the program into a payload in use. */
    method WritePayload(ptr: nat, data: bytes)
      requires Valid() && ptr in LiveAll() && |data| <= LiveAll()[ptr]
      modifies ram
      ensures Valid() && ptr + |data| <= |ram.bytes| && ram.bytes[ptr..ptr + |data|] == data
      ensures Preserved(old(ram.bytes), ram.bytes, LiveAll() - {ptr})
    {
      hide Live, SameOutside, Preserved, Tiled, Span, AllSized, Zeroed;
      LiveSlot(ptr);
      ghost var i := if ptr in heaps[0].LiveHere() then 0 else 1;
      ghost var m, h, x, y := ram.bytes, heaps[i], heaps[0].LiveHere(), heaps[1].LiveHere();
      ghost var j := LiveBlock(h.heap, h.blocks, ptr);
      assert Apart(i, m);
      Distinct(i, ptr);
      PayloadBounds(i, ptr);
      ram.bytes := ram.bytes[..ptr] + data + ram.bytes[ptr + |data|..];
      WrittenInside(m, ptr, data);
      PayloadChange(m, ram.bytes, h.heap, h.blocks, j, ptr, ptr, ptr + |data|, h.End());
      OtherKept(i, m, ram.bytes);
      Forget(m, ram.bytes, h.LiveHere(), ptr, 0);
      Combine(x, y, ptr, 0);
      if i == 0 {
        PreservedBoth(m, ram.bytes, x - {ptr}, y);
      } else {
        PreservedBoth(m, ram.bytes, x, y - {ptr});
      }
    }

    /** The first half of realloc: the payload is resized where it is, or nothing changes. */
    method TryInPlace(ptr: nat, size: nat) returns (p: nat, origSize: nat)
      requires Valid() && ptr != 0 && ptr in LiveAll() && size % 8 == 4 && size < AllocMask
      modifies ram, heaps
      ensures origSize == old(LiveAll())[ptr] && (p == 0 || p == ptr)
      ensures p == ptr <==> size <= origSize || old(GrowthOverruns(ptr, size)) || old(GrowsInPlace(ptr, size))
      ensures p == 0 ==> Now() == old(Now())
      ensures old(GrowthOverruns(ptr, size)) ==> p == ptr && Broken()
      ensures !old(GrowthOverruns(ptr, size)) ==>
                var kept := if size < origSize then size else origSize;
                && Valid() && Preserved(old(ram.bytes), ram.bytes, old(LiveAll()) - {ptr}) && SamePayload(old(ram.bytes), ram.bytes, ptr, kept)
                && LiveAll() == (if p == ptr && size > origSize then old(LiveAll())[ptr := size] else old(LiveAll()))
                && (p == 0 ==> size > origSize && Preserved(old(ram.bytes), ram.bytes, LiveAll()))
    {
      hide HeapOk, Live, SameOutside, Preserved, HasTiling, SamePayload, Blocked;
      ghost var m, live, overruns := ram.bytes, LiveAll(), GrowthOverruns(ptr, size);
      var i := FindHeap(ptr);
      p, origSize := ReallocInSlot(i, ptr, size);
      if !overruns {
        Forget(m, ram.bytes, live, ptr, if size < origSize then size else origSize);
        Recall(m, ram.bytes, live, ptr, if size < origSize then size else origSize);
      }
      SameMap(live, ptr);
    }

    /**
     * memory_manager::realloc. Unless the growth overruns the allocated part of the heap, the
     * payload keeps its first bytes, in place or moved, and all other payloads keep all of theirs;
     * when there is no memory, nothing changes.
     */
    method Realloc(ptr: nat, size: nat) returns (p: nat)
      requires Valid() && (ptr == 0 || ptr in LiveAll()) && size <= 0x7FFF_FF00
      modifies this, ram, heaps
      ensures size > 0 && old(GrowthOverruns(ptr, AdjustToMemBlock(size))) ==> p == ptr && Broken()
      ensures size == 0 ==> p == 0 && Valid() && LiveAll() == old(LiveAll()) - {ptr} && Exhausted() == old(Exhausted())
      ensures size > 0 && ptr != 0 ==>
                var s := AdjustToMemBlock(size);
                p == ptr <==> s <= old(LiveAll())[ptr] || old(GrowthOverruns(ptr, s)) || old(GrowsInPlace(ptr, s))
      ensures size > 0 && (ptr == 0 || p != ptr) ==> PlacedBy(old(Begun()), old(Exhausted()), old(activeFreeHeap), AdjustToMemBlock(size), p)
      ensures size > 0 && !old(GrowthOverruns(ptr, AdjustToMemBlock(size))) ==>
                var s := AdjustToMemBlock(size);
                && Valid() && (old(Exhausted()) ==> Exhausted() && heapsActualSize == old(heapsActualSize))
                && Preserved(old(ram.bytes), ram.bytes, old(LiveAll()) - {ptr})
                && (p == 0 ==>
                      && LiveAll() == old(LiveAll()) && Preserved(old(ram.bytes), ram.bytes, LiveAll())
                      && Exhausted() && forall i | 0 <= i < heapsActualSize :: !HasBigRun(heaps[i].blocks, s))
                && (p != 0 ==>
                      && (p == ptr || p !in old(LiveAll()))
                      && p in LiveAll()
                      && LiveAll()[p] == (if p == ptr && s < old(LiveAll())[ptr] then old(LiveAll())[ptr] else s)
                      && LiveAll() == (old(LiveAll()) - {ptr})[p := LiveAll()[p]]
                      && (ptr != 0 ==>
                            var kept := if s < old(LiveAll())[ptr] then s else old(LiveAll())[ptr];
                            && p + kept <= |ram.bytes| && ptr + kept <= |old(ram.bytes)|
                            && ram.bytes[p..p + kept] == old(ram.bytes)[ptr..ptr + kept]))
    {
      hide HeapOk, Live, SameOutside, Preserved, HasTiling, AdjustToMemBlock, HasBigRun, PlacedBy, GrowsInPlace;
      AllInside();
      NullIsNotLive();
      if size == 0 {
        Free(ptr);
        return 0;
      }
      var adjusted := AdjustToMemBlock(size);
      ghost var m := ram.bytes;
      p := 0;
      var origSize := 0;
      if ptr != 0 {
        p, origSize := TryInPlace(ptr, adjusted);
        if p != 0 {
          return;
        }
      }
      p := Move(ptr, adjusted, origSize, m);
    }

    /** The second half of realloc: a new payload, a copy of the old one, and the old one freed. */
    method Move(ptr: nat, size: nat, origSize: nat, ghost m: bytes) returns (p: nat)
      requires Valid() && size % 8 == 4 && size <= 0x7FFF_FFF0
      requires if ptr == 0 then origSize == 0 else ptr in LiveAll() && LiveAll()[ptr] == origSize < size
      requires Preserved(m, ram.bytes, LiveAll())
      modifies this, ram, heaps
      ensures Valid() && (old(Exhausted()) ==> Exhausted() && heapsActualSize == old(heapsActualSize))
      ensures PlacedBy(old(Begun()), old(Exhausted()), old(activeFreeHeap), size, p)
      ensures p == 0 ==> LiveAll() == old(LiveAll()) && Preserved(m, ram.bytes, LiveAll())
      ensures p == 0 ==> Exhausted() && forall i | 0 <= i < heapsActualSize :: !HasBigRun(heaps[i].blocks, size)
      ensures Preserved(m, ram.bytes, old(LiveAll()) - {ptr})
      ensures p != 0 ==>
                && p !in old(LiveAll()) && LiveAll() == (old(LiveAll()) - {ptr})[p := size]
                && (ptr != 0 ==> p + origSize <= |ram.bytes| && ptr + origSize <= |m| && ram.bytes[p..p + origSize] == m[ptr..ptr + origSize])
    {
      hide HeapOk, Live, SameOutside, Preserved, AdjustToMemBlock, HasBigRun, PlacedBy, Searched, Served, Fits, Place, Begun;
      ghost var live, n := LiveAll(), ram.bytes;
      NullIsNotLive();
      if ptr != 0 {
        SizeOfPayload(ptr);
      }
      AdjustedAlready(size);
      p := Malloc(size);
      PreservedTrans(m, n, ram.bytes, live);
      LoseOne(m, ram.bytes, live, ptr);
      if p == 0 {
        return;
      }
      if origSize > 0 {
        ghost var n1 := ram.bytes;
        SameMap(live, ptr);
        Recall(m, n1, live, ptr, origSize);
        WritePayload(p, ram.bytes[ptr..ptr + origSize]);
        ghost var n2 := ram.bytes;
        MoveKeeps(m, n1, n2, live, p, size);
        Free(ptr);
        AfterMove(m, n2, ram.bytes, live, p, size, ptr, origSize);
      }
    }

    lemma SizeOfPayload(ptr: nat)
      requires Valid() && ptr in LiveAll()
      ensures LiveAll()[ptr] % 8 == 4
    {
      hide HeapOk, Live;
      LiveSlot(ptr);
      var i := if ptr in heaps[0].LiveHere() then 0 else 1;
      PayloadBounds(i, ptr);
      Distinct(i, ptr);
    }

    /**
     * In every valid state the payloads in use are pairwise disjoint, each behind a header of its
     * own, and all of them inside the heaps.
     */
    lemma PayloadsAreDisjoint(p: nat, q: nat)
      requires Valid() && p in LiveAll() && q in LiveAll() && p < q
      ensures p + LiveAll()[p] + Marker <= q
      ensures p >= heaps[0].heap + Marker && q + LiveAll()[q] <= |ram.bytes|
    {
      hide HeapOk, Live;
      LiveSlot(p);
      LiveSlot(q);
      var i, j := if p in heaps[0].LiveHere() then 0 else 1, if q in heaps[0].LiveHere() then 0 else 1;
      PayloadBounds(i, p);
      PayloadBounds(j, q);
      Distinct(i, p);
      Distinct(j, q);
      if i == j {
        LiveDisjoint(heaps[i].heap, heaps[i].blocks, p, q);
      }
    }

    /** Every payload in use lies in memory, so nothing is lost when nothing changes. */
    lemma AllInside()
      requires Valid()
      ensures Preserved(ram.bytes, ram.bytes, LiveAll())
    {
      hide Tiled, Span, AllSized, Zeroed, Live, Preserved;
      if Used() >= 1 {
        NothingChanged(ram.bytes, heaps[0].heap, heaps[0].blocks);
      } else {
        NoPayloads(heaps[0]);
        NoPayload(ram.bytes, ram.bytes);
      }
      if Used() == 2 {
        NothingChanged(ram.bytes, heaps[1].heap, heaps[1].blocks);
      } else {
        NoPayloads(heaps[1]);
        NoPayload(ram.bytes, ram.bytes);
      }
      PreservedBoth(ram.bytes, ram.bytes, heaps[0].LiveHere(), heaps[1].LiveHere());
    }

    lemma RoundPages(size: nat, num: nat)
      requires size % PageSize == 0 && num % PageSize == 0
      ensures (num + 7) / 8 * 8 == num
      ensures (size + num + PageSize - 1) / PageSize == size / PageSize + num / PageSize
      ensures num / PageSize * PageSize == num && size / PageSize * PageSize == size
    {
      var a, b := size / PageSize, num / PageSize;
      assert size == a * PageSize && num == b * PageSize;
      Powers.DivModUnique(size + num + PageSize - 1, a + b, PageSize - 1, PageSize);
      assert num == 8 * (8192 * b);
      Powers.DivModUnique(num + 7, 8192 * b, 7, 8);
    }
  }
}
