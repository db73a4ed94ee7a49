/** Merging and first-fit search of malloc.cpp, on lists of blocks. */
module FreeRuns {
  import opened BlockChain

  // ---------------------------------------------------------------- merge_contiguous

  /** How many of the blocks `cs` behind a block the merge loop takes in before it has enough or must stop. */
  function GatherCount(total: nat, cs: seq<Block>, needed: nat): (k: nat)
    ensures k <= |cs|
    decreases |cs|
  {
    if total >= needed || cs == [] || cs[0].alloc then 0
    else 1 + GatherCount(total + Marker + cs[0].size, cs[1..], needed)
  }

  /** The size of the block with the first `k` blocks behind it taken in. */
  function Gathered(total: nat, cs: seq<Block>, k: nat): (n: nat)
    requires k <= |cs|
  {
    total + Span(cs[..k])
  }

  /** The blocks that replace a block of state `b.alloc` and the blocks gathered into it. */
  function Merged(b: Block, possible: nat, needed: nat): (r: seq<Block>)
    requires possible > needed ==> possible - needed >= Marker
  {
    if possible <= needed then [Block(possible, b.alloc)]
    else [Block(needed, b.alloc), Block(possible - needed - Marker, false)]
  }

  lemma MergedSpan(b: Block, possible: nat, needed: nat)
    requires possible > needed ==> possible - needed >= Marker
    ensures Span(Merged(b, possible, needed)) == Marker + possible
  {
    if possible > needed {
      var r := Merged(b, possible, needed);
      assert r == [r[0]] + [r[1]];
      SpanConcat([r[0]], [r[1]]);
    }
  }

  /** The loop takes in free blocks only, and stops when it has enough, at a block in use, or at the end. */
  lemma {:induction false} GatherStops(total: nat, cs: seq<Block>, needed: nat)
    ensures var k := GatherCount(total, cs, needed);
            && (forall i | 0 <= i < k :: !cs[i].alloc)
            && (Gathered(total, cs, k) >= needed || k == |cs| || cs[k].alloc)
            && (forall i | 0 <= i < k :: Gathered(total, cs, i) < needed)
    decreases |cs|
  {
    var k := GatherCount(total, cs, needed);
    forall i | 0 <= i < k
      ensures Gathered(total, cs, i) < needed
    {
      GatherNeeds(total, cs, needed, i);
    }
    if k > 0 {
      var rest := total + Marker + cs[0].size;
      GatherStops(rest, cs[1..], needed);
      assert k - 1 == GatherCount(rest, cs[1..], needed);
      assert cs[..k] == [cs[0]] + cs[1..][..k - 1];
      SpanConcat([cs[0]], cs[1..][..k - 1]);
      assert Span([cs[0]]) == Marker + cs[0].size;
      assert Gathered(rest, cs[1..], k - 1) == Gathered(total, cs, k);
      forall i | 0 <= i < k
        ensures !cs[i].alloc
      {
        if i > 0 {
          assert cs[i] == cs[1..][i - 1];
        }
      }
      assert k < |cs| ==> cs[k] == cs[1..][k - 1];
    }
  }

  /** While the loop goes on, it does not have enough. */
  lemma {:induction false} GatherNeeds(total: nat, cs: seq<Block>, needed: nat, j: nat)
    requires j < GatherCount(total, cs, needed)
    ensures Gathered(total, cs, j) < needed && !cs[j].alloc
    decreases |cs|
  {
    if j > 0 {
      GatherNeeds(total + Marker + cs[0].size, cs[1..], needed, j - 1);
      assert cs[..j] == [cs[0]] + cs[1..][..j - 1];
      SpanConcat([cs[0]], cs[1..][..j - 1]);
      SpanOne(cs[0]);
    }
  }

  /** Sizes that are 4 modulo 8 stay so, which leaves room for the header of a remainder. */
  lemma GatherSized(total: nat, cs: seq<Block>, needed: nat, k: nat)
    requires k <= |cs| && AllSized(cs[..k]) && total % 8 == 4 && needed % 8 == 4
    ensures Gathered(total, cs, k) % 8 == 4
    ensures Gathered(total, cs, k) > needed ==> Gathered(total, cs, k) - needed >= 8
  {
    SpanSized(cs[..k]);
  }

  // ---------------------------------------------------------------- malloc_from_freed

  datatype Fit = Fit(found: bool, offset: nat, blocks: seq<Block>)

  /** The remainder of a split leaves room for its header. */
  ghost predicate Splittable(bs: seq<Block>, needed: nat) {
    AllSized(bs) && needed % 8 == 4
  }

  /**
   * What the search of malloc_from_freed does to a completely allocated heap: free blocks are
   * merged on the way; the first one that becomes large enough is cut to size and marked as used.
   */
  ghost function FirstFit(bs: seq<Block>, needed: nat): (r: Fit)
    requires Splittable(bs, needed)
    decreases |bs|
  {
    if bs == [] then Fit(false, 0, [])
    else if bs[0].alloc then
      var r := FirstFit(bs[1..], needed);
      Fit(r.found, Marker + bs[0].size + r.offset, [bs[0]] + r.blocks)
    else
      var k := GatherCount(bs[0].size, bs[1..], needed);
      var possible := Gathered(bs[0].size, bs[1..], k);
      GatherSized(bs[0].size, bs[1..], needed, k);
      if possible >= needed then Fit(true, 0, Merged(Block(0, true), possible, needed) + bs[k + 1..])
      else
        var r := FirstFit(bs[k + 1..], needed);
        Fit(r.found, Marker + possible + r.offset, [Block(possible, false)] + r.blocks)
  }

  lemma SizedTail(bs: seq<Block>, n: nat)
    requires AllSized(bs) && n <= |bs|
    ensures AllSized(bs[n..]) && AllSized(bs[..n])
  {
  }

  /** The blocks after the search, by the state of the first block. */
  lemma FirstFitBlocks(bs: seq<Block>, needed: nat)
    requires Splittable(bs, needed) && bs != []
    ensures bs[0].alloc ==>
              AllSized(bs[1..]) && FirstFit(bs, needed).blocks == [bs[0]] + FirstFit(bs[1..], needed).blocks
    ensures !bs[0].alloc ==>
              var k := GatherCount(bs[0].size, bs[1..], needed);
              var possible := Gathered(bs[0].size, bs[1..], k);
              && AllSized(bs[k + 1..])
              && possible % 8 == 4
              && (possible > needed ==> possible - needed >= 8)
              && FirstFit(bs, needed).blocks ==
                 if possible >= needed then Merged(Block(0, true), possible, needed) + bs[k + 1..]
                 else [Block(possible, false)] + FirstFit(bs[k + 1..], needed).blocks
  {
    if !bs[0].alloc {
      GatherSized(bs[0].size, bs[1..], needed, GatherCount(bs[0].size, bs[1..], needed));
    }
  }

  lemma SizedConcat(a: seq<Block>, b: seq<Block>)
    requires AllSized(a) && AllSized(b)
    ensures AllSized(a + b)
  {
  }

  lemma SpanOne(b: Block)
    ensures Span([b]) == Marker + b.size
  {
  }

  /** Neither the bytes covered nor the size congruence change. */
  lemma {:induction false} FirstFitConserves(bs: seq<Block>, needed: nat)
    requires Splittable(bs, needed)
    ensures Span(FirstFit(bs, needed).blocks) == Span(bs)
    ensures AllSized(FirstFit(bs, needed).blocks)
    decreases |bs|
  {
    hide FirstFit, Span, AllSized;
    if bs == [] {
      FirstFitEmpty(needed);
    } else {
      FirstFitBlocks(bs, needed);
      if bs[0].alloc {
        assert bs == [bs[0]] + bs[1..];
        SpanConcat([bs[0]], bs[1..]);
        FirstFitConserves(bs[1..], needed);
        SpanConcat([bs[0]], FirstFit(bs[1..], needed).blocks);
        SizedHead(bs);
        SizedConcat([bs[0]], FirstFit(bs[1..], needed).blocks);
      } else {
        var k := GatherCount(bs[0].size, bs[1..], needed);
        var possible := Gathered(bs[0].size, bs[1..], k);
        SpanOfRun(bs, k);
        if possible >= needed {
          var m := Merged(Block(0, true), possible, needed);
          MergedSpan(Block(0, true), possible, needed);
          MergedSized(Block(0, true), possible, needed);
          SpanConcat(m, bs[k + 1..]);
          SizedConcat(m, bs[k + 1..]);
        } else {
          var m := [Block(possible, false)];
          FirstFitConserves(bs[k + 1..], needed);
          SpanOne(Block(possible, false));
          MergedSized(Block(0, false), possible, needed);
          SpanConcat(m, FirstFit(bs[k + 1..], needed).blocks);
          SizedConcat(m, FirstFit(bs[k + 1..], needed).blocks);
        }
      }
    }
  }

  lemma FirstFitEmpty(needed: nat)
    requires needed % 8 == 4
    ensures AllSized([]) && FirstFit([], needed) == Fit(false, 0, [])
  {
  }

  lemma SizedHead(bs: seq<Block>)
    requires AllSized(bs) && bs != []
    ensures AllSized([bs[0]]) && AllSized(bs[1..])
  {
  }

  lemma MergedSized(b: Block, possible: nat, needed: nat)
    requires possible % 8 == 4 && needed % 8 == 4 && (possible > needed ==> possible - needed >= 8)
    ensures AllSized(Merged(b, possible, needed))
  {
  }

  /** A block and the `k` blocks behind it, and the rest. */
  lemma SpanOfRun(bs: seq<Block>, k: nat)
    requires k < |bs|
    ensures Span(bs[..k + 1]) == Marker + Gathered(bs[0].size, bs[1..], k)
    ensures Span(bs) == Marker + Gathered(bs[0].size, bs[1..], k) + Span(bs[k + 1..])
  {
    hide Span;
    assert bs[..k + 1] == [bs[0]] + bs[1..][..k];
    SpanConcat([bs[0]], bs[1..][..k]);
    SpanOne(bs[0]);
    assert bs == bs[..k + 1] + bs[k + 1..];
    SpanConcat(bs[..k + 1], bs[k + 1..]);
  }

  /** A maximal run of adjacent free blocks. */
  ghost predicate IsRun(bs: seq<Block>, i: nat, j: nat) {
    && i < j <= |bs|
    && (forall n | i <= n < j :: !bs[n].alloc)
    && (i == 0 || bs[i - 1].alloc)
    && (j == |bs| || bs[j].alloc)
  }

  /** A maximal free run whose payloads and inner headers hold `needed` bytes. */
  ghost predicate BigRun(bs: seq<Block>, i: nat, j: nat, needed: nat) {
    IsRun(bs, i, j) && Span(bs[i..j]) >= Marker + needed
  }

  ghost predicate HasBigRun(bs: seq<Block>, needed: nat) {
    exists i: nat, j: nat :: BigRun(bs, i, j, needed)
  }

  /** `i` is where the lowest big run starts. */
  ghost predicate LowestBigRun(bs: seq<Block>, i: nat, needed: nat) {
    && (exists j: nat :: BigRun(bs, i, j, needed))
    && (forall i': nat, j': nat | BigRun(bs, i', j', needed) :: i <= i')
  }

  /** Behind a complete prefix, runs are the runs of the rest. */
  lemma RunsOfTail(bs: seq<Block>, n: nat, i: nat, j: nat, needed: nat)
    requires 0 < n <= |bs| && (bs[n - 1].alloc || n == |bs| || bs[n].alloc)
    ensures BigRun(bs[n..], i, j, needed) <==> BigRun(bs, i + n, j + n, needed)
  {
    var t := bs[n..];
    if j <= |t| && i < j {
      assert t[i..j] == bs[i + n..j + n];
      assert forall x | i <= x < j :: t[x] == bs[x + n];
      assert forall x | i + n <= x < j + n :: bs[x] == t[x - n];
    }
  }

  lemma HeadRun(bs: seq<Block>, n: nat, i: nat, j: nat)
    requires 0 < n <= |bs| && (forall x | 0 <= x < n :: !bs[x].alloc) && (n == |bs| || bs[n].alloc)
    requires IsRun(bs, i, j) && i < n
    ensures i == 0 && j == n
  {
  }

  lemma {:induction false} FreePrefix(bs: seq<Block>, needed: nat)
    requires bs != [] && !bs[0].alloc
    ensures var k := GatherCount(bs[0].size, bs[1..], needed);
            && (forall x | 0 <= x <= k :: !bs[x].alloc)
            && (Gathered(bs[0].size, bs[1..], k) >= needed || k + 1 == |bs| || bs[k + 1].alloc)
  {
    GatherStops(bs[0].size, bs[1..], needed);
    var k := GatherCount(bs[0].size, bs[1..], needed);
    forall x | 0 <= x <= k
      ensures !bs[x].alloc
    {
      assert x > 0 ==> bs[x] == bs[1..][x - 1];
    }
  }

  /** A free prefix is the start of a run that is at least as long. */
  lemma RunFrom(bs: seq<Block>, n: nat) returns (j: nat)
    requires 0 < n <= |bs| && forall x | 0 <= x < n :: !bs[x].alloc
    ensures IsRun(bs, 0, j) && n <= j && Span(bs[..j]) >= Span(bs[..n])
  {
    j := n;
    while j < |bs| && !bs[j].alloc
      invariant n <= j <= |bs|
      invariant forall x | 0 <= x < j :: !bs[x].alloc
    {
      j := j + 1;
    }
    assert bs[..j] == bs[..n] + bs[n..j];
    SpanConcat(bs[..n], bs[n..j]);
  }

  /**
   * The search succeeds exactly when some maximal free run is large enough, and then it is the
   * start of the lowest such run that is returned.
   */
  lemma {:induction false} FirstFitFinds(bs: seq<Block>, needed: nat)
    requires Splittable(bs, needed)
    ensures FirstFit(bs, needed).found <==> HasBigRun(bs, needed)
    ensures FirstFit(bs, needed).found ==>
              exists i: nat :: i <= |bs| && LowestBigRun(bs, i, needed) && FirstFit(bs, needed).offset == Span(bs[..i])
    decreases |bs|
  {
    hide Span, FirstFit;
    if bs == [] {
      FirstFitCases(bs, needed);
    } else if bs[0].alloc {
      FirstFitCases(bs, needed);
      FirstFitFinds(bs[1..], needed);
      TailFinds(bs, 1, needed);
    } else {
      var k := GatherCount(bs[0].size, bs[1..], needed);
      FirstFitCases(bs, needed);
      if Gathered(bs[0].size, bs[1..], k) >= needed {
        HeadIsBig(bs, needed);
        assert bs[..0] == [];
      } else {
        HeadTooSmall(bs, needed);
        FirstFitFinds(bs[k + 1..], needed);
        TailFinds(bs, k + 1, needed);
      }
    }
  }

  /** Enough was gathered from the first block on: its run is the lowest big one. */
  lemma HeadIsBig(bs: seq<Block>, needed: nat)
    requires bs != [] && !bs[0].alloc
    requires Gathered(bs[0].size, bs[1..], GatherCount(bs[0].size, bs[1..], needed)) >= needed
    ensures HasBigRun(bs, needed) && LowestBigRun(bs, 0, needed)
  {
    hide Span;
    var k := GatherCount(bs[0].size, bs[1..], needed);
    FreePrefix(bs, needed);
    SpanOfRun(bs, k);
    var j := RunFrom(bs, k + 1);
    assert bs[0..j] == bs[..j];
    assert BigRun(bs, 0, j, needed);
  }

  /** Too little was gathered from the first block on: no big run starts before the rest. */
  lemma HeadTooSmall(bs: seq<Block>, needed: nat)
    requires bs != [] && !bs[0].alloc
    requires Gathered(bs[0].size, bs[1..], GatherCount(bs[0].size, bs[1..], needed)) < needed
    ensures var k := GatherCount(bs[0].size, bs[1..], needed);
            && (forall i: nat, j: nat | BigRun(bs, i, j, needed) :: i >= k + 1)
            && (k + 1 == |bs| || bs[k + 1].alloc)
  {
    hide Span;
    var k := GatherCount(bs[0].size, bs[1..], needed);
    FreePrefix(bs, needed);
    SpanOfRun(bs, k);
    assert bs[0..k + 1] == bs[..k + 1];
    forall i: nat, j: nat | BigRun(bs, i, j, needed)
      ensures i >= k + 1
    {
      if i < k + 1 {
        HeadRun(bs, k + 1, i, j);
      }
    }
  }

  /** The three ways the search goes on. */
  lemma FirstFitCases(bs: seq<Block>, needed: nat)
    requires Splittable(bs, needed)
    ensures bs == [] ==> !FirstFit(bs, needed).found && !HasBigRun(bs, needed)
    ensures bs != [] && bs[0].alloc ==>
              && AllSized(bs[1..])
              && FirstFit(bs, needed).found == FirstFit(bs[1..], needed).found
              && FirstFit(bs, needed).offset == Span(bs[..1]) + FirstFit(bs[1..], needed).offset
    ensures bs != [] && !bs[0].alloc ==>
              var k := GatherCount(bs[0].size, bs[1..], needed);
              && AllSized(bs[k + 1..])
              && if Gathered(bs[0].size, bs[1..], k) >= needed then FirstFit(bs, needed).found && FirstFit(bs, needed).offset == Span([]) == 0
                 else
                   && FirstFit(bs, needed).found == FirstFit(bs[k + 1..], needed).found
                   && FirstFit(bs, needed).offset == Span(bs[..k + 1]) + FirstFit(bs[k + 1..], needed).offset
  {
    if bs != [] {
      if bs[0].alloc {
        assert bs[..1] == [bs[0]];
      } else {
        SpanOfRun(bs, GatherCount(bs[0].size, bs[1..], needed));
      }
    }
  }

  /** What the search finds in the rest is what it finds in the whole, when no big run starts before. */
  lemma TailFinds(bs: seq<Block>, n: nat, needed: nat)
    requires Splittable(bs, needed) && 0 < n <= |bs| && AllSized(bs[n..]) && (bs[n - 1].alloc || n == |bs| || bs[n].alloc)
    requires forall i: nat, j: nat | BigRun(bs, i, j, needed) :: i >= n
    ensures HasBigRun(bs[n..], needed) <==> HasBigRun(bs, needed)
    ensures forall i: nat | i <= |bs[n..]| && LowestBigRun(bs[n..], i, needed) ::
              LowestBigRun(bs, i + n, needed) && Span(bs[..i + n]) == Span(bs[..n]) + Span(bs[n..][..i])
  {
    hide Span;
    forall i: nat, j: nat
      ensures BigRun(bs[n..], i, j, needed) <==> BigRun(bs, i + n, j + n, needed)
    {
      RunsOfTail(bs, n, i, j, needed);
    }
    if HasBigRun(bs, needed) {
      var i: nat, j: nat :| BigRun(bs, i, j, needed);
      assert BigRun(bs[n..], i - n, j - n, needed);
    }
    if HasBigRun(bs[n..], needed) {
      var i: nat, j: nat :| BigRun(bs[n..], i, j, needed);
      assert BigRun(bs, i + n, j + n, needed);
    }
    forall i: nat | i <= |bs[n..]| && LowestBigRun(bs[n..], i, needed)
      ensures LowestBigRun(bs, i + n, needed) && Span(bs[..i + n]) == Span(bs[..n]) + Span(bs[n..][..i])
    {
      var j: nat :| BigRun(bs[n..], i, j, needed);
      assert BigRun(bs, i + n, j + n, needed);
      forall i': nat, j': nat | BigRun(bs, i', j', needed)
        ensures i + n <= i'
      {
        assert BigRun(bs[n..], i' - n, j' - n, needed);
      }
      assert bs[..i + n] == bs[..n] + bs[n..][..i];
      SpanConcat(bs[..n], bs[n..][..i]);
    }
  }

  /** The payloads in use after the search: those before, and the one found. */
  lemma {:induction false} FirstFitLive(lo: nat, bs: seq<Block>, needed: nat)
    requires Splittable(bs, needed)
    ensures var r := FirstFit(bs, needed);
            var p := lo + r.offset + Marker;
            if r.found then p !in Live(lo, bs) && Live(lo, r.blocks) == Live(lo, bs)[p := needed]
            else Live(lo, r.blocks) == Live(lo, bs)
    decreases |bs|
  {
    hide FirstFit, Span, AllSized, Live;
    if bs == [] {
      FirstFitEmpty(needed);
    } else {
      FirstFitBlocks(bs, needed);
      FirstFitCases(bs, needed);
      var n := if bs[0].alloc then 1 else GatherCount(bs[0].size, bs[1..], needed) + 1;
      var mid := lo + Span(bs[..n]);
      assert bs == bs[..n] + bs[n..];
      LiveConcat(lo, bs[..n], bs[n..]);
      if bs[0].alloc {
        var r := FirstFit(bs[1..], needed);
        assert bs[..1] == [bs[0]];
        FirstFitLive(mid, bs[1..], needed);
        LiveConcat(lo, [bs[0]], r.blocks);
        LiveBelow(lo, [bs[0]], mid + r.offset + Marker);
        AddLater(Live(lo, [bs[0]]), Live(mid, bs[1..]), mid + r.offset + Marker, needed);
      } else {
        var possible := Gathered(bs[0].size, bs[1..], n - 1);
        FreePrefix(bs, needed);
        SpanOfRun(bs, n - 1);
        LiveOfFree(lo, bs[..n]);
        if possible >= needed {
          var m := Merged(Block(0, true), possible, needed);
          MergedSpan(Block(0, true), possible, needed);
          LiveConcat(lo, m, bs[n..]);
          LiveOfMerged(lo, possible, needed);
          LiveAbove(mid, bs[n..], lo + Marker);
          AddFirst(Live(mid, bs[n..]), lo + Marker, needed);
        } else {
          var r := FirstFit(bs[n..], needed);
          SpanOne(Block(possible, false));
          FirstFitLive(mid, bs[n..], needed);
          LiveOfFree(lo, [Block(possible, false)]);
          LiveConcat(lo, [Block(possible, false)], r.blocks);
          AddNothing(Live(mid, bs[n..]));
          AddNothing(Live(mid, r.blocks));
        }
      }
    }
  }

  lemma AddFirst(x: map<nat, nat>, p: nat, len: nat)
    requires p !in x
    ensures map[p := len] + x == x[p := len] && map[] + x == x
  {
  }

  lemma AddLater(x: map<nat, nat>, y: map<nat, nat>, p: nat, len: nat)
    requires p !in x
    ensures x + y[p := len] == (x + y)[p := len]
  {
  }

  lemma AddNothing(x: map<nat, nat>)
    ensures map[] + x == x
  {
  }

  lemma LiveBelow(lo: nat, bs: seq<Block>, p: nat)
    requires p >= lo + Span(bs) + Marker
    ensures p !in Live(lo, bs)
  {
    if p in Live(lo, bs) {
      LiveInside(lo, bs, p);
    }
  }

  lemma LiveAbove(lo: nat, bs: seq<Block>, p: nat)
    requires p < lo + Marker
    ensures p !in Live(lo, bs)
  {
    if p in Live(lo, bs) {
      LiveInside(lo, bs, p);
    }
  }

  lemma {:induction false} LiveOfFree(lo: nat, bs: seq<Block>)
    requires forall i | 0 <= i < |bs| :: !bs[i].alloc
    ensures Live(lo, bs) == map[]
    decreases |bs|
  {
    if bs != [] {
      LiveOfFree(lo + Marker + bs[0].size, bs[1..]);
    }
  }

  lemma LiveOfMerged(lo: nat, possible: nat, needed: nat)
    requires possible >= needed && (possible > needed ==> possible - needed >= Marker)
    ensures Live(lo, Merged(Block(0, true), possible, needed)) == map[lo + Marker := needed]
  {
    var m := Merged(Block(0, true), possible, needed);
    assert m[1..] == if possible == needed then [] else [Block(possible - needed - Marker, false)];
    LiveOfFree(lo + Marker + needed, m[1..]);
    assert m[0] == Block(needed, true);
  }

  /** When nothing is found, every free run has become one block, and still none is large enough. */
  lemma {:induction false} NotFoundNoRun(bs: seq<Block>, needed: nat)
    requires Splittable(bs, needed) && !FirstFit(bs, needed).found
    ensures !HasBigRun(FirstFit(bs, needed).blocks, needed)
    ensures bs != [] && bs[0].alloc ==> FirstFit(bs, needed).blocks != [] && FirstFit(bs, needed).blocks[0].alloc
    ensures bs == [] ==> FirstFit(bs, needed).blocks == []
    decreases |bs|
  {
    hide Span, FirstFit, HasBigRun, BigRun;
    if bs == [] {
      FirstFitEmpty(needed);
      NoRunInNothing(needed);
    } else {
      FirstFitBlocks(bs, needed);
      FirstFitCases(bs, needed);
      if bs[0].alloc {
        NotFoundNoRun(bs[1..], needed);
        NoRunBehind(bs[0], FirstFit(bs[1..], needed).blocks, needed);
      } else {
        var k := GatherCount(bs[0].size, bs[1..], needed);
        FreePrefix(bs, needed);
        NotFoundNoRun(bs[k + 1..], needed);
        NoRunBehind(Block(Gathered(bs[0].size, bs[1..], k), false), FirstFit(bs[k + 1..], needed).blocks, needed);
      }
    }
  }

  lemma NoRunInNothing(needed: nat)
    ensures !HasBigRun([], needed)
  {
  }

  lemma NoRunBehind(b: Block, tail: seq<Block>, needed: nat)
    requires !HasBigRun(tail, needed)
    requires b.alloc || (b.size < needed && (tail == [] || tail[0].alloc))
    ensures !HasBigRun([b] + tail, needed)
  {
    hide Span;
    var bs := [b] + tail;
    assert bs[1..] == tail;
    forall i: nat, j: nat | BigRun(bs, i, j, needed)
      ensures false
    {
      if i == 0 {
        assert !bs[0].alloc && (|bs| == 1 || bs[1] == tail[0]);
        HeadRun(bs, 1, i, j);
        assert bs[0..1] == [b];
        SpanOne(b);
      } else {
        RunsOfTail(bs, 1, i - 1, j - 1, needed);
      }
    }
  }
}
