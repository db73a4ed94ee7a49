/** Loops that contracts write over a table or one of its secondary indices. */
module IndexWalks {
  import opened HostTables
  import opened MultiIndexModel
  import opened MultiIndexRuns
  import opened Wrappers

  /** The keys in `visited` are those before the iterator, in order. */
  ghost predicate Visited(order: map<nat, Pos>, visited: seq<nat>, end: bool, at: nat) {
    && (end || at in order)
    && (forall i | 0 <= i < |visited| :: visited[i] in order)
    && (forall i, j | 0 <= i < j < |visited| :: PosLess(order[visited[i]], order[visited[j]]))
    && (forall q | q in order :: q in visited <==> end || PosLess(order[q], order[at]))
  }

  lemma VisitNext(order: map<nat, Pos>, visited: seq<nat>, at: nat, end: bool, next: nat)
    requires WellOrdered(order) && Visited(order, visited, false, at)
    requires if end then NoneFrom(order, Pos(order[at].rank, at + 1))
             else IsFirstFrom(order, Pos(order[at].rank, at + 1), next)
    ensures at !in visited && Visited(order, visited + [at], end, next)
  {
    var v := visited + [at];
    forall q | q in order
      ensures q in v <==> end || PosLess(order[q], order[next])
    {
      assert q in v <==> q in visited || q == at;
    }
  }

  lemma VisitedAt(order: map<nat, Pos>, visited: seq<nat>, at: nat)
    requires Visited(order, visited, false, at)
    ensures at in order
  {
  }

  lemma AllVisited(order: map<nat, Pos>, visited: seq<nat>)
    requires Visited(order, visited, true, 0)
    ensures forall pk :: pk in visited <==> pk in order
    ensures forall i, j | 0 <= i < j < |visited| :: PosLess(order[visited[i]], order[visited[j]])
  {
  }

  ghost function Unvisited(order: map<nat, Pos>, visited: seq<nat>): set<nat> {
    set pk | pk in order && pk !in visited
  }

  lemma FewerUnvisited(order: map<nat, Pos>, visited: seq<nat>, at: nat)
    requires at in order && at !in visited
    ensures Unvisited(order, visited + [at]) < Unvisited(order, visited)
  {
    assert at in Unvisited(order, visited) && at !in Unvisited(order, visited + [at]);
  }

  lemma NothingVisited(order: map<nat, Pos>, end: bool, at: nat)
    requires if end then order == map[] else at in order && NoneBefore(order, order[at])
    ensures Visited(order, [], end, at)
  {
  }

  lemma OrderMeaning<T(!new)>(m: MultiIndex<T>, index: Option<nat>)
    requires m.primary.Valid() && (index.Some? ==> index.value < |m.extractors|)
    ensures WellOrdered(OrderOf(m, index)) && OrderOf(m, index).Keys == m.Rows().Keys
    ensures forall pk | pk in m.Rows() ::
              OrderOf(m, index)[pk].rank == if index.None? then 0 else m.extractors[index.value](m.Rows()[pk]).rank
  {
  }

  /** begin of the table, or of the index whose lowest key is `lowest`. */
  method BeginOf<T(!new)>(m: MultiIndex<T>, index: Option<nat>, lowest: SecondaryKey) returns (it: Item?<T>)
    requires m.Valid() && (index.Some? ==> index.value < |m.extractors| && forall row: T :: lowest.rank <= m.extractors[index.value](row).rank)
    modifies m`items, m.Items()`iters
    ensures m.Valid() && fresh(m.Items() - old(m.Items()))
    ensures it == null ==> OrderOf(m, index) == map[]
    ensures it != null ==>
              && it in m.Items() && m.keyOf(it.row) in OrderOf(m, index)
              && NoneBefore(OrderOf(m, index), OrderOf(m, index)[m.keyOf(it.row)])
  {
    hide m.HostOk, m.CacheOk, m.KeyOk;
    m.HostIsOk();
    OrderMeaning(m, index);
    if index.None? {
      it := m.Begin();
    } else {
      it := m.IndexBegin(index.value, lowest);
    }
  }

  /** ++ of an iterator on a row. */
  method Advance<T(!new)>(m: MultiIndex<T>, index: Option<nat>, it: Item<T>) returns (next: Item?<T>)
    requires m.Valid() && it in m.Items() && (index.Some? ==> index.value < |m.extractors|)
    modifies m`items, m.Items()`iters
    ensures m.Valid() && fresh(m.Items() - old(m.Items())) && (next != null ==> next in m.Items())
    ensures m.keyOf(it.row) in OrderOf(m, index)
    ensures StandsAt(OrderOf(m, index), Behind(OrderOf(m, index), m.keyOf(it.row)), next == null, if next == null then 0 else m.keyOf(next.row))
  {
    hide m.HostOk, m.CacheOk, m.KeyOk;
    m.HostIsOk();
    m.ItemRow(it);
    OrderMeaning(m, index);
    var ok;
    if index.None? {
      ok, next := m.Next(it);
    } else {
      ok, next := m.IndexNext(index.value, it);
    }
  }

  /** The position right behind a row. */
  ghost function Behind(order: map<nat, Pos>, at: nat): (pos: Pos)
    requires at in order
  {
    Pos(order[at].rank, at + 1)
  }

  /** One turn of a walk: the row's key is noted and the iterator moved on. */
  method Visit<T(!new)>(m: MultiIndex<T>, index: Option<nat>, it: Item<T>, ghost visited: seq<nat>) returns (key: nat, next: Item?<T>)
    requires m.Valid() && m.primary.Valid() && it in m.Items() && (index.Some? ==> index.value < |m.extractors|)
    requires Visited(OrderOf(m, index), visited, false, m.keyOf(it.row))
    modifies m`items, m.Items()`iters
    ensures m.Valid() && fresh(m.Items() - old(m.Items())) && (next != null ==> next in m.Items())
    ensures Visited(OrderOf(m, index), visited + [key], next == null, if next == null then 0 else m.keyOf(next.row))
    ensures Unvisited(OrderOf(m, index), visited + [key]) < Unvisited(OrderOf(m, index), visited)
  {
    hide m.HostOk, m.CacheOk, m.KeyOk, Table.Rows, Table.Stands, Table.Valid, OrderOf, NoneFrom, IsFirstFrom, Visited, Unvisited, WellOrdered, PosLess, ItemsOf;
    OrderMeaning(m, index);
    ghost var order := OrderOf(m, index);
    key := m.keyOf(it.row);
    VisitedAt(order, visited, key);
    next := Advance(m, index, it);
    VisitNext(order, visited, key, next == null, if next == null then 0 else m.keyOf(next.row));
    FewerUnvisited(order, visited, key);
  }

  /** for (auto it = begin(); it != end(); ++it): every row once, in the order of the table or of the index. */
  method Walk<T(!new)>(m: MultiIndex<T>, index: Option<nat>, lowest: SecondaryKey) returns (visited: seq<nat>)
    requires m.Valid() && (index.Some? ==> index.value < |m.extractors| && forall row: T :: lowest.rank <= m.extractors[index.value](row).rank)
    modifies m`items, m.Items()`iters
    ensures m.Valid() && m.Rows() == old(m.Rows())
    ensures forall pk :: pk in visited <==> pk in m.Rows()
    ensures forall i, j | 0 <= i < j < |visited| ::
              visited[i] in OrderOf(m, index) && visited[j] in OrderOf(m, index) && PosLess(OrderOf(m, index)[visited[i]], OrderOf(m, index)[visited[j]])
  {
    hide m.HostOk, m.CacheOk, m.KeyOk, Table.Rows, Table.Stands, Table.Valid, OrderOf, NoneFrom, IsFirstFrom, Visited, Unvisited, WellOrdered, PosLess;
    m.HostIsOk();
    OrderMeaning(m, index);
    ghost var order := OrderOf(m, index);
    visited := [];
    var it := BeginOf(m, index, lowest);
    NothingVisited(order, it == null, if it == null then 0 else m.keyOf(it.row));
    while it != null
      invariant m.Valid() && fresh(m.Items() - old(m.Items())) && (it != null ==> it in m.Items())
      invariant Visited(order, visited, it == null, if it == null then 0 else m.keyOf(it.row))
      decreases Unvisited(order, visited)
    {
      ghost var cached := m.Items();
      var key, next := Visit(m, index, it, visited);
      assert m.Items() - old(m.Items()) <= (m.Items() - cached) + (cached - old(m.Items()));
      visited := visited + [key];
      it := next;
    }
    AllVisited(order, visited);
  }

  // ---------------------------------------------------------------- erasing a range

  /** The iterator stands on the first row at or behind `pos`, or at the end when there is none. */
  ghost predicate StandsAt(order: map<nat, Pos>, pos: Pos, end: bool, at: nat) {
    if end then NoneFrom(order, pos) else IsFirstFrom(order, pos, at)
  }

  predicate Within(pos: Pos, lo: Pos, hi: Pos) {
    !PosLess(pos, lo) && PosLess(pos, hi)
  }

  /** What is left of `rows` differs from it only by rows from the range. */
  ghost predicate OnlyRangeGone<T>(rows: map<nat, T>, order: map<nat, Pos>, left: map<nat, T>, lo: Pos, hi: Pos) {
    && left.Keys <= rows.Keys == order.Keys
    && (forall pk | pk in left :: left[pk] == rows[pk])
    && (forall pk | pk in rows && pk !in left :: Within(order[pk], lo, hi))
  }

  ghost function OutsideRange<T>(rows: map<nat, T>, order: map<nat, Pos>, lo: Pos, hi: Pos): map<nat, T> {
    map pk | pk in rows && pk in order && !Within(order[pk], lo, hi) :: rows[pk]
  }

  ghost function Without(order: map<nat, Pos>, left: set<nat>): (r: map<nat, Pos>) {
    map pk | pk in order && pk in left :: order[pk]
  }

  /** Erasing the first row behind `lo` brings the next one to its place, and leaves the first one behind `hi`. */
  lemma EraseFirst(order: map<nat, Pos>, lo: Pos, hi: Pos, at: nat, end: bool, next: nat, last: bool, stop: nat)
    requires WellOrdered(order) && IsFirstFrom(order, lo, at) && PosLess(order[at], hi)
    requires StandsAt(order, Behind(order, at), end, next) && StandsAt(order, hi, last, stop)
    ensures StandsAt(order - {at}, lo, end, next) && StandsAt(order - {at}, hi, last, stop)
  {
    var left := order - {at};
    assert forall q | q in left :: q in order && left[q] == order[q] && q != at;
  }

  /** As long as the iterators differ, the first one stands on a row of the range. */
  lemma StillInRange(order: map<nat, Pos>, lo: Pos, hi: Pos, end: bool, at: nat, last: bool, stop: nat)
    requires !PosLess(hi, lo) && StandsAt(order, lo, end, at) && StandsAt(order, hi, last, stop)
    requires end != last || (!end && at != stop)
    ensures !end && at in order && Within(order[at], lo, hi)
  {
  }

  lemma RangeIsGone<T>(rows: map<nat, T>, order: map<nat, Pos>, left: map<nat, T>, lo: Pos, hi: Pos, end: bool, at: nat)
    requires !PosLess(hi, lo) && OnlyRangeGone(rows, order, left, lo, hi)
    requires StandsAt(Without(order, left.Keys), lo, end, at) && StandsAt(Without(order, left.Keys), hi, end, at)
    ensures left == OutsideRange(rows, order, lo, hi)
  {
    assert forall pk | pk in left :: pk in Without(order, left.Keys) && Without(order, left.Keys)[pk] == order[pk];
  }

  lemma OneGone<T>(rows: map<nat, T>, order: map<nat, Pos>, left: map<nat, T>, lo: Pos, hi: Pos, pk: nat)
    requires OnlyRangeGone(rows, order, left, lo, hi) && pk in left && Within(order[pk], lo, hi)
    ensures OnlyRangeGone(rows, order, left - {pk}, lo, hi)
    ensures Without(order, (left - {pk}).Keys) == Without(order, left.Keys) - {pk}
  {
  }

  lemma NothingGone<T(!new)>(m: MultiIndex<T>, index: Option<nat>, lo: Pos, hi: Pos)
    requires m.primary.Valid() && (index.Some? ==> index.value < |m.extractors|)
    ensures OnlyRangeGone(m.Rows(), OrderOf(m, index), m.Rows(), lo, hi)
    ensures Without(OrderOf(m, index), m.Rows().Keys) == OrderOf(m, index)
  {
    OrderMeaning(m, index);
  }

  /** Erasing a row takes its key out of every order. */
  lemma PrimaryWithout<T>(rows: map<nat, T>, pk: nat)
    ensures PrimaryOrder(rows - {pk}) == PrimaryOrder(rows) - {pk}
  {
  }

  lemma IndexWithout<T>(rows: map<nat, T>, extract: T -> SecondaryKey, pk: nat)
    ensures IndexOrder(rows - {pk}, extract) == IndexOrder(rows, extract) - {pk}
  {
  }

  /** What holds between two erasures. */
  ghost predicate Erasing<T(!new)>(m: MultiIndex<T>, index: Option<nat>, rows: map<nat, T>, order: map<nat, Pos>, lo: Pos, hi: Pos, it: Item?<T>, end: Item?<T>)
    reads m, m.Items(), it, end
  {
    && m.Valid() && m.primary.Valid() && (index.Some? ==> index.value < |m.extractors|) && !PosLess(hi, lo)
    && (it != null ==> it in m.Items()) && (end != null ==> end in m.Items())
    && OnlyRangeGone(rows, order, m.Rows(), lo, hi) && OrderOf(m, index) == Without(order, m.Rows().Keys)
    && StandsAt(OrderOf(m, index), lo, it == null, if it == null then 0 else m.keyOf(it.row))
    && StandsAt(OrderOf(m, index), hi, end == null, if end == null then 0 else m.keyOf(end.row))
  }

  /** it = erase(it), through the table or through an index. */
  method EraseVia<T(!new)>(m: MultiIndex<T>, index: Option<nat>, it: Item<T>) returns (next: Item?<T>)
    requires m.Valid() && m.writable && it in m.Items() && (index.Some? ==> index.value < |m.extractors|)
    modifies m, m.Items()`iters
    ensures m.Valid() && fresh(m.Items() - old(m.Items())) && old(m.Items()) - {it} <= m.Items() && (next != null ==> next in m.Items())
    ensures m.Rows() == old(m.Rows()) - {m.keyOf(it.row)} && m.keyOf(it.row) in old(m.Rows())
    ensures OrderOf(m, index) == old(OrderOf(m, index)) - {m.keyOf(it.row)} && m.keyOf(it.row) in old(OrderOf(m, index))
    ensures StandsAt(old(OrderOf(m, index)), Behind(old(OrderOf(m, index)), m.keyOf(it.row)), next == null, if next == null then 0 else m.keyOf(next.row))
  {
    hide m.HostOk, m.CacheOk, m.KeyOk, Table.Rows, Table.Stands, Table.Valid, PrimaryOrder, IndexOrder, ItemsOf;
    m.HostIsOk();
    m.ItemRow(it);
    OrderMeaning(m, index);
    ghost var rows := m.Rows();
    var ok;
    if index.None? {
      ok, next := m.EraseAt(it);
      PrimaryWithout(rows, m.keyOf(it.row));
    } else {
      ok, next := m.IndexEraseAt(index.value, it);
      IndexWithout(rows, m.extractors[index.value], m.keyOf(it.row));
    }
    m.HostIsOk();
  }

  method EraseOne<T(!new)>(m: MultiIndex<T>, index: Option<nat>, ghost rows: map<nat, T>, ghost order: map<nat, Pos>, ghost lo: Pos, ghost hi: Pos,
                           it: Item?<T>, end: Item?<T>)
    returns (next: Item?<T>)
    requires Erasing(m, index, rows, order, lo, hi, it, end) && m.writable && it != end
    modifies m, m.Items()`iters
    ensures Erasing(m, index, rows, order, lo, hi, next, end) && fresh(m.Items() - old(m.Items()))
    ensures m.Rows().Keys < old(m.Rows()).Keys
  {
    hide m.HostOk, m.CacheOk, m.KeyOk, Table.Rows, Table.Stands, Table.Valid, OrderOf, NoneFrom, IsFirstFrom, OnlyRangeGone, ItemsOf, Without, Within;
    m.HostIsOk();
    ghost var now := OrderOf(m, index);
    OrderMeaning(m, index);
    if it != null && end != null {
      m.ItemUnique(it, end);
    }
    StillInRange(now, lo, hi, it == null, if it == null then 0 else m.keyOf(it.row), end == null, if end == null then 0 else m.keyOf(end.row));
    m.ItemRow(it);
    ghost var at := m.keyOf(it.row);
    WithoutAt(order, m.Rows().Keys, at);
    OneGone(rows, order, m.Rows(), lo, hi, at);
    WithinMeaning(now[at], lo, hi);
    var r := EraseVia(m, index, it);
    m.HostIsOk();
    EraseFirst(now, lo, hi, at, r == null, if r == null then 0 else m.keyOf(r.row), end == null, if end == null then 0 else m.keyOf(end.row));
    next := r;
  }

  lemma WithoutAt(order: map<nat, Pos>, left: set<nat>, at: nat)
    requires at in Without(order, left)
    ensures at in order && Without(order, left)[at] == order[at]
  {
  }

  lemma WithinMeaning(pos: Pos, lo: Pos, hi: Pos)
    requires Within(pos, lo, hi)
    ensures PosLess(pos, hi)
  {
  }

  /** while (it != end) it = erase(it); */
  method EraseLoop<T(!new)>(m: MultiIndex<T>, index: Option<nat>, ghost rows: map<nat, T>, ghost order: map<nat, Pos>, ghost lo: Pos, ghost hi: Pos,
                            first: Item?<T>, end: Item?<T>)
    requires Erasing(m, index, rows, order, lo, hi, first, end) && m.writable
    modifies m, m.Items()`iters
    ensures m.Valid() && m.Rows() == OutsideRange(rows, order, lo, hi)
  {
    hide m.HostOk, m.CacheOk, m.KeyOk, Table.Rows, Table.Stands, Table.Valid, OrderOf, NoneFrom, IsFirstFrom, OnlyRangeGone, OutsideRange, Without;
    var it := first;
    while it != end
      invariant Erasing(m, index, rows, order, lo, hi, it, end) && fresh(m.Items() - old(m.Items()))
      decreases if m.primary.Valid() then m.Rows().Keys else {}
    {
      ghost var cached := m.Items();
      it := EraseOne(m, index, rows, order, lo, hi, it, end);
      assert m.Items() - old(m.Items()) <= (m.Items() - cached) + (cached - old(m.Items()));
    }
    RangeIsGone(rows, order, m.Rows(), lo, hi, it == null, if it == null then 0 else m.keyOf(it.row));
  }

  /** Erasing the rows of an index with keys from `lo` up to and without `hi`, between two lower bounds. */
  method IndexEraseRange<T(!new)>(m: MultiIndex<T>, k: nat, lo: SecondaryKey, hi: SecondaryKey)
    requires m.Valid() && m.writable && k < |m.extractors| && lo.rank <= hi.rank
    modifies m, m.Items()`iters
    ensures m.Valid()
    ensures m.Rows() == map pk | pk in old(m.Rows()) && !(lo.rank <= m.extractors[k](old(m.Rows())[pk]).rank < hi.rank) :: old(m.Rows())[pk]
  {
    hide m.HostOk, m.CacheOk, m.KeyOk, Table.Rows, Table.Stands, Table.Valid, NoneFrom, IsFirstFrom, OnlyRangeGone, OutsideRange, Without, IndexOrder;
    m.HostIsOk();
    ghost var from, to, rows := Pos(lo.rank, 0), Pos(hi.rank, 0), m.Rows();
    NothingGone(m, Some(k), from, to);
    var it := m.IndexLowerBound(k, lo);
    ghost var cached, was := m.Items(), m.items;
    var end := m.IndexLowerBound(k, hi);
    m.CacheGrows(was);
    m.HostIsOk();
    assert m.Items() - old(m.Items()) <= (m.Items() - cached) + (cached - old(m.Items()));
    EraseLoop(m, Some(k), rows, IndexOrder(rows, m.extractors[k]), from, to, it, end);
    IndexRange(rows, m.extractors[k], lo.rank, hi.rank);
  }

  lemma IndexRange<T>(rows: map<nat, T>, extract: T -> SecondaryKey, lo: int, hi: int)
    ensures OutsideRange(rows, IndexOrder(rows, extract), Pos(lo, 0), Pos(hi, 0))
         == map pk | pk in rows && !(lo <= extract(rows[pk]).rank < hi) :: rows[pk]
  {
  }

  /** Erasing the rows of the table with keys from `lo` up to and without `hi`. */
  method EraseRange<T(!new)>(m: MultiIndex<T>, lo: nat, hi: nat)
    requires m.Valid() && m.writable && lo <= hi
    modifies m, m.Items()`iters
    ensures m.Valid() && m.Rows() == map pk | pk in old(m.Rows()) && !(lo <= pk < hi) :: old(m.Rows())[pk]
  {
    hide m.HostOk, m.CacheOk, m.KeyOk, Table.Rows, Table.Stands, Table.Valid, NoneFrom, IsFirstFrom, OnlyRangeGone, OutsideRange, Without, PrimaryOrder;
    m.HostIsOk();
    ghost var rows := m.Rows();
    NothingGone(m, None, Pos(0, lo), Pos(0, hi));
    var it := m.LowerBoundOf(lo);
    ghost var cached, was := m.Items(), m.items;
    var end := m.LowerBoundOf(hi);
    m.CacheGrows(was);
    m.HostIsOk();
    assert m.Items() - old(m.Items()) <= (m.Items() - cached) + (cached - old(m.Items()));
    EraseLoop(m, None, rows, PrimaryOrder(rows), Pos(0, lo), Pos(0, hi), it, end);
    PrimaryRange(rows, lo, hi);
  }

  lemma PrimaryRange<T>(rows: map<nat, T>, lo: nat, hi: nat)
    ensures OutsideRange(rows, PrimaryOrder(rows), Pos(0, lo), Pos(0, hi)) == map pk | pk in rows && !(lo <= pk < hi) :: rows[pk]
  {
  }
}
