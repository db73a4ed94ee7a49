/**
 * The host's tables, as db.h describes them: rows with a primary key, each under a handle that is
 * never used again, in an order by (secondary key, primary key).
 */
module HostTables {

  /** Where a row stands in a table. A primary table has one rank only; a secondary table ranks by its key. */
  datatype Pos = Pos(rank: int, pk: nat)

  predicate PosLess(a: Pos, b: Pos) {
    a.rank < b.rank || (a.rank == b.rank && a.pk < b.pk)
  }

  datatype Cell<D> = Cell(pos: Pos, data: D)

  /** The handle returned when there is no row: the end iterator, or -1 for a table that does not exist. */
  const EndItr: int := -2
  const NoTable: int := -1

  datatype Table<D> = Table(cells: map<int, Cell<D>>, at: map<nat, int>, next: nat) {

    /**
     * Each live row has one handle, below the next one to be given out, and is found by its primary
     * key. The next one only ever rises, so that no handle is given out twice.
     */
    ghost predicate Valid() {
      && (forall h | h in cells :: 0 <= h < next && cells[h].pos.pk in at && at[cells[h].pos.pk] == h)
      && (forall pk | pk in at :: at[pk] in cells && cells[at[pk]].pos.pk == pk)
    }

    /** The rows by primary key. */
    ghost function Rows(): (r: map<nat, D>)
      requires Valid()
    {
      map pk | pk in at :: cells[at[pk]].data
    }

    /** The rows stand in the order of these positions. */
    ghost predicate Stands(order: map<nat, Pos>)
      requires Valid()
    {
      at.Keys == order.Keys && forall pk | pk in at :: cells[at[pk]].pos == order[pk]
    }

    /** db_store_i64 and db_idx*_store, for a primary key that is not in the table. */
    function Store(pos: Pos, data: D): (r: Table<D>) {
      Table(cells[next := Cell(pos, data)], at[pos.pk := next], next + 1)
    }

    /** db_update_i64 and db_idx*_update. */
    function Update(h: int, rank: int, data: D): (r: Table<D>)
      requires h in cells
    {
      this.(cells := cells[h := Cell(Pos(rank, cells[h].pos.pk), data)])
    }

    /** db_remove_i64 and db_idx*_remove. */
    function Remove(h: int): (r: Table<D>)
      requires h in cells
    {
      this.(cells := cells - {h}, at := at - {cells[h].pos.pk})
    }

    /** db_find_i64 and db_idx*_find_primary. */
    function FindPrimary(pk: nat): (h: int) {
      if pk in at then at[pk] else EndItr
    }

    /** db_end_i64: -1 for a table without rows, which does not exist. */
    function End(): (h: int) {
      if |cells| == 0 then NoTable else EndItr
    }
  }

  lemma StoreKeeps<D>(t: Table<D>, order: map<nat, Pos>, pos: Pos, data: D)
    requires t.Valid() && t.Stands(order) && pos.pk !in t.at
    ensures var r := t.Store(pos, data);
            && r.Valid() && r.at == t.at[pos.pk := t.next]
            && (forall h | h in t.cells :: h < t.next) && r.next > t.next
            && r.Rows() == t.Rows()[pos.pk := data] && r.Stands(order[pos.pk := pos])
  {
  }

  lemma UpdateKeeps<D>(t: Table<D>, order: map<nat, Pos>, h: int, rank: int, data: D)
    requires t.Valid() && t.Stands(order) && h in t.cells
    ensures var r := t.Update(h, rank, data); var pk := t.cells[h].pos.pk;
            && r.Valid() && r.at == t.at && r.next == t.next
            && r.Rows() == t.Rows()[pk := data] && r.Stands(order[pk := Pos(rank, pk)])
  {
  }

  lemma RemoveKeeps<D>(t: Table<D>, order: map<nat, Pos>, h: int)
    requires t.Valid() && t.Stands(order) && h in t.cells
    ensures var r := t.Remove(h); var pk := t.cells[h].pos.pk;
            && r.Valid() && r.at == t.at - {pk} && r.next == t.next
            && r.Rows() == t.Rows() - {pk} && r.Stands(order - {pk})
  {
  }

  // ---------------------------------------------------------------- looking up by position

  /** `r` is the first key at or behind `pos`. */
  ghost predicate IsFirstFrom(order: map<nat, Pos>, pos: Pos, r: nat) {
    && r in order && !PosLess(order[r], pos)
    && forall q | q in order && !PosLess(order[q], pos) :: q == r || PosLess(order[r], order[q])
  }

  ghost predicate NoneFrom(order: map<nat, Pos>, pos: Pos) {
    forall q | q in order :: PosLess(order[q], pos)
  }

  /** `r` is the last key before `pos`. */
  ghost predicate IsLastBefore(order: map<nat, Pos>, pos: Pos, r: nat) {
    && r in order && PosLess(order[r], pos)
    && forall q | q in order && PosLess(order[q], pos) :: q == r || PosLess(order[q], order[r])
  }

  ghost predicate NoneBefore(order: map<nat, Pos>, pos: Pos) {
    forall q | q in order :: !PosLess(order[q], pos)
  }

  /** `r` is the last key of all. */
  ghost predicate IsLast(order: map<nat, Pos>, r: nat) {
    r in order && forall q | q in order :: q == r || PosLess(order[q], order[r])
  }

  /** Every key stands at a position of its own. */
  ghost predicate WellOrdered(order: map<nat, Pos>) {
    forall q | q in order :: order[q].pk == q
  }

  predicate FirstCell<D>(t: Table<D>, h: int, pos: Pos) {
    && h in t.cells && !PosLess(t.cells[h].pos, pos)
    && forall g | g in t.cells && !PosLess(t.cells[g].pos, pos) :: !PosLess(t.cells[g].pos, t.cells[h].pos)
  }

  predicate LastCell<D>(t: Table<D>, h: int, pos: Pos) {
    && h in t.cells && PosLess(t.cells[h].pos, pos)
    && forall g | g in t.cells && PosLess(t.cells[g].pos, pos) :: !PosLess(t.cells[h].pos, t.cells[g].pos)
  }

  /** db_lowerbound_i64, db_idx*_lowerbound and, at the position behind a row, the upper bounds and the next row. */
  method LowerBound<D>(t: Table<D>, pos: Pos, ghost order: map<nat, Pos>) returns (h: int)
    requires t.Valid() && t.Stands(order)
    ensures h < 0 ==> NoneFrom(order, pos)
    ensures h >= 0 ==> h in t.cells && IsFirstFrom(order, pos, t.cells[h].pos.pk)
  {
    if g :| g in t.cells && FirstCell(t, g, pos) {
      h := g;
      FirstCellMeaning(t, h, pos, order);
    } else {
      ghost var best := NoFirst(t, t.cells.Keys, pos);
      assert best !in t.cells || !FirstCell(t, best, pos);
      forall q | q in order
        ensures PosLess(order[q], pos)
      {
        var c := t.at[q];
        assert c in t.cells.Keys && order[q] == t.cells[c].pos;
      }
      h := EndItr;
    }
  }

  /** db_previous_i64 and db_idx*_previous. */
  method Previous<D>(t: Table<D>, pos: Pos, ghost order: map<nat, Pos>) returns (h: int)
    requires t.Valid() && t.Stands(order)
    ensures h < 0 ==> NoneBefore(order, pos)
    ensures h >= 0 ==> h in t.cells && IsLastBefore(order, pos, t.cells[h].pos.pk)
  {
    if g :| g in t.cells && LastCell(t, g, pos) {
      h := g;
      LastCellMeaning(t, h, pos, order);
    } else {
      ghost var best := NoLast(t, t.cells.Keys, pos);
      assert best !in t.cells || !LastCell(t, best, pos);
      forall q | q in order
        ensures !PosLess(order[q], pos)
      {
        var c := t.at[q];
        assert c in t.cells.Keys && order[q] == t.cells[c].pos;
      }
      h := NoTable;
    }
  }

  lemma FirstCellMeaning<D>(t: Table<D>, h: int, pos: Pos, order: map<nat, Pos>)
    requires t.Valid() && t.Stands(order) && FirstCell(t, h, pos)
    ensures IsFirstFrom(order, pos, t.cells[h].pos.pk)
  {
    forall q | q in order && !PosLess(order[q], pos)
      ensures q == t.cells[h].pos.pk || PosLess(t.cells[h].pos, order[q])
    {
      var c := t.at[q];
      assert c in t.cells && order[q] == t.cells[c].pos;
    }
  }

  lemma LastCellMeaning<D>(t: Table<D>, h: int, pos: Pos, order: map<nat, Pos>)
    requires t.Valid() && t.Stands(order) && LastCell(t, h, pos)
    ensures IsLastBefore(order, pos, t.cells[h].pos.pk)
  {
    forall q | q in order && PosLess(order[q], pos)
      ensures q == t.cells[h].pos.pk || PosLess(order[q], t.cells[h].pos)
    {
      var c := t.at[q];
      assert c in t.cells && order[q] == t.cells[c].pos;
    }
  }

  /** Among finitely many cells at or behind a position there is a first one. */
  lemma {:induction false} NoFirst<D>(t: Table<D>, hs: set<int>, pos: Pos) returns (best: int)
    requires t.Valid() && hs <= t.cells.Keys
    ensures (forall g | g in hs :: PosLess(t.cells[g].pos, pos)) ||
            (best in hs && !PosLess(t.cells[best].pos, pos) &&
             forall g | g in hs && !PosLess(t.cells[g].pos, pos) :: !PosLess(t.cells[g].pos, t.cells[best].pos))
    decreases hs
  {
    best := 0;
    if g :| g in hs {
      var b := NoFirst(t, hs - {g}, pos);
      if !PosLess(t.cells[g].pos, pos) && (b !in hs - {g} || PosLess(t.cells[b].pos, pos) || PosLess(t.cells[g].pos, t.cells[b].pos)) {
        best := g;
      } else {
        best := b;
      }
    }
  }

  lemma {:induction false} NoLast<D>(t: Table<D>, hs: set<int>, pos: Pos) returns (best: int)
    requires t.Valid() && hs <= t.cells.Keys
    ensures (forall g | g in hs :: !PosLess(t.cells[g].pos, pos)) ||
            (best in hs && PosLess(t.cells[best].pos, pos) &&
             forall g | g in hs && PosLess(t.cells[g].pos, pos) :: !PosLess(t.cells[best].pos, t.cells[g].pos))
    decreases hs
  {
    best := 0;
    if g :| g in hs {
      var b := NoLast(t, hs - {g}, pos);
      if PosLess(t.cells[g].pos, pos) && (b !in hs - {g} || !PosLess(t.cells[b].pos, pos) || PosLess(t.cells[b].pos, t.cells[g].pos)) {
        best := g;
      } else {
        best := b;
      }
    }
  }

  predicate TopCell<D>(t: Table<D>, h: int) {
    h in t.cells && forall g | g in t.cells :: !PosLess(t.cells[h].pos, t.cells[g].pos)
  }

  /** db_previous_i64 and db_idx*_previous on the end iterator. */
  method LastRow<D>(t: Table<D>, ghost order: map<nat, Pos>) returns (h: int)
    requires t.Valid() && t.Stands(order)
    ensures h < 0 ==> order == map[]
    ensures h >= 0 ==> h in t.cells && IsLast(order, t.cells[h].pos.pk)
  {
    if g :| g in t.cells && TopCell(t, g) {
      h := g;
      forall q | q in order
        ensures q == t.cells[h].pos.pk || PosLess(order[q], t.cells[h].pos)
      {
        var c := t.at[q];
        assert c in t.cells && order[q] == t.cells[c].pos;
      }
    } else {
      ghost var best := SomeTop(t, t.cells.Keys);
      assert best !in t.cells || !TopCell(t, best);
      assert forall g | g in t.cells.Keys :: false;
      h := NoTable;
    }
  }

  /** Among finitely many cells there is a last one. */
  lemma {:induction false} SomeTop<D>(t: Table<D>, hs: set<int>) returns (best: int)
    requires t.Valid() && hs <= t.cells.Keys
    ensures forall g | g in hs :: best in hs && !PosLess(t.cells[best].pos, t.cells[g].pos)
    decreases hs
  {
    best := 0;
    if g :| g in hs {
      var b := SomeTop(t, hs - {g});
      best := if b !in hs - {g} || PosLess(t.cells[b].pos, t.cells[g].pos) then g else b;
      forall c | c in hs
        ensures !PosLess(t.cells[best].pos, t.cells[c].pos)
      {
        assert c == g || c in hs - {g};
      }
    }
  }
}
