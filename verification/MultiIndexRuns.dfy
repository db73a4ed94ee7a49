/**
 * Whole runs over a multi_index object: programs over iterators do what they do on a plain map
 * with orders derived from its rows.
 */
module MultiIndexRuns {
  import opened HostTables
  import opened MultiIndexModel
  import opened Wrappers

  // ---------------------------------------------------------------- the plain map

  /** Where an iterator of the plain map stands; the row of a dangling one has been erased. */
  datatype Reg = Dangling | End | At(pk: nat)

  /** The rows, the iterators, and what the next key depends on. */
  datatype Plain<T> = Plain(rows: map<nat, T>, regs: seq<Reg>, mark: Mark)

  /** What the type of the table and the contract fix. */
  datatype Schema<!T> = Schema(keyOf: T -> PrimaryKey, extractors: seq<T -> SecondaryKey>, writable: bool)

  /** Operations that only move an iterator. */
  datatype Move =
    | Begin | Find(pk: nat) | LowerBound(pk: nat) | UpperBound(pk: nat) | Next | Prev
    | IndexFind(k: nat, key: SecondaryKey) | IndexLowerBound(k: nat, key: SecondaryKey)
    | IndexUpperBound(k: nat, key: SecondaryKey) | IndexNext(k: nat) | IndexPrev(k: nat)
  {
    predicate Steps() {
      Next? || Prev? || IndexNext? || IndexPrev?
    }

    predicate Fits(indices: nat) {
      (IndexFind? || IndexLowerBound? || IndexUpperBound? || IndexNext? || IndexPrev?) ==> k < indices
    }
  }

  datatype Op<!T> =
    | Go(reg: nat, move: Move)
    | Copy(src: nat, dst: nat)
    | Emplace(row: T, dst: nat)
    | Modify(reg: nat, updater: T -> T)
    | Erase(reg: nat)
    | IndexErase(k: nat, reg: nat)
    | Same(a: nat, b: nat)
    | NextKey

  /** The first key at or behind a position, the last one before it, and the last of all. */
  ghost function First(order: map<nat, Pos>, pos: Pos): (r: Reg)
    ensures !r.Dangling?
  {
    if r :| IsFirstFrom(order, pos, r) then At(r) else End
  }

  ghost function LastBefore(order: map<nat, Pos>, pos: Pos): (r: Reg) {
    if r :| IsLastBefore(order, pos, r) then At(r) else End
  }

  ghost function Last(order: map<nat, Pos>): (r: Reg) {
    if r :| IsLast(order, r) then At(r) else End
  }

  /** One step of an iterator at `reg` in a given order; None is an aborted action. */
  ghost function After(order: map<nat, Pos>, reg: Reg): (r: Option<Reg>) {
    if reg.At? && reg.pk in order then Some(First(order, Pos(order[reg.pk].rank, reg.pk + 1))) else None
  }

  ghost function Before(order: map<nat, Pos>, reg: Reg): (r: Option<Reg>) {
    var prev := if reg.At? && reg.pk in order then LastBefore(order, order[reg.pk]) else Last(order);
    if prev.End? then None else Some(prev)
  }

  /** Where a move takes an iterator. */
  ghost function Target<T>(x: Schema<T>, rows: map<nat, T>, move: Move, reg: Reg): (r: Option<Reg>)
    requires move.Fits(|x.extractors|)
  {
    match move
    case Begin => Some(First(PrimaryOrder(rows), Pos(0, 0)))
    case Find(pk) => Some(if pk in rows then At(pk) else End)
    case LowerBound(pk) => Some(First(PrimaryOrder(rows), Pos(0, pk)))
    case UpperBound(pk) => Some(First(PrimaryOrder(rows), Pos(0, pk + 1)))
    case Next => After(PrimaryOrder(rows), reg)
    case Prev => Before(PrimaryOrder(rows), reg)
    case IndexFind(k, key) =>
      var lb := First(IndexOrder(rows, x.extractors[k]), Pos(key.rank, 0));
      Some(if lb.At? && lb.pk in rows && x.extractors[k](rows[lb.pk]).rank == key.rank then lb else End)
    case IndexLowerBound(k, key) => Some(First(IndexOrder(rows, x.extractors[k]), Pos(key.rank, 0)))
    case IndexUpperBound(k, key) => Some(First(IndexOrder(rows, x.extractors[k]), Pos(key.rank + 1, 0)))
    case IndexNext(k) => After(IndexOrder(rows, x.extractors[k]), reg)
    case IndexPrev(k) => Before(IndexOrder(rows, x.extractors[k]), reg)
  }

  /** What an operation lets a contract see: the row of its iterator, whether two iterators are equal, or a key. */
  datatype Shown<T> = NoRow | ShowsRow(row: T) | Answer(same: bool) | ShowsKey(key: nat)

  /** The outcome of an operation: outside the contract, aborted, or a new state and what it shows. */
  datatype Outcome<T> = Undefined | Abort | Done(s: Plain<T>, shown: Shown<T>)

  function Put<T>(s: Plain<T>, dst: nat, reg: Reg): (r: Outcome<T>)
    requires dst < |s.regs|
  {
    Done(s.(regs := s.regs[dst := reg]), if reg.At? && reg.pk in s.rows then ShowsRow(s.rows[reg.pk]) else NoRow)
  }

  /** Erasing a row leaves every other iterator on it dangling. */
  function EraseRow<T>(s: Plain<T>, pk: nat): (r: Plain<T>) {
    var regs := seq(|s.regs|, i requires 0 <= i < |s.regs| => if s.regs[i] == At(pk) then Dangling else s.regs[i]);
    s.(rows := s.rows - {pk}, regs := regs)
  }

  ghost function EraseOutcome<T>(x: Schema<T>, s: Plain<T>, order: map<nat, Pos>, reg: nat): (r: Outcome<T>)
    requires reg < |s.regs|
  {
    match s.regs[reg]
    case Dangling => Undefined
    case End => Abort
    case At(pk) =>
      if !x.writable || pk !in order then Abort
      else Put(EraseRow(s, pk), reg, First(order, Pos(order[pk].rank, pk + 1)))
  }

  ghost function Step<T>(x: Schema<T>, s: Plain<T>, op: Op<T>): (r: Outcome<T>) {
    match op
    case Go(reg, move) =>
      if reg >= |s.regs| || !move.Fits(|x.extractors|) || (move.Steps() && s.regs[reg].Dangling?) then Undefined
      else (match Target(x, s.rows, move, s.regs[reg])
            case None => Abort
            case Some(r) => Put(s, reg, r))
    case Copy(src, dst) =>
      if src >= |s.regs| || dst >= |s.regs| || s.regs[src].Dangling? then Undefined else Put(s, dst, s.regs[src])
    case Emplace(row, dst) =>
      if dst >= |s.regs| then Undefined
      else if !x.writable || x.keyOf(row) in s.rows then Abort
      else Put(s.(rows := s.rows[x.keyOf(row) := row], mark := Stored(s.mark, x.keyOf(row))), dst, At(x.keyOf(row)))
    case Modify(reg, updater) =>
      if reg >= |s.regs| || s.regs[reg].Dangling? then Undefined
      else if s.regs[reg].End? || s.regs[reg].pk !in s.rows || !x.writable then Abort
      else
        var pk := s.regs[reg].pk;
        var row := updater(s.rows[pk]);
        if x.keyOf(row) != pk then Abort else Put(s.(rows := s.rows[pk := row], mark := Stored(s.mark, pk)), reg, At(pk))
    case Erase(reg) =>
      if reg >= |s.regs| then Undefined else EraseOutcome(x, s, PrimaryOrder(s.rows), reg)
    case IndexErase(k, reg) =>
      if reg >= |s.regs| || k >= |x.extractors| then Undefined
      else EraseOutcome(x, s, IndexOrder(s.rows, x.extractors[k]), reg)
    case Same(a, b) =>
      if a >= |s.regs| || b >= |s.regs| || s.regs[a].Dangling? || s.regs[b].Dangling? then Undefined
      else Done(s, Answer(s.regs[a] == s.regs[b]))
    case NextKey =>
      var keys := if s.mark.Unasked? then s.rows.Keys else s.mark.keys;
      match NextKeyOf(keys)
      case None => Abort
      case Some(key) => Done(s.(mark := Asked(keys)), ShowsKey(key))
  }

  /** The least key above some keys, when there is one that is not reserved. */
  ghost function NextKeyOf(keys: set<nat>): (r: Option<nat>) {
    if key :| IsNextKey(keys, key) then Some(key) else None
  }

  /** A run ends with an abort or after its last operation; `shown` is what its operations showed on the way. */
  datatype Trace<T> = Trace(defined: bool, aborted: bool, rows: map<nat, T>, shown: seq<Shown<T>>)

  ghost function RunPlain<T>(x: Schema<T>, s: Plain<T>, ops: seq<Op<T>>): (r: Trace<T>)
    decreases |ops|
  {
    if |ops| == 0 then Trace(true, false, s.rows, [])
    else match Step(x, s, ops[0])
      case Undefined => Trace(false, false, s.rows, [])
      case Abort => Trace(true, true, s.rows, [])
      case Done(s', shown) =>
        var rest := RunPlain(x, s', ops[1..]);
        rest.(shown := [shown] + rest.shown)
  }

  // ---------------------------------------------------------------- the table object

  ghost function SchemaOf<T(!new)>(m: MultiIndex<T>): (x: Schema<T>) {
    Schema(m.keyOf, m.extractors, m.writable)
  }

  /** The item that an iterator holds is the one of its key. */
  ghost predicate Shows<T(!new)>(m: MultiIndex<T>, it: Item?<T>, reg: Reg)
    reads m`items, it
  {
    match reg
    case Dangling => true
    case End => it == null
    case At(pk) => it != null && it in m.Items() && m.keyOf(it.row) == pk
  }

  ghost predicate Coupled<T(!new)>(m: MultiIndex<T>, s: Plain<T>, regs: seq<Item?<T>>)
    reads m, m.Items(), set it: Item<T> | it in regs
  {
    && m.Valid() && m.Rows() == s.rows && m.mark == s.mark && |regs| == |s.regs|
    && forall i | 0 <= i < |regs| :: Shows(m, regs[i], s.regs[i])
  }

  lemma FirstIs(order: map<nat, Pos>, pos: Pos, r: nat)
    requires IsFirstFrom(order, pos, r)
    ensures First(order, pos) == At(r)
  {
  }

  lemma FirstIsEnd(order: map<nat, Pos>, pos: Pos)
    requires NoneFrom(order, pos)
    ensures First(order, pos) == End
  {
  }

  lemma LastBeforeIs(order: map<nat, Pos>, pos: Pos, r: nat)
    requires IsLastBefore(order, pos, r)
    ensures LastBefore(order, pos) == At(r)
  {
  }

  lemma LastIs(order: map<nat, Pos>, r: nat)
    requires IsLast(order, r)
    ensures Last(order) == At(r)
  {
  }

  /** What an object promises about a move, as a fact about its target. */
  ghost predicate Arrives<T(!new)>(m: MultiIndex<T>, target: Option<Reg>, ok: bool, r: Item?<T>)
    reads m`items, r
  {
    match target
    case None => !ok
    case Some(t) => ok && !t.Dangling? && Shows(m, r, t)
  }

  method MovePrimary<T(!new)>(m: MultiIndex<T>, move: Move) returns (r: Item?<T>)
    requires m.Valid() && (move.Begin? || move.Find? || move.LowerBound? || move.UpperBound?)
    modifies m`items
    ensures m.Valid() && old(m.items) <= m.items && fresh(m.Items() - old(m.Items()))
    ensures forall reg :: Arrives(m, Target(SchemaOf(m), m.Rows(), move, reg), true, r)
  {
    hide m.HostOk, m.CacheOk, m.KeyOk;
    match move
    case Begin =>
      r := m.Begin();
    case Find(pk) =>
      r := m.Find(pk);
    case LowerBound(pk) =>
      r := m.LowerBoundOf(pk);
    case UpperBound(pk) =>
      r := m.UpperBoundOf(pk);
  }

  method StepPrimary<T(!new)>(m: MultiIndex<T>, move: Move, it: Item?<T>, ghost reg: Reg) returns (ok: bool, r: Item?<T>)
    requires m.Valid() && (move.Next? || move.Prev?) && !reg.Dangling? && Shows(m, it, reg)
    modifies m`items
    ensures m.Valid() && old(m.items) <= m.items && fresh(m.Items() - old(m.Items()))
    ensures Arrives(m, Target(SchemaOf(m), m.Rows(), move, reg), ok, r)
  {
    hide m.HostOk, m.CacheOk, m.KeyOk;
    if it != null {
      m.ItemRow(it);
    }
    match move
    case Next =>
      ok, r := m.Next(it);
    case Prev =>
      ok, r := m.Prev(it);
  }

  method MoveIndex<T(!new)>(m: MultiIndex<T>, move: Move) returns (ok: bool, r: Item?<T>)
    requires m.Valid() && move.Fits(|m.extractors|)
    requires move.IndexFind? || move.IndexLowerBound? || move.IndexUpperBound?
    modifies m`items, m.Items()`iters
    ensures m.Valid() && old(m.items) <= m.items && fresh(m.Items() - old(m.Items()))
    ensures forall reg :: Arrives(m, Target(SchemaOf(m), m.Rows(), move, reg), ok, r)
  {
    hide m.HostOk, m.CacheOk, m.KeyOk;
    ok := true;
    match move
    case IndexFind(k, key) =>
      r := m.IndexFind(k, key);
      if r != null {
        m.ItemRow(r);
      }
    case IndexLowerBound(k, key) =>
      r := m.IndexLowerBound(k, key);
    case IndexUpperBound(k, key) =>
      r := m.IndexUpperBound(k, key);
  }

  method StepIndex<T(!new)>(m: MultiIndex<T>, move: Move, it: Item?<T>, ghost reg: Reg) returns (ok: bool, r: Item?<T>)
    requires m.Valid() && move.Fits(|m.extractors|) && (move.IndexNext? || move.IndexPrev?)
    requires !reg.Dangling? && Shows(m, it, reg)
    modifies m`items, m.Items()`iters
    ensures m.Valid() && old(m.items) <= m.items && fresh(m.Items() - old(m.Items()))
    ensures Arrives(m, Target(SchemaOf(m), m.Rows(), move, reg), ok, r)
  {
    hide m.HostOk, m.CacheOk, m.KeyOk;
    if it != null {
      m.ItemRow(it);
    }
    match move
    case IndexNext(k) =>
      ok, r := m.IndexNext(k, it);
    case IndexPrev(k) =>
      ok, r := m.IndexPrev(k, it);
  }

  /** A move of one iterator leaves the others where they are. */
  method ExecGo<T(!new)>(m: MultiIndex<T>, reg: nat, move: Move, regs: seq<Item?<T>>, ghost s: Plain<T>)
    returns (ok: bool, r: Item?<T>)
    requires Coupled(m, s, regs) && !Step(SchemaOf(m), s, Go(reg, move)).Undefined?
    modifies m`items, m.Items()`iters
    ensures fresh(m.Items() - old(m.Items()))
    ensures match Target(SchemaOf(m), s.rows, move, s.regs[reg])
            case None => !ok
            case Some(t) => ok && !t.Dangling? && Coupled(m, s.(regs := s.regs[reg := t]), regs[reg := r])
  {
    hide m.HostOk, m.CacheOk, m.KeyOk, Target, ItemsOf;
    ghost var was := m.items;
    if move.IndexFind? || move.IndexLowerBound? || move.IndexUpperBound? {
      ok, r := MoveIndex(m, move);
    } else if move.IndexNext? || move.IndexPrev? {
      ok, r := StepIndex(m, move, regs[reg], s.regs[reg]);
    } else if move.Next? || move.Prev? {
      ok, r := StepPrimary(m, move, regs[reg], s.regs[reg]);
    } else {
      r := MovePrimary(m, move);
      ok := true;
    }
    m.CacheGrows(was);
    m.HostIsOk();
    assert m.Rows() == s.rows;
    assert Arrives(m, Target(SchemaOf(m), s.rows, move, s.regs[reg]), ok, r);
    assert forall i | 0 <= i < |regs| :: Shows(m, regs[i], s.regs[i]);
  }

  method ExecEmplace<T(!new)>(m: MultiIndex<T>, row: T, dst: nat, regs: seq<Item?<T>>, ghost s: Plain<T>)
    returns (ok: bool, r: Item?<T>)
    requires Coupled(m, s, regs) && dst < |regs|
    modifies m
    ensures fresh(m.Items() - old(m.Items()))
    ensures ok <==> m.writable && m.keyOf(row) !in s.rows
    ensures ok ==> Coupled(m, Plain(s.rows[m.keyOf(row) := row], s.regs[dst := At(m.keyOf(row))], Stored(s.mark, m.keyOf(row))), regs[dst := r])
  {
    hide m.HostOk, m.CacheOk, m.KeyOk, ItemsOf, Table.Rows, Table.Stands, Table.Valid;
    m.HostIsOk();
    ghost var was := m.items;
    ok, r := m.Emplace(row);
    m.HostIsOk();
    m.CacheGrows(was);
    assert forall i | 0 <= i < |regs| :: Shows(m, regs[i], s.regs[i]);
  }

  method ExecModify<T(!new)>(m: MultiIndex<T>, reg: nat, updater: T -> T, regs: seq<Item?<T>>, ghost s: Plain<T>)
    returns (ok: bool)
    requires Coupled(m, s, regs) && reg < |regs| && !s.regs[reg].Dangling?
    modifies m, m.Items()
    ensures fresh(m.Items() - old(m.Items()))
    ensures match s.regs[reg]
            case End => !ok
            case At(pk) =>
              pk in s.rows &&
              (ok <==> m.writable && m.keyOf(updater(s.rows[pk])) == pk) &&
              (ok ==> Coupled(m, s.(rows := s.rows[pk := updater(s.rows[pk])], mark := Stored(s.mark, pk)), regs))
  {
    hide m.HostOk, m.CacheOk, m.KeyOk, ItemsOf, Table.Rows, Table.Stands, Table.Valid;
    m.HostIsOk();
    var it := regs[reg];
    if it == null {
      return false;
    }
    m.ItemRow(it);
    ok := m.Modify(it, updater);
    m.HostIsOk();
    assert ok ==> forall i | 0 <= i < |regs| :: Shows(m, regs[i], s.regs[i]);
  }

  /** After an erasure the iterators on the row dangle, and the others stand where they stood. */
  lemma EraseLeaves<T(!new)>(m: MultiIndex<T>, s: Plain<T>, pk: nat, regs: seq<Item?<T>>, i: nat, it: Item<T>)
    requires m.Valid() && i < |regs| == |s.regs| && m.keyOf(it.row) == pk
    requires match s.regs[i]
             case Dangling => true
             case End => regs[i] == null
             case At(q) => regs[i] != null && m.keyOf(regs[i].row) == q && (regs[i] != it ==> regs[i] in m.Items())
    ensures Shows(m, regs[i], EraseRow(s, pk).regs[i])
  {
  }

  method ExecErase<T(!new)>(m: MultiIndex<T>, reg: nat, regs: seq<Item?<T>>, ghost s: Plain<T>)
    returns (ok: bool, r: Item?<T>)
    requires Coupled(m, s, regs) && reg < |regs| && !s.regs[reg].Dangling?
    modifies m
    ensures fresh(m.Items() - old(m.Items()))
    ensures match s.regs[reg]
            case End => !ok
            case At(pk) =>
              pk in s.rows && (ok <==> m.writable) &&
              (ok ==> Coupled(m, EraseRow(s, pk).(regs := EraseRow(s, pk).regs[reg := First(PrimaryOrder(s.rows), Pos(0, pk + 1))]), regs[reg := r]))
  {
    hide m.HostOk, m.CacheOk, m.KeyOk, ItemsOf, Table.Rows, Table.Stands, Table.Valid;
    m.HostIsOk();
    var it := regs[reg];
    if it == null {
      return false, null;
    }
    m.ItemRow(it);
    ok, r := m.EraseAt(it);
    if ok {
      m.HostIsOk();
      forall i | 0 <= i < |regs|
        ensures Shows(m, regs[i], EraseRow(s, m.keyOf(it.row)).regs[i])
      {
        EraseLeaves(m, s, m.keyOf(it.row), regs, i, it);
      }
    }
  }

  method ExecIndexErase<T(!new)>(m: MultiIndex<T>, k: nat, reg: nat, regs: seq<Item?<T>>, ghost s: Plain<T>)
    returns (ok: bool, r: Item?<T>)
    requires Coupled(m, s, regs) && reg < |regs| && !s.regs[reg].Dangling? && k < |m.extractors|
    modifies m, m.Items()`iters
    ensures fresh(m.Items() - old(m.Items()))
    ensures match s.regs[reg]
            case End => !ok
            case At(pk) =>
              pk in s.rows && (ok <==> m.writable) &&
              (ok ==> Coupled(m, EraseRow(s, pk).(regs := EraseRow(s, pk).regs[reg :=
                                   First(IndexOrder(s.rows, m.extractors[k]), Pos(m.extractors[k](s.rows[pk]).rank, pk + 1))]), regs[reg := r]))
  {
    hide m.HostOk, m.CacheOk, m.KeyOk, ItemsOf, Table.Rows, Table.Stands, Table.Valid, First, IsFirstFrom, NoneFrom, IndexOrder;
    m.HostIsOk();
    var it := regs[reg];
    if it == null {
      return false, null;
    }
    m.ItemRow(it);
    ghost var order, pos := IndexOrder(s.rows, m.extractors[k]), Pos(m.extractors[k](it.row).rank, m.keyOf(it.row) + 1);
    ok, r := m.IndexEraseAt(k, it);
    if ok {
      m.HostIsOk();
      if r == null {
        FirstIsEnd(order, pos);
      } else {
        FirstIs(order, pos, m.keyOf(r.row));
      }
      forall i | 0 <= i < |regs|
        ensures Shows(m, regs[i], EraseRow(s, m.keyOf(it.row)).regs[i])
      {
        EraseLeaves(m, s, m.keyOf(it.row), regs, i, it);
      }
    }
  }

  lemma OrdersHold<T>(x: Schema<T>, rows: map<nat, T>, pk: nat)
    requires pk in rows
    ensures pk in PrimaryOrder(rows) && PrimaryOrder(rows)[pk].rank == 0
    ensures forall k | 0 <= k < |x.extractors| ::
              && pk in IndexOrder(rows, x.extractors[k])
              && IndexOrder(rows, x.extractors[k])[pk].rank == x.extractors[k](rows[pk]).rank
  {
  }

  /** The row that an iterator of the object shows is the one of the plain map. */
  lemma RowsShown<T(!new)>(m: MultiIndex<T>, s: Plain<T>, regs: seq<Item?<T>>, dst: nat)
    requires Coupled(m, s, regs) && dst < |regs| && !s.regs[dst].Dangling?
    ensures Put(s, dst, s.regs[dst]) == Done(s, if regs[dst] == null then NoRow else ShowsRow(regs[dst].row))
  {
    assert s.regs[dst := s.regs[dst]] == s.regs;
    if regs[dst] != null {
      m.ItemRow(regs[dst]);
    }
  }

  /** An operation on iterators that shows a row. */
  method ExecRow<T(!new)>(m: MultiIndex<T>, op: Op<T>, regs: seq<Item?<T>>, ghost s: Plain<T>)
    returns (ok: bool, regs': seq<Item?<T>>, shown: Shown<T>)
    requires Coupled(m, s, regs) && !Step(SchemaOf(m), s, op).Undefined? && !op.Same? && !op.NextKey?
    modifies m, m.Items()
    ensures fresh(m.Items() - old(m.Items()))
    ensures match Step(SchemaOf(m), s, op)
            case Abort => !ok
            case Done(s', sh) => ok && Coupled(m, s', regs') && shown == sh
  {
    hide m.HostOk, m.CacheOk, m.KeyOk, ItemsOf, Table.Rows, Table.Stands, Table.Valid, Target, First, PrimaryOrder, IndexOrder;
    if op.Modify? || op.Erase? || op.IndexErase? {
      if s.regs[op.reg].At? {
        m.ItemRow(regs[op.reg]);
        OrdersHold(SchemaOf(m), s.rows, s.regs[op.reg].pk);
      }
    }
    var dst: nat;
    var r: Item?<T>;
    match op {
      case Go(reg, move) =>
        dst := reg;
        ok, r := ExecGo(m, reg, move, regs, s);
      case Copy(src, to) =>
        dst, ok, r := to, true, regs[src];
      case Emplace(row, to) =>
        dst := to;
        ok, r := ExecEmplace(m, row, to, regs, s);
      case Modify(reg, updater) =>
        dst, r := reg, regs[reg];
        ok := ExecModify(m, reg, updater, regs, s);
      case Erase(reg) =>
        dst := reg;
        ok, r := ExecErase(m, reg, regs, s);
      case IndexErase(k, reg) =>
        dst := reg;
        ok, r := ExecIndexErase(m, k, reg, regs, s);
    }
    regs' := regs[dst := r];
    assert op.Modify? || op.Copy? ==> regs'[dst] == r;
    if ok {
      ghost var s' := Step(SchemaOf(m), s, op).s;
      assert op.Modify? ==> regs' == regs && s'.regs == s.regs;
      RowsShown(m, s', regs', dst);
    }
    shown := if r == null then NoRow else ShowsRow(r.row);
  }

  /** Iterators of the object are equal, as pointers to items, exactly when they stand at one place. */
  lemma SamePlace<T(!new)>(m: MultiIndex<T>, s: Plain<T>, regs: seq<Item?<T>>, a: nat, b: nat)
    requires Coupled(m, s, regs) && a < |regs| && b < |regs| && !s.regs[a].Dangling? && !s.regs[b].Dangling?
    ensures regs[a] == regs[b] <==> s.regs[a] == s.regs[b]
  {
    if regs[a] != null && regs[b] != null {
      m.ItemUnique(regs[a], regs[b]);
    }
  }

  lemma NextKeyIs(keys: set<nat>, key: nat)
    ensures IsNextKey(keys, key) ==> NextKeyOf(keys) == Some(key)
    ensures KeysExhausted(keys) ==> NextKeyOf(keys) == None
  {
  }

  /** There is a next key unless the keys reach up to the reserved ones. */
  lemma NextKeyMeaning(keys: set<nat>)
    ensures NextKeyOf(keys) == None <==> KeysExhausted(keys)
  {
    var top := Largest(keys);
    NextKeyIs(keys, if keys == {} then 0 else top + 1);
    assert keys != {} && top < KeyLimit - 3 ==> IsNextKey(keys, top + 1);
    assert keys == {} ==> IsNextKey(keys, 0);
  }

  lemma {:induction false} Largest(keys: set<nat>) returns (top: nat)
    ensures forall k | k in keys :: top in keys && k <= top
    decreases keys
  {
    top := 0;
    if g :| g in keys {
      var t := Largest(keys - {g});
      top := if t in keys - {g} && g < t then t else g;
      forall k | k in keys
        ensures k <= top
      {
        assert k == g || k in keys - {g};
      }
    }
  }

  /** available_primary_key answers as the keys of the plain map do. */
  method ExecNextKey<T(!new)>(m: MultiIndex<T>, regs: seq<Item?<T>>, ghost s: Plain<T>) returns (ok: bool, key: nat)
    requires Coupled(m, s, regs)
    modifies m`items, m`nextPrimaryKey, m`mark
    ensures fresh(m.Items() - old(m.Items()))
    ensures var keys := if s.mark.Unasked? then s.rows.Keys else s.mark.keys;
            match NextKeyOf(keys)
            case None => !ok
            case Some(k) => ok && key == k && Coupled(m, s.(mark := Asked(keys)), regs)
  {
    hide m.HostOk, m.CacheOk, m.KeyOk, ItemsOf, Table.Rows, Table.Stands, Table.Valid, NextKeyOf;
    m.HostIsOk();
    ghost var was := m.items;
    ok, key := m.AvailablePrimaryKey();
    m.HostIsOk();
    m.CacheGrows(was);
    NextKeyIs(m.mark.keys, key);
    assert forall i | 0 <= i < |regs| :: Shows(m, regs[i], s.regs[i]);
  }

  /** One operation of the object does what it does on the plain map. */
  method Exec<T(!new)>(m: MultiIndex<T>, op: Op<T>, regs: seq<Item?<T>>, ghost s: Plain<T>)
    returns (ok: bool, regs': seq<Item?<T>>, shown: Shown<T>)
    requires Coupled(m, s, regs) && !Step(SchemaOf(m), s, op).Undefined?
    modifies m, m.Items()
    ensures fresh(m.Items() - old(m.Items()))
    ensures match Step(SchemaOf(m), s, op)
            case Abort => !ok
            case Done(s', sh) => ok && Coupled(m, s', regs') && shown == sh
  {
    hide m.HostOk, m.CacheOk, m.KeyOk, ItemsOf, Table.Rows, Table.Stands, Table.Valid, Target, First, PrimaryOrder, IndexOrder, NextKeyOf, EraseOutcome;
    regs' := regs;
    if op.Same? {
      SamePlace(m, s, regs, op.a, op.b);
      ok, shown := true, Answer(regs[op.a] == regs[op.b]);
    } else if op.NextKey? {
      var key;
      ok, key := ExecNextKey(m, regs, s);
      shown := ShowsKey(key);
    } else {
      ok, regs', shown := ExecRow(m, op, regs, s);
    }
  }

  function Ends(n: nat): (r: seq<Reg>)
    ensures |r| == n && forall i | 0 <= i < n :: r[i] == End
  {
    seq(n, _ => End)
  }

  /**
   * Every run on the object, whatever its cache holds at the start, shows the rows that the run on
   * the plain map shows, aborts where that one aborts, and leaves the same rows behind.
   */
  method Run<T(!new)>(m: MultiIndex<T>, ops: seq<Op<T>>, n: nat) returns (aborted: bool, shown: seq<Shown<T>>)
    requires m.Valid() && RunPlain(SchemaOf(m), Plain(m.Rows(), Ends(n), m.mark), ops).defined
    modifies m, m.Items()
    ensures var t := RunPlain(SchemaOf(m), Plain(old(m.Rows()), Ends(n), old(m.mark)), ops);
            && aborted == t.aborted && shown == t.shown
            && (!aborted ==> m.Valid() && m.Rows() == t.rows)
  {
    hide m.HostOk, m.CacheOk, m.KeyOk, Step, Table.Rows, Table.Stands, Table.Valid, Ends;
    m.HostIsOk();
    ghost var x := SchemaOf(m);
    ghost var s := Plain(m.Rows(), Ends(n), m.mark);
    ghost var whole := RunPlain(x, s, ops);
    var regs: seq<Item?<T>> := seq(n, _ => null);
    shown := [];
    var i := 0;
    assert ops[0..] == ops;
    while i < |ops|
      invariant 0 <= i <= |ops| && Coupled(m, s, regs) && fresh(m.Items() - old(m.Items()))
      invariant RunPlain(x, s, ops[i..]).defined
      invariant var rest := RunPlain(x, s, ops[i..]);
                whole == Trace(true, rest.aborted, rest.rows, shown + rest.shown)
    {
      assert ops[i..][1..] == ops[i + 1..];
      ghost var cached := m.Items();
      var ok, next, row := Exec(m, ops[i], regs, s);
      if !ok {
        return true, shown;
      }
      assert m.Items() - old(m.Items()) <= (m.Items() - cached) + (cached - old(m.Items()));
      s := Step(x, s, ops[i]).s;
      shown := shown + [row];
      regs := next;
      i := i + 1;
    }
    aborted := false;
  }

  // ---------------------------------------------------------------- the order of the plain map

  /** First is the least position at or behind another, End when there is none. */
  lemma FirstMeaning(order: map<nat, Pos>, pos: Pos)
    requires WellOrdered(order)
    ensures match First(order, pos)
            case At(r) => IsFirstFrom(order, pos, r)
            case End => NoneFrom(order, pos)
  {
    var r := Least(order, order.Keys, pos);
    if q :| q in order && !PosLess(order[q], pos) {
      assert q in order.Keys && IsFirstFrom(order, pos, r);
    }
  }

  lemma {:induction false} Least(order: map<nat, Pos>, keys: set<nat>, pos: Pos) returns (best: nat)
    requires WellOrdered(order) && keys <= order.Keys
    ensures forall q | q in keys && !PosLess(order[q], pos) ::
              best in keys && !PosLess(order[best], pos) && (q == best || PosLess(order[best], order[q]))
    decreases keys
  {
    best := 0;
    if g :| g in keys {
      var b := Least(order, keys - {g}, pos);
      best := if !PosLess(order[g], pos) && (b !in keys - {g} || PosLess(order[b], pos) || PosLess(order[g], order[b])) then g else b;
      forall q | q in keys && !PosLess(order[q], pos)
        ensures best in keys && !PosLess(order[best], pos) && (q == best || PosLess(order[best], order[q]))
      {
        assert q == g || q in keys - {g};
      }
    }
  }

  /** The search backwards is the greatest position before another, or of all; End when there is none. */
  lemma LastBeforeMeaning(order: map<nat, Pos>, pos: Pos)
    requires WellOrdered(order)
    ensures match LastBefore(order, pos)
            case At(r) => IsLastBefore(order, pos, r)
            case End => NoneBefore(order, pos)
  {
    var r := Greatest(order, set q | q in order && PosLess(order[q], pos));
    if q :| q in order && PosLess(order[q], pos) {
      assert IsLastBefore(order, pos, r);
    }
  }

  lemma LastMeaning(order: map<nat, Pos>)
    requires WellOrdered(order)
    ensures match Last(order)
            case At(r) => IsLast(order, r)
            case End => order == map[]
  {
    var r := Greatest(order, order.Keys);
    if q :| q in order {
      assert q in order.Keys && IsLast(order, r);
    }
  }

  lemma {:induction false} Greatest(order: map<nat, Pos>, keys: set<nat>) returns (best: nat)
    requires WellOrdered(order) && keys <= order.Keys
    ensures forall q | q in keys :: best in keys && (q == best || PosLess(order[q], order[best]))
    decreases keys
  {
    best := 0;
    if g :| g in keys {
      var b := Greatest(order, keys - {g});
      best := if b !in keys - {g} || PosLess(order[b], order[g]) then g else b;
      forall q | q in keys
        ensures q == best || PosLess(order[q], order[best])
      {
        assert q == g || q in keys - {g};
      }
    }
  }

  /** A step back is refused exactly where no row is before, and otherwise reaches the last one before. */
  lemma BeforeMeaning(order: map<nat, Pos>, reg: Reg)
    requires WellOrdered(order) && (reg == End || (reg.At? && reg.pk in order))
    ensures Before(order, reg) == None <==> if reg == End then order == map[] else NoneBefore(order, order[reg.pk])
    ensures Before(order, reg).Some? ==>
              var r := Before(order, reg).value;
              r.At? && if reg == End then IsLast(order, r.pk) else IsLastBefore(order, order[reg.pk], r.pk)
  {
    if reg == End {
      LastMeaning(order);
    } else {
      LastBeforeMeaning(order, order[reg.pk]);
    }
  }

  /** Decrementing undoes incrementing, also at the end of the table or index. */
  lemma PrevUndoesNext(order: map<nat, Pos>, pk: nat)
    requires WellOrdered(order) && pk in order
    ensures After(order, At(pk)).Some? && Before(order, After(order, At(pk)).value) == Some(At(pk))
  {
    var pos := Pos(order[pk].rank, pk + 1);
    FirstMeaning(order, pos);
    match First(order, pos)
    case At(r) =>
      assert IsLastBefore(order, order[r], pk);
      LastBeforeIs(order, order[r], pk);
    case End =>
      assert IsLast(order, pk);
      LastIs(order, pk);
  }

  /** And incrementing undoes decrementing wherever that is allowed. */
  lemma NextUndoesPrev(order: map<nat, Pos>, reg: Reg)
    requires WellOrdered(order) && (reg == End || (reg.At? && reg.pk in order)) && Before(order, reg).Some?
    ensures After(order, Before(order, reg).value) == Some(reg)
  {
    var p := Before(order, reg).value.pk;
    var pos := Pos(order[p].rank, p + 1);
    if reg == End {
      assert NoneFrom(order, pos);
      FirstIsEnd(order, pos);
    } else {
      assert IsFirstFrom(order, pos, reg.pk);
      FirstIs(order, pos, reg.pk);
    }
  }

  // ---------------------------------------------------------------- stepping back and forth on the object

  /** A step over the primary index, or over index `k`. */
  function NextOf(index: Option<nat>): (m: Move) {
    if index.None? then Next else IndexNext(index.value)
  }

  function PrevOf(index: Option<nat>): (m: Move) {
    if index.None? then Prev else IndexPrev(index.value)
  }

  ghost function OrderOf<T(!new)>(m: MultiIndex<T>, index: Option<nat>): (order: map<nat, Pos>)
    requires m.primary.Valid() && (index.Some? ==> index.value < |m.extractors|)
    reads m`primary
  {
    if index.None? then PrimaryOrder(m.Rows()) else IndexOrder(m.Rows(), m.extractors[index.value])
  }

  method TakeStep<T(!new)>(m: MultiIndex<T>, move: Move, it: Item?<T>, ghost reg: Reg) returns (ok: bool, r: Item?<T>)
    requires m.Valid() && move.Steps() && move.Fits(|m.extractors|) && !reg.Dangling? && Shows(m, it, reg)
    modifies m`items, m.Items()`iters
    ensures m.Valid() && old(m.items) <= m.items && fresh(m.Items() - old(m.Items()))
    ensures Arrives(m, Target(SchemaOf(m), m.Rows(), move, reg), ok, r)
  {
    hide m.HostOk, m.CacheOk, m.KeyOk, Target;
    if move.IndexNext? || move.IndexPrev? {
      ok, r := StepIndex(m, move, it, reg);
    } else {
      ok, r := StepPrimary(m, move, it, reg);
    }
  }

  /** ++ and then -- brings an iterator back to its item, also over the last row. */
  method NextPrev<T(!new)>(m: MultiIndex<T>, index: Option<nat>, it: Item<T>) returns (r: Item?<T>)
    requires m.Valid() && it in m.Items() && (index.Some? ==> index.value < |m.extractors|)
    modifies m`items, m.Items()`iters
    ensures m.Valid() && r == it
  {
    hide m.HostOk, m.CacheOk, m.KeyOk, ItemsOf, Table.Rows, Table.Stands, Table.Valid, After, Before, PrimaryOrder, IndexOrder;
    m.HostIsOk();
    m.ItemRow(it);
    ghost var was, order, at := m.items, OrderOf(m, index), At(m.keyOf(it.row));
    OrdersAre(m, index);
    PrevUndoesNext(order, at.pk);
    var ok, next := TakeStep(m, NextOf(index), it, at);
    m.CacheGrows(was);
    was := m.items;
    ok, r := TakeStep(m, PrevOf(index), next, After(order, at).value);
    m.CacheGrows(was);
    m.ItemUnique(r, it);
  }

  /** -- and then ++ does, from a row and from the end; -- is refused exactly where no row is before. */
  method PrevNext<T(!new)>(m: MultiIndex<T>, index: Option<nat>, it: Item?<T>) returns (ok: bool, r: Item?<T>)
    requires m.Valid() && (it != null ==> it in m.Items()) && (index.Some? ==> index.value < |m.extractors|)
    modifies m`items, m.Items()`iters
    ensures m.Valid() && (ok ==> r == it)
    ensures !ok <==> if it == null then m.Rows() == map[]
                     else m.keyOf(it.row) in OrderOf(m, index) && NoneBefore(OrderOf(m, index), OrderOf(m, index)[m.keyOf(it.row)])
  {
    hide m.HostOk, m.CacheOk, m.KeyOk, ItemsOf, Table.Rows, Table.Stands, Table.Valid, After, Before, PrimaryOrder, IndexOrder;
    m.HostIsOk();
    if it != null {
      m.ItemRow(it);
    }
    ghost var was, order, at := m.items, OrderOf(m, index), if it == null then End else At(m.keyOf(it.row));
    OrdersAre(m, index);
    BeforeMeaning(order, at);
    var prev;
    ok, prev := TakeStep(m, PrevOf(index), it, at);
    r := prev;
    if ok {
      NextUndoesPrev(order, at);
      m.CacheGrows(was);
      was := m.items;
      ok, r := TakeStep(m, NextOf(index), prev, Before(order, at).value);
      m.CacheGrows(was);
      if r != null && it != null {
        m.ItemUnique(r, it);
      }
    }
  }

  lemma OrdersAre<T(!new)>(m: MultiIndex<T>, index: Option<nat>)
    requires m.primary.Valid() && (index.Some? ==> index.value < |m.extractors|)
    ensures WellOrdered(OrderOf(m, index)) && OrderOf(m, index).Keys == m.Rows().Keys
    ensures OrderOf(m, index) == map[] <==> m.Rows() == map[]
    ensures forall reg :: Target(SchemaOf(m), m.Rows(), NextOf(index), reg) == After(OrderOf(m, index), reg)
    ensures forall reg :: Target(SchemaOf(m), m.Rows(), PrevOf(index), reg) == Before(OrderOf(m, index), reg)
  {
  }
}
