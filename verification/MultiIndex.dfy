/**
 * eosio::multi_index: a table object with a cache of rows over the host's tables, handles of
 * secondary index entries that are looked up when needed, and a cached next primary key.
 */
module MultiIndexModel {
  import opened HostTables

  const KeyLimit: nat := 0x1_0000_0000_0000_0000
  /** next_primary_key_tags */
  const NoAvailableKey: nat := KeyLimit - 2
  const UnsetKey: nat := KeyLimit - 1

  /** uint64_t */
  type PrimaryKey = k: nat | k < KeyLimit

  /**
   * A secondary key: `rank` is its place in the order of its type and `image` its bytes. Keys with
   * equal bytes are equal; a double has two zeros of one rank.
   */
  datatype SecondaryKey = SecondaryKey(rank: int, image: int)

  /** A cached row, with the handles of its row and of its index entries; -1 is a handle not looked up yet. */
  class Item<T> {
    const owner: object
    var row: T
    var primaryItr: int
    var iters: seq<int>

    constructor (owner: object, row: T, primaryItr: int, iters: seq<int>)
      ensures this.owner == owner && this.row == row && this.primaryItr == primaryItr && this.iters == iters
    {
      this.owner, this.row, this.primaryItr, this.iters := owner, row, primaryItr, iters;
    }
  }

  datatype ItemPtr<T> = ItemPtr(item: Item<T>, pk: nat, itr: int)

  /** The order of the primary table, and of the index with key `extract`, as functions of the rows alone. */
  ghost function PrimaryOrder<T>(rows: map<nat, T>): (r: map<nat, Pos>) {
    map pk | pk in rows :: Pos(0, pk)
  }

  ghost function IndexOrder<T>(rows: map<nat, T>, extract: T -> SecondaryKey): (r: map<nat, Pos>) {
    map pk | pk in rows :: Pos(extract(rows[pk]).rank, pk)
  }

  /** The index table `t` holds exactly one entry per row, with the row's key and at its place. */
  ghost predicate IndexOk<T>(t: Table<SecondaryKey>, rows: map<nat, T>, extract: T -> SecondaryKey) {
    && t.Valid() && t.at.Keys == rows.Keys
    && forall pk | pk in rows :: t.cells[t.at[pk]] == Cell(Pos(extract(rows[pk]).rank, pk), extract(rows[pk]))
  }

  /** The primary table is in the order of its keys, which are those of its rows. */
  ghost predicate PrimaryOk<T>(t: Table<T>, keyOf: T -> PrimaryKey) {
    t.Valid() && forall pk | pk in t.at :: t.cells[t.at[pk]].pos == Pos(0, pk) && keyOf(t.cells[t.at[pk]].data) == pk
  }

  lemma PrimaryIsOk<T>(t: Table<T>, keyOf: T -> PrimaryKey)
    requires PrimaryOk(t, keyOf)
    ensures t.Valid() && t.Stands(PrimaryOrder(t.Rows()))
  {
  }

  lemma IndexStands<T>(t: Table<SecondaryKey>, rows: map<nat, T>, extract: T -> SecondaryKey)
    requires IndexOk(t, rows, extract)
    ensures t.Valid() && t.Stands(IndexOrder(rows, extract))
  {
  }

  lemma PrimaryStore<T>(t: Table<T>, keyOf: T -> PrimaryKey, row: T)
    requires PrimaryOk(t, keyOf) && keyOf(row) !in t.Rows()
    ensures var pk := keyOf(row); var r := t.Store(Pos(0, pk), row);
            PrimaryOk(r, keyOf) && r.Rows() == t.Rows()[pk := row] && r.at == t.at[pk := t.next]
  {
    PrimaryIsOk(t, keyOf);
    StoreKeeps(t, PrimaryOrder(t.Rows()), Pos(0, keyOf(row)), row);
  }

  lemma PrimaryUpdate<T>(t: Table<T>, keyOf: T -> PrimaryKey, row: T)
    requires PrimaryOk(t, keyOf) && keyOf(row) in t.Rows()
    ensures var pk := keyOf(row);
            pk in t.at && t.at[pk] in t.cells && t.cells[t.at[pk]].pos == Pos(0, pk) &&
            var r := t.Update(t.at[pk], 0, row);
            PrimaryOk(r, keyOf) && r.Rows() == t.Rows()[pk := row] && r.at == t.at
  {
    PrimaryIsOk(t, keyOf);
    UpdateKeeps(t, PrimaryOrder(t.Rows()), t.at[keyOf(row)], 0, row);
  }

  lemma PrimaryRemove<T>(t: Table<T>, keyOf: T -> PrimaryKey, pk: nat)
    requires PrimaryOk(t, keyOf) && pk in t.Rows()
    ensures pk in t.at && t.at[pk] in t.cells &&
            var r := t.Remove(t.at[pk]);
            PrimaryOk(r, keyOf) && r.Rows() == t.Rows() - {pk} && r.at == t.at - {pk}
  {
    PrimaryIsOk(t, keyOf);
    RemoveKeeps(t, PrimaryOrder(t.Rows()), t.at[pk]);
  }

  lemma IndexStore<T>(t: Table<SecondaryKey>, rows: map<nat, T>, extract: T -> SecondaryKey, pk: nat, row: T)
    requires IndexOk(t, rows, extract) && pk !in rows
    ensures IndexOk(t.Store(Pos(extract(row).rank, pk), extract(row)), rows[pk := row], extract)
    ensures t.Store(Pos(extract(row).rank, pk), extract(row)).at == t.at[pk := t.next]
  {
    IndexStands(t, rows, extract);
    StoreKeeps(t, IndexOrder(rows, extract), Pos(extract(row).rank, pk), extract(row));
  }

  lemma IndexUpdate<T>(t: Table<SecondaryKey>, rows: map<nat, T>, extract: T -> SecondaryKey, pk: nat, row: T)
    requires IndexOk(t, rows, extract) && pk in rows
    ensures pk in t.at && t.at[pk] in t.cells
    ensures IndexOk(t.Update(t.at[pk], extract(row).rank, extract(row)), rows[pk := row], extract)
    ensures t.Update(t.at[pk], extract(row).rank, extract(row)).at == t.at
    ensures extract(rows[pk]) == extract(row) ==> IndexOk(t, rows[pk := row], extract)
  {
    IndexStands(t, rows, extract);
    UpdateKeeps(t, IndexOrder(rows, extract), t.at[pk], extract(row).rank, extract(row));
    assert rows[pk := row].Keys == rows.Keys;
  }

  lemma IndexRemove<T>(t: Table<SecondaryKey>, rows: map<nat, T>, extract: T -> SecondaryKey, pk: nat)
    requires IndexOk(t, rows, extract) && pk in rows
    ensures pk in t.at && t.at[pk] in t.cells && t.at[pk] >= 0
    ensures IndexOk(t.Remove(t.at[pk]), rows - {pk}, extract)
    ensures t.Remove(t.at[pk]).at == t.at - {pk}
  {
    IndexStands(t, rows, extract);
    RemoveKeeps(t, IndexOrder(rows, extract), t.at[pk]);
  }

  ghost function ItemsOf<T(!new)>(items: seq<ItemPtr<T>>): (r: set<Item<T>>) {
    set i | 0 <= i < |items| :: items[i].item
  }

  function Drop<T(!new)>(items: seq<ItemPtr<T>>, at: nat): (r: seq<ItemPtr<T>>)
    requires at < |items|
  {
    items[..at] + items[at + 1..]
  }

  lemma DropRemoves<T(!new)>(items: seq<ItemPtr<T>>, at: nat)
    requires at < |items| && forall i, j | 0 <= i < j < |items| :: items[i].item != items[j].item
    ensures var r := Drop(items, at);
            && |r| == |items| - 1 && (forall i | 0 <= i < |r| :: r[i] == items[if i < at then i else i + 1])
            && ItemsOf(r) == ItemsOf(items) - {items[at].item}
  {
    var r := Drop(items, at);
    forall x | x in ItemsOf(items) - {items[at].item}
      ensures x in ItemsOf(r)
    {
      var i :| 0 <= i < |items| && items[i].item == x;
      assert items[i] == r[if i < at then i else i - 1];
    }
  }

  /** What an object reads of the host: the handles and rows of the primary table, and the index tables. */
  datatype Tables<T> = Tables(at: map<nat, int>, rows: map<nat, T>, secondary: seq<Table<SecondaryKey>>)

  /** What an item says of a row: its key, its handle, the row itself and the handles of its index entries. */
  datatype Entry<T> = Entry(pk: nat, itr: int, row: T, iters: seq<int>)

  /** Row and handles of an entry are those of its key in the tables. */
  ghost predicate Fits<T>(t: Tables<T>, e: Entry<T>) {
    && e.pk in t.at && e.pk in t.rows && e.itr == t.at[e.pk] && e.row == t.rows[e.pk]
    && |e.iters| == |t.secondary|
    && (forall k | 0 <= k < |t.secondary| :: e.iters[k] == -1 || (e.pk in t.secondary[k].at && e.iters[k] == t.secondary[k].at[e.pk]))
  }

  /** Tables that agree on a key fit the same entries of that key. */
  lemma FitsStill<T>(t: Tables<T>, t': Tables<T>, e: Entry<T>)
    requires Fits(t, e) && e.pk in t'.at && e.pk in t'.rows && t'.at[e.pk] == t.at[e.pk] && t'.rows[e.pk] == t.rows[e.pk]
    requires |t'.secondary| == |t.secondary|
    requires forall k | 0 <= k < |t.secondary| && e.pk in t.secondary[k].at ::
               e.pk in t'.secondary[k].at && t'.secondary[k].at[e.pk] == t.secondary[k].at[e.pk]
    ensures Fits(t', e)
  {
  }

  lemma FitsNew<T>(t: Tables<T>, e: Entry<T>)
    requires e.pk in t.at && t.at[e.pk] == e.itr && e.pk in t.rows && t.rows[e.pk] == e.row && |e.iters| == |t.secondary|
    requires forall k | 0 <= k < |t.secondary| :: e.pk in t.secondary[k].at && t.secondary[k].at[e.pk] == e.iters[k]
    ensures Fits(t, e)
  {
  }

  lemma FitsKey<T>(t: Tables<T>, e: Entry<T>)
    requires Fits(t, e)
    ensures e.pk in t.at && e.pk in t.rows && e.itr == t.at[e.pk] && e.row == t.rows[e.pk] && |e.iters| == |t.secondary|
  {
  }

  /**
   * What the next key depends on: the keys in the table when it was first asked for and those stored
   * since. Storing the key 2^64-1, which is also the tag of an unset next key, counts as asking.
   */
  datatype Mark = Unasked | Asked(keys: set<nat>)

  function Stored(mark: Mark, pk: nat): (r: Mark) {
    match mark
    case Unasked => if pk == UnsetKey then Asked({pk}) else Unasked
    case Asked(keys) => Asked(keys + {pk})
  }

  /** The next key is 0 or one above a key, and above all of them. */
  ghost predicate IsNextKey(keys: set<nat>, next: nat) {
    && next < NoAvailableKey
    && (forall k | k in keys :: k < next)
    && (next == 0 || next - 1 in keys)
  }

  ghost predicate KeysExhausted(keys: set<nat>) {
    exists k :: k in keys && k >= KeyLimit - 3
  }

  /** What the cached next key is, given the keys in the table and those that it depends on. */
  ghost predicate KeyRule(keys: set<nat>, mark: Mark, next: nat) {
    match mark
    case Unasked => next == UnsetKey
    case Asked(since) => if next == NoAvailableKey then KeysExhausted(since) else keys <= since && IsNextKey(since, next)
  }

  lemma KeyRuleFewer(keys: set<nat>, fewer: set<nat>, mark: Mark, next: nat)
    requires KeyRule(keys, mark, next) && fewer <= keys
    ensures KeyRule(fewer, mark, next)
  {
  }

  /** Emplacing or modifying a row of key `pk` keeps the promise. */
  lemma KeyRuleRaised(keys: set<nat>, mark: Mark, next: nat, pk: PrimaryKey)
    requires KeyRule(keys, mark, next)
    ensures KeyRule(keys + {pk}, Stored(mark, pk), if pk < next then next else if pk >= NoAvailableKey then NoAvailableKey else pk + 1)
  {
    var r := Stored(mark, pk);
    if mark.Asked? && next == NoAvailableKey {
      var k :| k in mark.keys && k >= KeyLimit - 3;
      assert k in r.keys;
    } else if r.Asked? && pk >= KeyLimit - 3 {
      assert pk in r.keys;
    }
  }

  /** A key that the rule holds for is refused exactly when the keys are exhausted. */
  lemma KeyRuleExact(keys: set<nat>, since: set<nat>, next: nat)
    requires KeyRule(keys, Asked(since), next)
    ensures next == NoAvailableKey <==> KeysExhausted(since)
    ensures next != NoAvailableKey ==> IsNextKey(since, next)
  {
  }

  lemma MarkTag(keys: set<nat>, mark: Mark, next: nat)
    requires KeyRule(keys, mark, next)
    ensures mark.Unasked? <==> next == UnsetKey
    ensures next == UnsetKey || next <= NoAvailableKey
  {
  }

  /** The next key after the largest key in the table. */
  lemma FirstAsked(keys: set<nat>, found: bool, pk: PrimaryKey, next: nat)
    requires if found then pk in keys && (forall k | k in keys :: k <= pk) else keys == {}
    requires next == if !found then 0 else if pk >= NoAvailableKey then NoAvailableKey else pk + 1
    ensures KeyRule(keys, Asked(keys), next)
  {
  }

  lemma KeyAbove(keys: set<nat>, since: set<nat>, next: nat)
    requires KeyRule(keys, Asked(since), next)
    ensures next <= NoAvailableKey && (next < NoAvailableKey ==> forall k | k in keys :: k < next)
  {
  }

  /** Keys with the same bytes have the same place in the order of their type. */
  ghost predicate ImagesDecide<T(!new)>(extractors: seq<T -> SecondaryKey>) {
    forall k, x: T, y: T | 0 <= k < |extractors| :: extractors[k](x).image == extractors[k](y).image ==> extractors[k](x).rank == extractors[k](y).rank
  }

  class MultiIndex<T(!new)> {
    /** T::primary_key, the extractors of the indices, and whether the contract owns the table. */
    const keyOf: T -> PrimaryKey
    const extractors: seq<T -> SecondaryKey>
    const writable: bool
    var primary: Table<T>
    var secondary: seq<Table<SecondaryKey>>
    var items: seq<ItemPtr<T>>
    var nextPrimaryKey: nat
    /** What the cached next key depends on. */
    ghost var mark: Mark

    ghost function Items(): set<Item<T>>
      reads this`items
    {
      ItemsOf(items)
    }

    /** The table as a plain map. */
    ghost function Rows(): map<nat, T>
      requires primary.Valid()
      reads this`primary
    {
      primary.Rows()
    }

    ghost function Host(): Tables<T>
      requires primary.Valid()
      reads this`primary, this`secondary
    {
      Tables(primary.at, Rows(), secondary)
    }

    ghost function Cached(p: ItemPtr<T>): Entry<T>
      reads p.item
    {
      Entry(p.pk, p.itr, p.item.row, p.item.iters)
    }

    /** Every index table fits the rows. */
    ghost predicate IndicesOk(rows: map<nat, T>)
      reads this`secondary
    {
      |secondary| == |extractors| && forall k | 0 <= k < |extractors| :: IndexOk(secondary[k], rows, extractors[k])
    }

    ghost predicate HostOk()
      reads this`primary, this`secondary
    {
      && PrimaryOk(primary, keyOf) && IndicesOk(Rows()) && ImagesDecide(extractors)
    }

    /** A cached item is its stored row, with the row's live handle, and knows no handle or the right one of each entry. */
    ghost predicate ItemOk(p: ItemPtr<T>)
      requires HostOk()
      reads this`primary, this`secondary, p.item
    {
      && p.item.owner == this && p.itr == p.item.primaryItr
      && Fits(Host(), Cached(p))
    }

    /** At most one item per primary key. */
    ghost predicate CacheOk()
      requires HostOk()
      reads this`primary, this`secondary, this`items, Items()
    {
      && (forall i | 0 <= i < |items| :: items[i].item in Items() && ItemOk(items[i]))
      && (forall i, j | 0 <= i < j < |items| :: items[i].pk != items[j].pk)
    }

    ghost predicate KeyOk()
      requires primary.Valid()
      reads this`primary, this`nextPrimaryKey, this`mark
    {
      KeyRule(Rows().Keys, mark, nextPrimaryKey)
    }

    ghost predicate Valid()
      reads this, Items()
    {
      HostOk() && CacheOk() && KeyOk()
    }

    constructor (keyOf: T -> PrimaryKey, extractors: seq<T -> SecondaryKey>, writable: bool, primary: Table<T>, secondary: seq<Table<SecondaryKey>>)
      requires PrimaryOk(primary, keyOf) && |secondary| == |extractors| && ImagesDecide(extractors)
      requires forall k | 0 <= k < |extractors| :: IndexOk(secondary[k], primary.Rows(), extractors[k])
      ensures Valid() && Items() == {} && Rows() == primary.Rows() && nextPrimaryKey == UnsetKey
      ensures this.keyOf == keyOf && this.extractors == extractors && this.writable == writable
    {
      this.keyOf, this.extractors, this.writable := keyOf, extractors, writable;
      this.primary, this.secondary := primary, secondary;
      items, nextPrimaryKey := [], UnsetKey;
      mark := Unasked;
    }

    /** Two items of one key are one object, so that iterators are equal exactly when their keys are. */
    lemma ItemUnique(x: Item<T>, y: Item<T>)
      requires Valid() && x in Items() && y in Items()
      ensures keyOf(x.row) in Rows() && Rows()[keyOf(x.row)] == x.row
      ensures keyOf(x.row) == keyOf(y.row) <==> x == y
    {
      var i :| 0 <= i < |items| && items[i].item == x;
      var j :| 0 <= j < |items| && items[j].item == y;
      assert ItemOk(items[i]) && ItemOk(items[j]);
    }

    /** The row of a handle. */
    lemma HostRow(itr: int)
      requires HostOk() && itr in primary.cells
      ensures var c := primary.cells[itr];
              && c.pos == Pos(0, keyOf(c.data)) && keyOf(c.data) in primary.at && primary.at[keyOf(c.data)] == itr
              && keyOf(c.data) in Rows() && Rows()[keyOf(c.data)] == c.data
    {
      var pk := primary.cells[itr].pos.pk;
      assert pk in Rows();
    }

    /** load_object_by_primary_iterator: the cached item of a handle, or a new one read from the host. */
    method LoadObject(itr: int) returns (item: Item<T>)
      requires Valid() && itr in primary.cells
      modifies this`items
      ensures Valid() && old(items) <= items && fresh(Items() - old(Items()))
      ensures item in Items() && keyOf(item.row) == primary.cells[itr].pos.pk
    {
      hide HostOk, KeyOk, IndexOk;
      HostIsOk();
      HostRow(itr);
      var i := |items|;
      while i > 0
        invariant 0 <= i <= |items|
        invariant forall j | i <= j < |items| :: items[j].itr != itr
      {
        i := i - 1;
        if items[i].itr == itr {
          assert ItemOk(items[i]);
          return items[i].item;
        }
      }
      var row := primary.cells[itr].data;
      item := new Item(this, row, itr, seq(|extractors|, _ => -1));
      items := items + [ItemPtr(item, keyOf(row), itr)];
      assert items[|items| - 1].item == item;
    }

    /** The search of find and erase through the cache, from its end. */
    method FindCached(pk: nat) returns (i: int)
      requires Valid()
      ensures -1 <= i < |items|
      ensures i >= 0 ==> items[i].pk == pk && keyOf(items[i].item.row) == pk
      ensures i < 0 ==> forall j | 0 <= j < |items| :: items[j].pk != pk
    {
      i := |items| - 1;
      while i >= 0
        invariant -1 <= i < |items|
        invariant forall j | i < j < |items| :: items[j].pk != pk
      {
        assert ItemOk(items[i]);
        if keyOf(items[i].item.row) == pk {
          return;
        }
        i := i - 1;
      }
    }

    /** find. */
    method Find(pk: nat) returns (it: Item?<T>)
      requires Valid()
      modifies this`items
      ensures Valid() && old(items) <= items && fresh(Items() - old(Items()))
      ensures it == null <==> pk !in Rows()
      ensures it != null ==> it in Items() && keyOf(it.row) == pk && it.row == Rows()[pk]
    {
      var i := FindCached(pk);
      if i >= 0 {
        assert ItemOk(items[i]);
        return items[i].item;
      }
      var itr := primary.FindPrimary(pk);
      if itr < 0 {
        assert pk in primary.at ==> primary.at[pk] in primary.cells;
        return null;
      }
      it := LoadObject(itr);
      ItemUnique(it, it);
    }

    /** The row of an item is the stored one. */
    lemma ItemRow(it: Item<T>)
      requires Valid() && it in Items()
      ensures it.owner == this && |it.iters| == |extractors|
      ensures keyOf(it.row) in Rows() && Rows()[keyOf(it.row)] == it.row
      ensures it.primaryItr in primary.cells && primary.cells[it.primaryItr] == Cell(Pos(0, keyOf(it.row)), it.row)
      ensures it.primaryItr == primary.at[keyOf(it.row)]
      ensures forall k | 0 <= k < |extractors| ::
                keyOf(it.row) in secondary[k].at && (it.iters[k] == -1 || it.iters[k] == secondary[k].at[keyOf(it.row)])
    {
      var i :| 0 <= i < |items| && items[i].item == it;
      assert ItemOk(items[i]);
      var pk := keyOf(it.row);
      forall k | 0 <= k < |extractors|
        ensures pk in secondary[k].at
      {
        assert IndexOk(secondary[k], Rows(), extractors[k]);
      }
    }

    // -------------------------------------------------------------- bounds and steps of the primary index

    /** The item of a handle that the host found, or the end. */
    method ItemAt(itr: int) returns (it: Item?<T>)
      requires Valid() && (itr >= 0 ==> itr in primary.cells)
      modifies this`items
      ensures Valid() && old(items) <= items && fresh(Items() - old(Items()))
      ensures it == null <==> itr < 0
      ensures it != null ==> it in Items() && keyOf(it.row) == primary.cells[itr].pos.pk
    {
      if itr < 0 {
        return null;
      }
      it := LoadObject(itr);
    }

    /** lower_bound: the first row whose key is not below `pk`. */
    method LowerBoundOf(pk: nat) returns (it: Item?<T>)
      requires Valid()
      modifies this`items
      ensures Valid() && old(items) <= items && fresh(Items() - old(Items()))
      ensures it == null ==> NoneFrom(PrimaryOrder(Rows()), Pos(0, pk))
      ensures it != null ==> it in Items() && IsFirstFrom(PrimaryOrder(Rows()), Pos(0, pk), keyOf(it.row))
    {
      var itr := LowerBound(primary, Pos(0, pk), PrimaryOrder(Rows()));
      it := ItemAt(itr);
    }

    /** upper_bound: the first row whose key is above `pk`. */
    method UpperBoundOf(pk: nat) returns (it: Item?<T>)
      requires Valid()
      modifies this`items
      ensures Valid() && old(items) <= items && fresh(Items() - old(Items()))
      ensures it == null ==> NoneFrom(PrimaryOrder(Rows()), Pos(0, pk + 1))
      ensures it != null ==> it in Items() && IsFirstFrom(PrimaryOrder(Rows()), Pos(0, pk + 1), keyOf(it.row))
    {
      var itr := LowerBound(primary, Pos(0, pk + 1), PrimaryOrder(Rows()));
      it := ItemAt(itr);
    }

    /** operator++ of const_iterator; the end cannot be incremented. */
    method Next(it: Item?<T>) returns (ok: bool, r: Item?<T>)
      requires Valid() && (it != null ==> it in Items())
      modifies this`items
      ensures Valid() && old(items) <= items && fresh(Items() - old(Items()))
      ensures ok <==> it != null
      ensures ok && r == null ==> NoneFrom(PrimaryOrder(Rows()), Pos(0, keyOf(it.row) + 1))
      ensures ok && r != null ==> r in Items() && IsFirstFrom(PrimaryOrder(Rows()), Pos(0, keyOf(it.row) + 1), keyOf(r.row))
    {
      if it == null {
        return false, null;
      }
      ItemRow(it);
      var pos := primary.cells[it.primaryItr].pos;
      var itr := LowerBound(primary, Pos(pos.rank, pos.pk + 1), PrimaryOrder(Rows()));
      r := ItemAt(itr);
      ok := true;
    }

    /** operator-- of const_iterator; the first row, and the end of an empty table, cannot be decremented. */
    method Prev(it: Item?<T>) returns (ok: bool, r: Item?<T>)
      requires Valid() && (it != null ==> it in Items())
      modifies this`items
      ensures Valid() && old(items) <= items && fresh(Items() - old(Items()))
      ensures ok <==> r != null
      ensures ok ==> r in Items() && IsBefore(PrimaryOrder(Rows()), it, 0, keyOf(r.row))
      ensures !ok ==> if it == null then Rows() == map[] else NoneBefore(PrimaryOrder(Rows()), Pos(0, keyOf(it.row)))
    {
      hide KeyOk, IndexOk;
      var itr;
      if it == null {
        if primary.End() == NoTable {
          EmptyTable(primary);
          return false, null;
        }
        itr := LastRow(primary, PrimaryOrder(Rows()));
        assert PrimaryOrder(Rows()).Keys == Rows().Keys;
      } else {
        ItemRow(it);
        itr := Previous(primary, primary.cells[it.primaryItr].pos, PrimaryOrder(Rows()));
      }
      r := ItemAt(itr);
      ok := r != null;
    }

    /** `r` is the row before the one of `it`, which has the given rank, or the last row when `it` is the end. */
    ghost predicate IsBefore(order: map<nat, Pos>, it: Item?<T>, rank: int, r: nat)
      reads it
    {
      if it == null then IsLast(order, r) else IsLastBefore(order, Pos(rank, keyOf(it.row)), r)
    }

    lemma EmptyTable<D>(t: Table<D>)
      requires t.Valid() && |t.cells| == 0
      ensures t.at == map[] && t.Rows() == map[]
    {
    }

    // -------------------------------------------------------------- secondary indices

    /** Remembers the handle of an item's entry in index `k`. */
    method SetHandle(it: Item<T>, k: nat, itr: int)
      requires Valid() && it in Items() && k < |extractors|
      requires keyOf(it.row) in secondary[k].at && itr == secondary[k].at[keyOf(it.row)]
      modifies it`iters
      ensures Valid() && it.iters == old(it.iters)[k := itr]
    {
      ItemRow(it);
      ghost var pk := keyOf(it.row);
      it.iters := it.iters[k := itr];
      forall i | 0 <= i < |items|
        ensures ItemOk(items[i])
      {
        assert old(ItemOk(items[i]));
        if items[i].item == it {
          assert items[i].pk == pk;
        }
      }
    }

    /** The handle of an item's entry in index `k`, looked up in the host the first time. */
    method Handle(it: Item<T>, k: nat) returns (h: int)
      requires Valid() && it in Items() && k < |extractors|
      modifies it`iters
      ensures Valid()
      ensures h in secondary[k].cells && secondary[k].cells[h].pos == Pos(extractors[k](it.row).rank, keyOf(it.row))
    {
      ItemRow(it);
      if it.iters[k] == -1 {
        var idxitr := secondary[k].FindPrimary(keyOf(it.row));
        SetHandle(it, k, idxitr);
      }
      h := it.iters[k];
      EntryOf(k, keyOf(it.row));
    }

    /** The entry of a row in index `k`. */
    lemma EntryOf(k: nat, pk: nat)
      requires HostOk() && k < |extractors| && (pk in Rows() || pk in secondary[k].at)
      ensures pk in Rows() && pk in secondary[k].at && secondary[k].at[pk] in secondary[k].cells
      ensures secondary[k].cells[secondary[k].at[pk]] == Cell(Pos(extractors[k](Rows()[pk]).rank, pk), extractors[k](Rows()[pk]))
    {
      assert IndexOk(secondary[k], Rows(), extractors[k]);
    }

    /** The item of an entry that the host found in index `k`, or the end. */
    method EntryItem(k: nat, itr: int) returns (it: Item?<T>)
      requires Valid() && k < |extractors| && (itr >= 0 ==> itr in secondary[k].cells)
      modifies this`items, Items()`iters
      ensures Valid() && old(items) <= items && fresh(Items() - old(Items()))
      ensures it == null <==> itr < 0
      ensures it != null ==> it in Items() && keyOf(it.row) == secondary[k].cells[itr].pos.pk
    {
      if itr < 0 {
        return null;
      }
      var pk := secondary[k].cells[itr].pos.pk;
      assert IndexOk(secondary[k], Rows(), extractors[k]);
      EntryOf(k, pk);
      it := Find(pk);
      SetHandle(it, k, itr);
    }

    lemma IndexIsOk(k: nat)
      requires HostOk() && k < |extractors|
      ensures primary.Valid() && |secondary| == |extractors| && IndexOk(secondary[k], Rows(), extractors[k])
      ensures secondary[k].Valid() && secondary[k].Stands(IndexOrder(Rows(), extractors[k])) && secondary[k].at.Keys == Rows().Keys
    {
    }

    /** index::lower_bound. */
    method IndexLowerBound(k: nat, key: SecondaryKey) returns (it: Item?<T>)
      requires Valid() && k < |extractors|
      modifies this`items, Items()`iters
      ensures Valid() && old(items) <= items && fresh(Items() - old(Items()))
      ensures it == null ==> NoneFrom(IndexOrder(Rows(), extractors[k]), Pos(key.rank, 0))
      ensures it != null ==> it in Items() && IsFirstFrom(IndexOrder(Rows(), extractors[k]), Pos(key.rank, 0), keyOf(it.row))
    {
      hide HostOk, CacheOk, KeyOk;
      IndexIsOk(k);
      var itr := LowerBound(secondary[k], Pos(key.rank, 0), IndexOrder(Rows(), extractors[k]));
      it := EntryItem(k, itr);
    }

    /** index::upper_bound. */
    method IndexUpperBound(k: nat, key: SecondaryKey) returns (it: Item?<T>)
      requires Valid() && k < |extractors|
      modifies this`items, Items()`iters
      ensures Valid() && old(items) <= items && fresh(Items() - old(Items()))
      ensures it == null ==> NoneFrom(IndexOrder(Rows(), extractors[k]), Pos(key.rank + 1, 0))
      ensures it != null ==> it in Items() && IsFirstFrom(IndexOrder(Rows(), extractors[k]), Pos(key.rank + 1, 0), keyOf(it.row))
    {
      hide HostOk, CacheOk, KeyOk;
      IndexIsOk(k);
      var itr := LowerBound(secondary[k], Pos(key.rank + 1, 0), IndexOrder(Rows(), extractors[k]));
      it := EntryItem(k, itr);
    }

    /** index::find: the first row whose key is equal to the given one. */
    method IndexFind(k: nat, key: SecondaryKey) returns (it: Item?<T>)
      requires Valid() && k < |extractors|
      modifies this`items, Items()`iters
      ensures Valid() && old(items) <= items && fresh(Items() - old(Items()))
      ensures it == null ==> forall pk | pk in Rows() :: extractors[k](Rows()[pk]).rank != key.rank
      ensures it != null ==>
                && it in Items() && extractors[k](it.row).rank == key.rank
                && IsFirstFrom(IndexOrder(Rows(), extractors[k]), Pos(key.rank, 0), keyOf(it.row))
    {
      hide HostOk, CacheOk, KeyOk, IndexOk;
      IndexIsOk(k);
      var lb := IndexLowerBound(k, key);
      if lb == null {
        assert forall pk | pk in Rows() :: pk in IndexOrder(Rows(), extractors[k]);
        return null;
      }
      ItemRow(lb);
      if extractors[k](lb.row).rank != key.rank {
        ghost var order := IndexOrder(Rows(), extractors[k]);
        forall pk | pk in Rows()
          ensures extractors[k](Rows()[pk]).rank != key.rank
        {
          assert pk in order;
        }
        return null;
      }
      it := lb;
    }

    /** operator++ of index::const_iterator. */
    method IndexNext(k: nat, it: Item?<T>) returns (ok: bool, r: Item?<T>)
      requires Valid() && k < |extractors| && (it != null ==> it in Items())
      modifies this`items, Items()`iters
      ensures Valid() && old(items) <= items && fresh(Items() - old(Items()))
      ensures ok <==> it != null
      ensures ok && r == null ==> NoneFrom(IndexOrder(Rows(), extractors[k]), Pos(extractors[k](it.row).rank, keyOf(it.row) + 1))
      ensures ok && r != null ==>
                r in Items() && IsFirstFrom(IndexOrder(Rows(), extractors[k]), Pos(extractors[k](it.row).rank, keyOf(it.row) + 1), keyOf(r.row))
    {
      hide HostOk, CacheOk, KeyOk;
      IndexIsOk(k);
      if it == null {
        return false, null;
      }
      var h := Handle(it, k);
      var pos := secondary[k].cells[h].pos;
      var itr := LowerBound(secondary[k], Pos(pos.rank, pos.pk + 1), IndexOrder(Rows(), extractors[k]));
      r := EntryItem(k, itr);
      ok := true;
    }

    /** operator-- of index::const_iterator. */
    method IndexPrev(k: nat, it: Item?<T>) returns (ok: bool, r: Item?<T>)
      requires Valid() && k < |extractors| && (it != null ==> it in Items())
      modifies this`items, Items()`iters
      ensures Valid() && old(items) <= items && fresh(Items() - old(Items()))
      ensures ok <==> r != null
      ensures ok ==> r in Items() &&
                     IsBefore(IndexOrder(Rows(), extractors[k]), it, if it == null then 0 else extractors[k](it.row).rank, keyOf(r.row))
      ensures !ok ==> if it == null then Rows() == map[]
                      else NoneBefore(IndexOrder(Rows(), extractors[k]), Pos(extractors[k](it.row).rank, keyOf(it.row)))
    {
      hide HostOk, CacheOk, KeyOk;
      IndexIsOk(k);
      var itr;
      if it == null {
        if secondary[k].End() == NoTable {
          EmptyTable(secondary[k]);
          return false, null;
        }
        itr := LastRow(secondary[k], IndexOrder(Rows(), extractors[k]));
        assert IndexOrder(Rows(), extractors[k]).Keys == Rows().Keys;
      } else {
        var h := Handle(it, k);
        itr := Previous(secondary[k], secondary[k].cells[h].pos, IndexOrder(Rows(), extractors[k]));
      }
      r := EntryItem(k, itr);
      ok := r != null;
    }

    // -------------------------------------------------------------- emplace

    /** Stores the entries of a new row, index by index. */
    method StoreEntries(pk: nat, row: T, ghost rows: map<nat, T>) returns (iters: seq<int>)
      requires IndicesOk(rows) && pk !in rows
      modifies this`secondary
      ensures IndicesOk(rows[pk := row]) && |iters| == |extractors|
      ensures forall k | 0 <= k < |extractors| :: secondary[k].at == old(secondary)[k].at[pk := iters[k]]
    {
      hide IndexOk, Table.Store;
      iters := [];
      var k := 0;
      while k < |extractors|
        invariant 0 <= k <= |extractors| && |iters| == k && |secondary| == |extractors|
        invariant forall j | 0 <= j < k :: IndexOk(secondary[j], rows[pk := row], extractors[j])
        invariant forall j | 0 <= j < k :: secondary[j].at == old(secondary)[j].at[pk := iters[j]]
        invariant forall j | k <= j < |extractors| :: secondary[j] == old(secondary)[j]
      {
        var key := extractors[k](row);
        IndexStore(secondary[k], rows, extractors[k], pk, row);
        iters := iters + [secondary[k].next];
        secondary := secondary[k := secondary[k].Store(Pos(key.rank, pk), key)];
        k := k + 1;
      }
    }

    /** The rule that emplace and modify apply to the cached next key. */
    method RaiseNextKey(pk: PrimaryKey, ghost keys: set<nat>)
      requires primary.Valid() && Rows().Keys == keys + {pk}
      requires KeyRule(keys, mark, nextPrimaryKey)
      modifies this`nextPrimaryKey, this`mark
      ensures KeyOk() && mark == Stored(old(mark), pk)
    {
      hide KeyRule;
      KeyRuleRaised(keys, mark, nextPrimaryKey, pk);
      if pk >= nextPrimaryKey {
        nextPrimaryKey := if pk >= NoAvailableKey then NoAvailableKey else pk + 1;
      }
      mark := Stored(mark, pk);
    }

    /** The host's part of emplace. */
    method EmplaceHost(row: T) returns (itr: int, iters: seq<int>)
      requires HostOk() && KeyOk() && keyOf(row) !in Rows()
      modifies this`primary, this`secondary, this`nextPrimaryKey, this`mark
      ensures HostOk() && KeyOk() && Rows() == old(Rows())[keyOf(row) := row] && |iters| == |extractors|
      ensures primary.at == old(primary.at)[keyOf(row) := itr]
      ensures forall k | 0 <= k < |extractors| :: secondary[k].at == old(secondary)[k].at[keyOf(row) := iters[k]]
      ensures mark == Stored(old(mark), keyOf(row))
    {
      hide PrimaryOk, IndexOk, Table.Store;
      assert primary.Valid() by { PrimaryIsOk(primary, keyOf); }
      var pk := keyOf(row);
      ghost var rows := Rows();
      PrimaryStore(primary, keyOf, row);
      itr := primary.next;
      primary := primary.Store(Pos(0, pk), row);
      assert primary.Valid() by { PrimaryIsOk(primary, keyOf); }
      RaiseNextKey(pk, rows.Keys);
      iters := StoreEntries(pk, row, rows);
    }

    /** Stores a new row in the host and its item in the cache. */
    method EmplaceCached(row: T) returns (it: Item<T>)
      requires Valid() && keyOf(row) !in Rows()
      modifies this`primary, this`secondary, this`items, this`nextPrimaryKey, this`mark
      ensures Valid() && fresh(it) && it.row == row && |items| == |old(items)| + 1 && items[..|old(items)|] == old(items)
      ensures items[|old(items)|].item == it && Rows() == old(Rows())[keyOf(row) := row]
      ensures mark == Stored(old(mark), keyOf(row))
    {
      hide HostOk, KeyOk, IndexOk, PrimaryOk, Fits, Table.Rows, Table.Stands, Table.Valid, Stored;
      HostKeys();
      var pk := keyOf(row);
      var itr, iters := EmplaceHost(row);
      it := new Item(this, row, itr, iters);
      items := items + [ItemPtr(it, pk, itr)];
      HostKeys();
      forall i | 0 <= i < |items|
        ensures items[i].item in Items() && ItemOk(items[i]) && (i < |old(items)| ==> items[i].pk != pk)
      {
        var p := items[i];
        if i == |old(items)| {
          FitsNew(Host(), Cached(p));
        } else {
          assert old(ItemOk(p));
          FitsKey(old(Host()), Cached(p));
          FitsStill(old(Host()), Host(), Cached(p));
        }
      }
    }

    /** emplace: refused on another contract's table and for a key that is in the table. */
    method Emplace(row: T) returns (ok: bool, it: Item?<T>)
      requires Valid()
      modifies this`primary, this`secondary, this`items, this`nextPrimaryKey, this`mark
      ensures Valid() && fresh(Items() - old(Items())) && old(items) <= items
      ensures ok <==> writable && keyOf(row) !in old(Rows())
      ensures !ok ==> Rows() == old(Rows()) && mark == old(mark)
      ensures ok ==>
                && Rows() == old(Rows())[keyOf(row) := row]
                && it != null && it in Items() && it.row == row
                && mark == Stored(old(mark), keyOf(row))
    {
      hide HostOk, CacheOk, KeyOk, Table.Rows, Table.Stands, Table.Valid;
      HostIsOk();
      if !writable || primary.FindPrimary(keyOf(row)) >= 0 {
        return false, null;
      }
      it := EmplaceCached(row);
      ok := true;
      assert forall i | 0 <= i < |old(items)| :: items[i] == old(items)[i];
    }

    // -------------------------------------------------------------- modify

    /** Updates the entries of a changed row; an index whose key has the same bytes is left alone. */
    method UpdateEntries(pk: nat, was: T, row: T, handles: seq<int>, ghost rows: map<nat, T>) returns (iters: seq<int>)
      requires ImagesDecide(extractors) && IndicesOk(rows) && pk in rows && rows[pk] == was && |handles| == |extractors|
      requires forall k | 0 <= k < |extractors| :: pk in secondary[k].at && (handles[k] == -1 || handles[k] == secondary[k].at[pk])
      modifies this`secondary
      ensures IndicesOk(rows[pk := row]) && |iters| == |extractors|
      ensures forall k | 0 <= k < |extractors| ::
                secondary[k].at == old(secondary)[k].at && (iters[k] == -1 || iters[k] == secondary[k].at[pk])
    {
      hide IndexOk, Table.Update;
      iters := handles;
      var k := 0;
      while k < |extractors|
        invariant 0 <= k <= |extractors| && |iters| == |secondary| == |extractors|
        invariant forall j | 0 <= j < k :: IndexOk(secondary[j], rows[pk := row], extractors[j])
        invariant forall j | 0 <= j < |extractors| :: secondary[j].at == old(secondary)[j].at
        invariant forall j | 0 <= j < |extractors| :: iters[j] == -1 || iters[j] == secondary[j].at[pk]
        invariant forall j | k <= j < |extractors| :: secondary[j] == old(secondary)[j]
      {
        IndexUpdate(secondary[k], rows, extractors[k], pk, row);
        var key := extractors[k](row);
        assert extractors[k](was).image == key.image ==> extractors[k](was) == key;
        if extractors[k](was).image != key.image {
          var h := iters[k];
          if h < 0 {
            h := secondary[k].FindPrimary(pk);
            iters := iters[k := h];
          }
          secondary := secondary[k := secondary[k].Update(h, key.rank, key)];
        }
        k := k + 1;
      }
    }

    /** The host's part of modify. */
    method ModifyHost(itr: int, was: T, row: T, handles: seq<int>) returns (iters: seq<int>)
      requires HostOk() && KeyOk() && keyOf(row) == keyOf(was)
      requires Fits(Host(), Entry(keyOf(was), itr, was, handles))
      modifies this`primary, this`secondary, this`nextPrimaryKey, this`mark
      ensures HostOk() && KeyOk() && Rows() == old(Rows())[keyOf(row) := row]
      ensures primary.at == old(primary.at) && mark == Stored(old(mark), keyOf(row))
      ensures forall k | 0 <= k < |extractors| :: secondary[k].at == old(secondary)[k].at
      ensures Fits(Host(), Entry(keyOf(row), itr, row, iters))
    {
      hide PrimaryOk, IndexOk, Table.Update;
      assert primary.Valid() by { PrimaryIsOk(primary, keyOf); }
      var pk := keyOf(row);
      ghost var rows := Rows();
      PrimaryUpdate(primary, keyOf, row);
      primary := primary.Update(itr, 0, row);
      assert primary.Valid() by { PrimaryIsOk(primary, keyOf); }
      assert Rows().Keys == rows.Keys + {pk};
      RaiseNextKey(pk, rows.Keys);
      forall k | 0 <= k < |extractors|
        ensures pk in secondary[k].at
      {
        IndexUpdate(secondary[k], rows, extractors[k], pk, row);
      }
      iters := UpdateEntries(pk, was, row, handles, rows);
    }

    /** Updates a row in the host and its item in the cache, in place. */
    method ModifyCached(it: Item<T>, row: T)
      requires Valid() && it in Items() && keyOf(row) == keyOf(it.row)
      modifies this`primary, this`secondary, this`nextPrimaryKey, this`mark, it`row, it`iters
      ensures Valid() && it.row == row && Rows() == old(Rows())[keyOf(row) := row]
      ensures mark == Stored(old(mark), keyOf(row))
    {
      hide HostOk, KeyOk, IndexOk, PrimaryOk, Fits, Table.Rows, Table.Stands, Table.Valid, Stored;
      HostKeys();
      ItemRow(it);
      ItemFits(it);
      var iters := ModifyHost(it.primaryItr, it.row, row, it.iters);
      it.row, it.iters := row, iters;
      HostKeys();
      forall i | 0 <= i < |items|
        ensures ItemOk(items[i])
      {
        var p := items[i];
        assert old(ItemOk(p));
        if p.item != it {
          FitsKey(old(Host()), Cached(p));
          FitsStill(old(Host()), Host(), Cached(p));
        }
      }
    }

    lemma ItemFits(it: Item<T>)
      requires Valid() && it in Items()
      ensures Fits(Host(), Entry(keyOf(it.row), it.primaryItr, it.row, it.iters))
      ensures forall i | 0 <= i < |items| && items[i].item == it :: items[i].pk == keyOf(it.row)
    {
      var i :| 0 <= i < |items| && items[i].item == it;
      assert ItemOk(items[i]);
    }

    /** modify: refused for a row of another object, on another contract's table, and when the key would change. */
    method Modify(it: Item<T>, updater: T -> T) returns (ok: bool)
      requires Valid() && (it.owner == this ==> it in Items())
      modifies this`primary, this`secondary, this`nextPrimaryKey, this`mark, it`row, it`iters
      ensures Valid()
      ensures ok <==> it.owner == this && writable && keyOf(updater(old(it.row))) == keyOf(old(it.row))
      ensures !ok ==> Rows() == old(Rows()) && mark == old(mark) && it.row == old(it.row)
      ensures ok ==>
                && it.row == updater(old(it.row)) && Rows() == old(Rows())[keyOf(it.row) := it.row]
                && mark == Stored(old(mark), keyOf(it.row))
    {
      hide HostOk, KeyOk, CacheOk, Table.Rows, Table.Stands, Table.Valid, Stored;
      if it.owner != this || !writable {
        return false;
      }
      var row := updater(it.row);
      ok := keyOf(row) == keyOf(it.row);
      if ok {
        ModifyCached(it, row);
      }
    }

    // -------------------------------------------------------------- erase

    /** Removes the entries of a row, looking up the handles that are not known. */
    method RemoveEntries(pk: nat, handles: seq<int>, ghost rows: map<nat, T>)
      requires IndicesOk(rows) && pk in rows && |handles| == |extractors|
      requires forall k | 0 <= k < |extractors| :: pk in secondary[k].at && (handles[k] == -1 || handles[k] == secondary[k].at[pk])
      modifies this`secondary
      ensures IndicesOk(rows - {pk})
      ensures forall k | 0 <= k < |extractors| :: secondary[k].at == old(secondary)[k].at - {pk}
    {
      hide IndexOk, Table.Remove;
      var k := 0;
      while k < |extractors|
        invariant 0 <= k <= |extractors| && |secondary| == |extractors|
        invariant forall j | 0 <= j < k :: IndexOk(secondary[j], rows - {pk}, extractors[j])
        invariant forall j | 0 <= j < k :: secondary[j].at == old(secondary)[j].at - {pk}
        invariant forall j | k <= j < |extractors| :: secondary[j] == old(secondary)[j]
      {
        IndexRemove(secondary[k], rows, extractors[k], pk);
        var h := handles[k];
        if h < 0 {
          h := secondary[k].FindPrimary(pk);
        }
        if h >= 0 {
          secondary := secondary[k := secondary[k].Remove(h)];
        }
        k := k + 1;
      }
    }

    method ErasePrimary(itr: int, row: T)
      requires PrimaryOk(primary, keyOf) && primary.Valid() && KeyOk()
      requires keyOf(row) in primary.at && itr == primary.at[keyOf(row)]
      modifies this`primary
      ensures PrimaryOk(primary, keyOf) && primary.Valid() && KeyOk()
      ensures Rows() == old(Rows()) - {keyOf(row)} && primary.at == old(primary.at) - {keyOf(row)}
    {
      hide PrimaryOk, KeyRule, Table.Remove;
      PrimaryRemove(primary, keyOf, keyOf(row));
      primary := primary.Remove(itr);
      assert primary.Valid() by { PrimaryIsOk(primary, keyOf); }
      KeyRuleFewer(old(Rows()).Keys, Rows().Keys, mark, nextPrimaryKey);
    }

    /** The host's part of erase. */
    method EraseHost(itr: int, row: T, handles: seq<int>)
      requires HostOk() && KeyOk() && Fits(Host(), Entry(keyOf(row), itr, row, handles))
      modifies this`primary, this`secondary
      ensures HostOk() && KeyOk() && Rows() == old(Rows()) - {keyOf(row)}
      ensures primary.at == old(primary.at) - {keyOf(row)}
      ensures forall k | 0 <= k < |extractors| :: secondary[k].at == old(secondary)[k].at - {keyOf(row)}
    {
      hide PrimaryOk, IndexOk, KeyOk, Table.Remove;
      assert primary.Valid() by { PrimaryIsOk(primary, keyOf); }
      var pk := keyOf(row);
      ghost var rows := Rows();
      ErasePrimary(itr, row);
      forall k | 0 <= k < |extractors|
        ensures pk in secondary[k].at
      {
        IndexRemove(secondary[k], rows, extractors[k], pk);
      }
      RemoveEntries(pk, handles, rows);
    }

    /** Removes a row from the host and its item from the cache. */
    method EraseCached(at: nat)
      requires Valid() && at < |items|
      modifies this`primary, this`secondary, this`items
      ensures Valid() && items == Drop(old(items), at) && Rows() == old(Rows()) - {old(items)[at].pk}
    {
      hide HostOk, KeyOk, IndexOk, PrimaryOk, Fits, Table.Rows, Table.Stands, Table.Valid, Drop, ItemsOf;
      HostKeys();
      CacheDistinct();
      DropRemoves(items, at);
      var it := items[at].item;
      assert ItemOk(items[at]);
      EraseHost(it.primaryItr, it.row, it.iters);
      items := Drop(items, at);
      HostKeys();
      forall i | 0 <= i < |items|
        ensures items[i].item in Items() && ItemOk(items[i])
      {
        var p := items[i];
        assert p == old(items)[if i < at then i else i + 1];
        assert old(ItemOk(p));
        FitsKey(old(Host()), Cached(p));
        FitsStill(old(Host()), Host(), Cached(p));
      }
    }

    /** erase: refused for a row of another object and on another contract's table. */
    method Erase(it: Item<T>) returns (ok: bool)
      requires Valid() && (it.owner == this ==> it in Items())
      modifies this`primary, this`secondary, this`items
      ensures Valid()
      ensures ok <==> it.owner == this && writable
      ensures !ok ==> Rows() == old(Rows()) && items == old(items)
      ensures ok ==> Rows() == old(Rows()) - {keyOf(it.row)} && Items() == old(Items()) - {it}
    {
      if it.owner != this || !writable {
        return false;
      }
      hide HostOk, CacheOk, KeyOk, Drop, ItemsOf;
      CacheDistinct();
      var at := FindCached(keyOf(it.row));
      ok := at >= 0;
      if ok {
        ItemUnique(items[at].item, it);
        DropRemoves(items, at);
        EraseCached(at);
      }
    }

    /** erase through an iterator of the primary index, which moves to the next row. */
    method EraseAt(it: Item?<T>) returns (ok: bool, r: Item?<T>)
      requires Valid() && (it != null ==> it in Items())
      modifies this`primary, this`secondary, this`items
      ensures Valid() && fresh(Items() - old(Items()))
      ensures ok <==> it != null && writable
      ensures !ok ==> Rows() == old(Rows())
      ensures ok ==> Rows() == old(Rows()) - {keyOf(it.row)} && old(Items()) - {it} <= Items()
      ensures ok && r == null ==> NoneFrom(PrimaryOrder(old(Rows())), Pos(0, keyOf(it.row) + 1))
      ensures ok && r != null ==> r in Items() && IsFirstFrom(PrimaryOrder(old(Rows())), Pos(0, keyOf(it.row) + 1), keyOf(r.row))
    {
      hide HostOk, CacheOk, KeyOk, ItemsOf;
      if it == null {
        return false, null;
      }
      HostIsOk();
      ItemRow(it);
      ok, r := Next(it);
      CacheGrows(old(items));
      assert r != it;
      ok := Erase(it);
    }

    /** erase through an iterator of index `k`. */
    method IndexEraseAt(k: nat, it: Item?<T>) returns (ok: bool, r: Item?<T>)
      requires Valid() && k < |extractors| && (it != null ==> it in Items())
      modifies this`primary, this`secondary, this`items, Items()`iters
      ensures Valid() && fresh(Items() - old(Items()))
      ensures ok <==> it != null && writable
      ensures !ok ==> Rows() == old(Rows())
      ensures ok ==> Rows() == old(Rows()) - {keyOf(it.row)} && old(Items()) - {it} <= Items()
      ensures ok && r == null ==> NoneFrom(IndexOrder(old(Rows()), extractors[k]), Pos(extractors[k](it.row).rank, keyOf(it.row) + 1))
      ensures ok && r != null ==>
                r in Items() && IsFirstFrom(IndexOrder(old(Rows()), extractors[k]), Pos(extractors[k](it.row).rank, keyOf(it.row) + 1), keyOf(r.row))
    {
      hide HostOk, CacheOk, KeyOk, ItemsOf;
      if it == null {
        return false, null;
      }
      HostIsOk();
      ItemRow(it);
      ok, r := IndexNext(k, it);
      CacheGrows(old(items));
      assert r != it;
      ok := Erase(it);
    }

    lemma CacheGrows(was: seq<ItemPtr<T>>)
      requires was <= items
      ensures ItemsOf(was) <= Items()
    {
      assert forall i | 0 <= i < |was| :: was[i] == items[i];
    }

    // -------------------------------------------------------------- begin and the next key

    /** begin. */
    method Begin() returns (it: Item?<T>)
      requires Valid()
      modifies this`items
      ensures Valid() && old(items) <= items && fresh(Items() - old(Items()))
      ensures it == null <==> Rows() == map[]
      ensures it != null ==> it in Items() && IsFirstFrom(PrimaryOrder(Rows()), Pos(0, 0), keyOf(it.row))
    {
      it := LowerBoundOf(0);
      assert PrimaryOrder(Rows()).Keys == Rows().Keys;
    }

    /** index::begin: the lower bound of the lowest key of the index's type. */
    method IndexBegin(k: nat, lowest: SecondaryKey) returns (it: Item?<T>)
      requires Valid() && k < |extractors| && forall row: T :: lowest.rank <= extractors[k](row).rank
      modifies this`items, Items()`iters
      ensures Valid() && old(items) <= items && fresh(Items() - old(Items()))
      ensures it == null ==> Rows() == map[]
      ensures it != null ==>
                && it in Items() && keyOf(it.row) in IndexOrder(Rows(), extractors[k])
                && NoneBefore(IndexOrder(Rows(), extractors[k]), IndexOrder(Rows(), extractors[k])[keyOf(it.row)])
    {
      hide HostOk, CacheOk, KeyOk;
      HostIsOk();
      it := IndexLowerBound(k, lowest);
      ghost var order := IndexOrder(Rows(), extractors[k]);
      assert order.Keys == Rows().Keys;
      assert forall q | q in order :: !PosLess(order[q], Pos(lowest.rank, 0));
    }

    /** The largest key in the table, from the row before the end. */
    method LargestKey() returns (found: bool, pk: PrimaryKey)
      requires Valid()
      modifies this`items
      ensures Valid() && old(items) <= items && fresh(Items() - old(Items()))
      ensures found <==> Rows() != map[]
      ensures found ==> pk in Rows() && forall k | k in Rows() :: k <= pk
    {
      hide HostOk, CacheOk, KeyOk;
      pk := 0;
      HostIsOk();
      var first := Begin();
      found := first != null;
      if found {
        ghost var cached := Items();
        var ok, last := Prev(null);
        assert Items() - old(Items()) <= (Items() - cached) + (cached - old(Items()));
        ItemRow(last);
        pk := keyOf(last.row);
        assert forall k | k in Rows() :: k in PrimaryOrder(Rows()) && PrimaryOrder(Rows())[k] == Pos(0, k);
      }
    }

    /**
     * available_primary_key: the least key above those in the table at the first call and those
     * stored since; refused exactly when a key of at least 2^64 - 3 is among them.
     */
    method AvailablePrimaryKey() returns (ok: bool, key: nat)
      requires Valid()
      modifies this`items, this`nextPrimaryKey, this`mark
      ensures Valid() && old(items) <= items && fresh(Items() - old(Items()))
      ensures mark == Asked(if old(mark).Unasked? then Rows().Keys else old(mark).keys)
      ensures !ok <==> KeysExhausted(mark.keys)
      ensures ok ==> IsNextKey(mark.keys, key) && forall k | k in Rows() :: k < key
    {
      hide HostOk, CacheOk, ItemsOf, KeyRule;
      HostIsOk();
      assert mark.Unasked? <==> nextPrimaryKey == UnsetKey by { MarkTag(Rows().Keys, mark, nextPrimaryKey); }
      if nextPrimaryKey == UnsetKey {
        var found, pk := LargestKey();
        nextPrimaryKey := if !found then 0 else if pk >= NoAvailableKey then NoAvailableKey else pk + 1;
        mark := Asked(Rows().Keys);
        FirstAsked(Rows().Keys, found, pk, nextPrimaryKey);
      }
      KeyRuleExact(Rows().Keys, mark.keys, nextPrimaryKey);
      ok, key := nextPrimaryKey < NoAvailableKey, nextPrimaryKey;
      KeyAbove(Rows().Keys, mark.keys, key);
    }

    lemma CacheDistinct()
      requires Valid()
      ensures forall i, j | 0 <= i < j < |items| :: items[i].item != items[j].item
      ensures forall i | 0 <= i < |items| :: items[i].pk == keyOf(items[i].item.row)
      ensures forall it | it in Items() :: exists i :: 0 <= i < |items| && items[i].item == it
    {
      assert forall i | 0 <= i < |items| :: ItemOk(items[i]);
    }

    lemma HostKeys()
      requires HostOk()
      ensures primary.Valid() && |secondary| == |extractors| && Rows().Keys == primary.at.Keys
    {
    }

    lemma HostIsOk()
      requires HostOk()
      ensures primary.Valid() && |secondary| == |extractors| && primary.Stands(PrimaryOrder(Rows())) && Rows().Keys == primary.at.Keys
      ensures forall pk | pk in Rows() :: keyOf(Rows()[pk]) == pk && primary.at[pk] >= 0
    {
    }
  }
}
