/** Saving and loading an array of items: `char_memitemdata_to_sql` compares the entries with the rows of
    their owner and issues only the statements that are needed. */
module ItemSave {
  import opened MapTotals

  datatype RandomOption = RandomOption(id: int, value: int, param: int)
  datatype Cards = Cards(c0: nat, c1: nat, c2: nat, c3: nat)

  /** An entry is empty when `nameid` is 0. */
  datatype Item = Item(
    nameid: nat, amount: int, equip: nat, identify: int, refine: int, attribute: int, expireTime: nat,
    bound: int, uniqueId: nat, enchantgrade: int, favorite: int, equipSwitch: nat,
    cards: Cards, options: seq<RandomOption>)

  const EMPTY := Item(0, 0, 0, 0, 0, 0, 0, 0, 0, 0, 0, 0, Cards(0, 0, 0, 0), [])

  datatype Row = Row(owner: nat, item: Item)

  datatype Statement = Update(id: nat, item: Item) | Delete(id: nat) | Insert(owner: nat, items: seq<Item>)

  /** Only the inventory table has the columns `favorite` and `equip_switch`. */
  function Stored(inventory: bool, item: Item): Item {
    if inventory then item else item.(favorite := 0, equipSwitch := 0)
  }

  /** The columns by which an entry is taken to be the same item as a row; the second card is not one. */
  predicate SameItem(a: Item, b: Item) {
    a.nameid == b.nameid && a.cards.c0 == b.cards.c0 && a.cards.c2 == b.cards.c2 && a.cards.c3 == b.cards.c3
    && a.uniqueId == b.uniqueId
  }

  predicate Free(items: seq<Item>, flags: seq<bool>, i: nat)
    requires |flags| == |items|
  {
    i < |items| && items[i].nameid != 0 && !flags[i]
  }

  /** The first entry from `i` on that is not empty, not matched yet and the same item as the row. */
  function FindMatch(items: seq<Item>, flags: seq<bool>, item: Item, i: nat): (r: nat)
    requires |flags| == |items| && i <= |items|
    ensures i <= r <= |items|
    ensures r < |items| ==> Free(items, flags, r) && SameItem(items[r], item)
    ensures forall j | i <= j < r :: !(Free(items, flags, j) && SameItem(items[j], item))
    decreases |items| - i
  {
    if i == |items| then i
    else if Free(items, flags, i) && SameItem(items[i], item) then i
    else FindMatch(items, flags, item, i + 1)
  }

  datatype State = State(table: map<nat, Row>, flags: seq<bool>, log: seq<Statement>)

  /** One row of the SELECT: left alone, updated or deleted. */
  function SaveRow(inventory: bool, items: seq<Item>, s: State, id: nat): State
    requires |s.flags| == |items| && id in s.table
  {
    var row := s.table[id];
    var i := FindMatch(items, s.flags, row.item, 0);
    if i == |items| then State(s.table - {id}, s.flags, s.log + [Delete(id)])
    else
      var entry := Stored(inventory, items[i]);
      var matched := s.flags[i := true];
      if entry == row.item then State(s.table, matched, s.log)
      else State(s.table[id := row.(item := entry)], matched, s.log + [Update(id, entry)])
  }

  ghost predicate Distinct(ids: seq<nat>) { forall i, j | 0 <= i < j < |ids| :: ids[i] != ids[j] }

  function SaveRows(inventory: bool, items: seq<Item>, s: State, ids: seq<nat>): (r: State)
    requires |s.flags| == |items| && Distinct(ids) && forall id | id in ids :: id in s.table
    ensures |r.flags| == |items|
    decreases |ids|
  {
    if ids == [] then s else SaveRows(inventory, items, SaveRow(inventory, items, s, ids[0]), ids[1..])
  }

  /** The entries that are not empty and not matched from `i` on, as the INSERT lists them. */
  function Rest(inventory: bool, items: seq<Item>, flags: seq<bool>, i: nat): seq<Item>
    requires |flags| == |items| && i <= |items|
    decreases |items| - i
  {
    if i == |items| then []
    else (if Free(items, flags, i) then [Stored(inventory, items[i])] else []) + Rest(inventory, items, flags, i + 1)
  }

  /** The INSERT gives its rows fresh ids. */
  function InsertRows(table: map<nat, Row>, owner: nat, nextId: nat, added: seq<Item>): map<nat, Row>
    decreases |added|
  {
    if added == [] then table else InsertRows(table[nextId := Row(owner, added[0])], owner, nextId + 1, added[1..])
  }

  function NoFlags(n: nat): seq<bool> { seq(n, _ => false) }

  /** A result set: each row of the owner once, in any order. */
  ghost predicate IsSelect(ids: seq<nat>, table: map<nat, Row>, owner: nat) {
    && Distinct(ids)
    && forall id: nat :: id in ids <==> id in table && table[id].owner == owner
  }

  datatype Outcome = Outcome(table: map<nat, Row>, nextId: nat, log: seq<Statement>)

  function Save(inventory: bool, items: seq<Item>, owner: nat, table: map<nat, Row>, nextId: nat,
                ids: seq<nat>): Outcome
    requires Distinct(ids) && forall id | id in ids :: id in table
  {
    var s := SaveRows(inventory, items, State(table, NoFlags(|items|), []), ids);
    var added := Rest(inventory, items, s.flags, 0);
    Outcome(InsertRows(s.table, owner, nextId, added), nextId + |added|,
            if added == [] then s.log else s.log + [Insert(owner, added)])
  }

  // ----- counting -----

  function Bit(b: bool): nat { if b then 1 else 0 }

  function IsRowOf(owner: nat, x: Item): Row -> int { (r: Row) => Bit(r.owner == owner && r.item == x) }

  /** How many rows of the owner hold exactly `x`. */
  ghost function RowCount(table: map<nat, Row>, owner: nat, x: Item): int { Total(table, IsRowOf(owner, x)) }

  /** How many matched (`flag`) or unmatched non-empty entries from `i` on hold exactly `x`. */
  function EntryCount(inventory: bool, items: seq<Item>, flags: seq<bool>, flag: bool, x: Item, i: nat): nat
    requires |flags| == |items| && i <= |items|
    decreases |items| - i
  {
    if i == |items| then 0
    else Bit(items[i].nameid != 0 && flags[i] == flag && Stored(inventory, items[i]) == x)
         + EntryCount(inventory, items, flags, flag, x, i + 1)
  }

  /** How many non-empty entries of the array hold exactly `x`. */
  function Wanted(inventory: bool, items: seq<Item>, x: Item): nat {
    if items == [] then 0
    else Bit(items[0].nameid != 0 && Stored(inventory, items[0]) == x) + Wanted(inventory, items[1..], x)
  }

  function IdCount(table: map<nat, Row>, ids: seq<nat>, x: Item): nat
    requires forall id | id in ids :: id in table
  {
    if ids == [] then 0 else Bit(table[ids[0]].item == x) + IdCount(table, ids[1..], x)
  }

  lemma {:induction false} IdCountSame(table: map<nat, Row>, table': map<nat, Row>, ids: seq<nat>, x: Item)
    requires forall id | id in ids :: id in table && id in table' && table[id] == table'[id]
    ensures IdCount(table, ids, x) == IdCount(table', ids, x)
  {
    if ids != [] {
      IdCountSame(table, table', ids[1..], x);
    }
  }

  /** Counting along a result set counts the owner's rows. */
  lemma {:induction false} SelectCounts(table: map<nat, Row>, owner: nat, ids: seq<nat>, x: Item)
    requires IsSelect(ids, table, owner)
    ensures IdCount(table, ids, x) == RowCount(table, owner, x)
    decreases |ids|
  {
    if ids == [] {
      NoRows(table, owner, x);
    } else {
      var id, rest := ids[0], table - {ids[0]};
      assert forall k | k in ids[1..] :: k in ids && k != id;
      assert forall k | k in ids :: k == id || k in ids[1..];
      SelectCounts(rest, owner, ids[1..], x);
      IdCountSame(table, rest, ids[1..], x);
      TotalWithout(table, IsRowOf(owner, x), id);
    }
  }

  lemma {:induction false} NoRows(table: map<nat, Row>, owner: nat, x: Item)
    requires forall id | id in table :: table[id].owner != owner
    ensures RowCount(table, owner, x) == 0
    decreases |table|
  {
    if table != map[] {
      var id :| id in table;
      TotalWithout(table, IsRowOf(owner, x), id);
      NoRows(table - {id}, owner, x);
    }
  }

  lemma {:induction false} FlagAfter(inventory: bool, items: seq<Item>, flags: seq<bool>, k: nat, flag: bool,
                                     x: Item, i: nat)
    requires |flags| == |items| && i <= |items| && Free(items, flags, k)
    ensures EntryCount(inventory, items, flags[k := true], flag, x, i) ==
            EntryCount(inventory, items, flags, flag, x, i)
            + if i <= k && Stored(inventory, items[k]) == x then (if flag then 1 else -1) else 0
    decreases |items| - i
  {
    if i < |items| {
      FlagAfter(inventory, items, flags, k, flag, x, i + 1);
    }
  }

  lemma {:induction false} Split(inventory: bool, items: seq<Item>, flags: seq<bool>, x: Item, i: nat)
    requires |flags| == |items| && i <= |items|
    ensures EntryCount(inventory, items, flags, true, x, i) + EntryCount(inventory, items, flags, false, x, i) ==
            Wanted(inventory, items[i..], x)
    decreases |items| - i
  {
    if i < |items| {
      Split(inventory, items, flags, x, i + 1);
      assert items[i..][1..] == items[i + 1..];
    }
  }

  lemma {:induction false} NothingFlagged(inventory: bool, items: seq<Item>, x: Item, i: nat)
    requires i <= |items|
    ensures EntryCount(inventory, items, NoFlags(|items|), true, x, i) == 0
    decreases |items| - i
  {
    if i < |items| {
      NothingFlagged(inventory, items, x, i + 1);
    }
  }

  // ----- one save -----

  /** While rows `ids` are still to come: the owner's rows are those rows and the matched entries. */
  ghost predicate Balanced(inventory: bool, items: seq<Item>, owner: nat, s: State, ids: seq<nat>, x: Item) {
    && |s.flags| == |items|
    && (forall id | id in ids :: id in s.table)
    && RowCount(s.table, owner, x) == IdCount(s.table, ids, x) + EntryCount(inventory, items, s.flags, true, x, 0)
  }

  lemma {:induction false} SaveRowBalances(inventory: bool, items: seq<Item>, owner: nat, s: State, ids: seq<nat>,
                                           x: Item)
    requires ids != [] && Distinct(ids) && Balanced(inventory, items, owner, s, ids, x)
    requires s.table[ids[0]].owner == owner
    ensures Balanced(inventory, items, owner, SaveRow(inventory, items, s, ids[0]), ids[1..], x)
  {
    var id := ids[0];
    var s' := SaveRow(inventory, items, s, id);
    var i := FindMatch(items, s.flags, s.table[id].item, 0);
    assert forall k | k in ids[1..] :: k in ids && k != id;
    IdCountSame(s.table, s'.table, ids[1..], x);
    if i == |items| {
      TotalWithout(s.table, IsRowOf(owner, x), id);
    } else {
      FlagAfter(inventory, items, s.flags, i, true, x, 0);
      TotalUpdate(s.table, IsRowOf(owner, x), id, s.table[id].(item := Stored(inventory, items[i])));
    }
  }

  ghost predicate OthersKept(table: map<nat, Row>, table': map<nat, Row>, owner: nat) {
    forall id: nat ::
      && (id in table && table[id].owner != owner ==> id in table' && table'[id] == table[id])
      && (id in table' && table'[id].owner != owner ==> id in table && table'[id] == table[id])
  }

  lemma {:induction false} SaveRowsBalance(inventory: bool, items: seq<Item>, owner: nat, s: State, ids: seq<nat>,
                                           x: Item)
    requires Distinct(ids) && Balanced(inventory, items, owner, s, ids, x)
    requires forall id | id in ids :: s.table[id].owner == owner
    ensures var r := SaveRows(inventory, items, s, ids);
            && RowCount(r.table, owner, x) == EntryCount(inventory, items, r.flags, true, x, 0)
            && OthersKept(s.table, r.table, owner) && r.table.Keys <= s.table.Keys
    decreases |ids|
  {
    if ids != [] {
      SaveRowBalances(inventory, items, owner, s, ids, x);
      assert forall k | k in ids[1..] :: k in ids && k != ids[0];
      SaveRowsBalance(inventory, items, owner, SaveRow(inventory, items, s, ids[0]), ids[1..], x);
    }
  }

  function SeqCount(added: seq<Item>, x: Item): nat {
    if added == [] then 0 else Bit(added[0] == x) + SeqCount(added[1..], x)
  }

  lemma {:induction false} InsertCounts(table: map<nat, Row>, owner: nat, nextId: nat, added: seq<Item>, x: Item)
    requires forall id | id in table :: id < nextId
    ensures var table' := InsertRows(table, owner, nextId, added);
            && RowCount(table', owner, x) == RowCount(table, owner, x) + SeqCount(added, x)
            && OthersKept(table, table', owner) && forall id | id in table' :: id < nextId + |added|
    decreases |added|
  {
    if added != [] {
      TotalUpdate(table, IsRowOf(owner, x), nextId, Row(owner, added[0]));
      InsertCounts(table[nextId := Row(owner, added[0])], owner, nextId + 1, added[1..], x);
    }
  }

  lemma {:induction false} RestCounts(inventory: bool, items: seq<Item>, flags: seq<bool>, x: Item, i: nat)
    requires |flags| == |items| && i <= |items|
    ensures SeqCount(Rest(inventory, items, flags, i), x) == EntryCount(inventory, items, flags, false, x, i)
    decreases |items| - i
  {
    if i < |items| {
      RestCounts(inventory, items, flags, x, i + 1);
      if Free(items, flags, i) {
        var added := [Stored(inventory, items[i])] + Rest(inventory, items, flags, i + 1);
        assert added[1..] == Rest(inventory, items, flags, i + 1);
      } else {
        assert [] + Rest(inventory, items, flags, i + 1) == Rest(inventory, items, flags, i + 1);
      }
    }
  }

  lemma {:induction false} SaveCounts(inventory: bool, items: seq<Item>, owner: nat, table: map<nat, Row>,
                                      nextId: nat, ids: seq<nat>, x: Item)
    requires IsSelect(ids, table, owner) && forall id | id in table :: id < nextId
    ensures var r := Save(inventory, items, owner, table, nextId, ids);
            && RowCount(r.table, owner, x) == Wanted(inventory, items, x)
            && OthersKept(table, r.table, owner) && forall id | id in r.table :: id < r.nextId
  {
    var start := State(table, NoFlags(|items|), []);
    SelectCounts(table, owner, ids, x);
    NothingFlagged(inventory, items, x, 0);
    SaveRowsBalance(inventory, items, owner, start, ids, x);
    var s := SaveRows(inventory, items, start, ids);
    RestCounts(inventory, items, s.flags, x, 0);
    InsertCounts(s.table, owner, nextId, Rest(inventory, items, s.flags, 0), x);
    Split(inventory, items, s.flags, x, 0);
    assert items[0..] == items;
  }

  /** The table holds what the array holds. */
  ghost predicate Mirrors(inventory: bool, items: seq<Item>, owner: nat, table: map<nat, Row>) {
    forall x :: RowCount(table, owner, x) == Wanted(inventory, items, x)
  }

  // ----- field by field -----

  /** The columns of the table at hand agree: `favorite` and `equip_switch` are columns of the inventory only. */
  predicate Alike(inventory: bool, a: Item, b: Item) {
    && a.nameid == b.nameid && a.amount == b.amount && a.equip == b.equip && a.identify == b.identify
    && a.refine == b.refine && a.attribute == b.attribute && a.expireTime == b.expireTime && a.bound == b.bound
    && a.uniqueId == b.uniqueId && a.enchantgrade == b.enchantgrade
    && a.cards.c0 == b.cards.c0 && a.cards.c1 == b.cards.c1 && a.cards.c2 == b.cards.c2 && a.cards.c3 == b.cards.c3
    && a.options == b.options
    && (inventory ==> a.favorite == b.favorite && a.equipSwitch == b.equipSwitch)
  }

  function IsAlike(inventory: bool, owner: nat, x: Item): Row -> int {
    (r: Row) => Bit(r.owner == owner && Alike(inventory, r.item, x))
  }

  /** How many rows of the owner, and how many non-empty entries, agree with `x`. */
  ghost function RowsAlike(inventory: bool, table: map<nat, Row>, owner: nat, x: Item): int {
    Total(table, IsAlike(inventory, owner, x))
  }

  function EntriesAlike(inventory: bool, items: seq<Item>, x: Item): nat {
    if items == [] then 0
    else Bit(items[0].nameid != 0 && Alike(inventory, items[0], x)) + EntriesAlike(inventory, items[1..], x)
  }

  function LoadedAlike(inventory: bool, items: seq<Item>, x: Item): nat {
    if items == [] then 0 else Bit(Alike(inventory, items[0], x)) + LoadedAlike(inventory, items[1..], x)
  }

  lemma {:induction false} WantedAlike(inventory: bool, items: seq<Item>, x: Item)
    ensures Wanted(inventory, items, Stored(inventory, x)) == EntriesAlike(inventory, items, x)
  {
    if items != [] {
      WantedAlike(inventory, items[1..], x);
    }
  }

  lemma {:induction false} WantedIsStored(inventory: bool, items: seq<Item>, x: Item)
    requires Wanted(inventory, items, x) > 0
    ensures Stored(inventory, x) == x
  {
    if !(items[0].nameid != 0 && Stored(inventory, items[0]) == x) {
      WantedIsStored(inventory, items[1..], x);
    }
  }

  lemma {:induction false} RowIsCounted(table: map<nat, Row>, owner: nat, id: nat)
    requires id in table && table[id].owner == owner
    ensures RowCount(table, owner, table[id].item) > 0
  {
    var x := table[id].item;
    TotalWithout(table, IsRowOf(owner, x), id);
    CountsAreNatural(table - {id}, owner, x);
  }

  lemma {:induction false} CountsAreNatural(table: map<nat, Row>, owner: nat, x: Item)
    ensures RowCount(table, owner, x) >= 0
    decreases |table|
  {
    if table != map[] {
      var id :| id in table;
      TotalWithout(table, IsRowOf(owner, x), id);
      CountsAreNatural(table - {id}, owner, x);
    }
  }

  lemma {:induction false} SameOnRows(table: map<nat, Row>, f: Row -> int, g: Row -> int)
    requires forall id | id in table :: f(table[id]) == g(table[id])
    ensures Total(table, f) == Total(table, g)
    decreases |table|
  {
    if table != map[] {
      var id :| id in table;
      TotalWithout(table, f, id);
      TotalWithout(table, g, id);
      SameOnRows(table - {id}, f, g);
    }
  }

  lemma {:induction false} MirroredFields(inventory: bool, items: seq<Item>, owner: nat, table: map<nat, Row>, x: Item)
    requires Mirrors(inventory, items, owner, table)
    ensures RowsAlike(inventory, table, owner, x) == EntriesAlike(inventory, items, x)
  {
    var y := Stored(inventory, x);
    forall id | id in table ensures IsAlike(inventory, owner, x)(table[id]) == IsRowOf(owner, y)(table[id]) {
      var r := table[id];
      if r.owner == owner {
        RowIsCounted(table, owner, id);
        assert RowCount(table, owner, r.item) == Wanted(inventory, items, r.item);
        WantedIsStored(inventory, items, r.item);
      }
    }
    SameOnRows(table, IsAlike(inventory, owner, x), IsRowOf(owner, y));
    WantedAlike(inventory, items, x);
    assert RowCount(table, owner, y) == Wanted(inventory, items, y);
  }

  function IdsAlike(inventory: bool, table: map<nat, Row>, ids: seq<nat>, x: Item): nat
    requires forall id | id in ids :: id in table
  {
    if ids == [] then 0
    else Bit(Alike(inventory, table[ids[0]].item, x)) + IdsAlike(inventory, table, ids[1..], x)
  }

  lemma {:induction false} LoadedIds(inventory: bool, table: map<nat, Row>, ids: seq<nat>, max: nat, x: Item)
    requires |ids| <= max && forall id | id in ids :: id in table
    ensures LoadedAlike(inventory, Load(table, ids, max), x) == IdsAlike(inventory, table, ids, x)
    decreases |ids|
  {
    if ids != [] {
      LoadedIds(inventory, table, ids[1..], max, x);
      assert Load(table, ids, max)[1..] == Load(table, ids[1..], max);
    }
  }

  lemma {:induction false} IdsAlikeSame(inventory: bool, table: map<nat, Row>, table': map<nat, Row>, ids: seq<nat>,
                                        x: Item)
    requires forall id | id in ids :: id in table && id in table' && table[id] == table'[id]
    ensures IdsAlike(inventory, table, ids, x) == IdsAlike(inventory, table', ids, x)
  {
    if ids != [] {
      IdsAlikeSame(inventory, table, table', ids[1..], x);
    }
  }

  lemma {:induction false} NoneAlike(inventory: bool, table: map<nat, Row>, owner: nat, x: Item)
    requires forall id | id in table :: table[id].owner != owner
    ensures RowsAlike(inventory, table, owner, x) == 0
    decreases |table|
  {
    if table != map[] {
      var id :| id in table;
      TotalWithout(table, IsAlike(inventory, owner, x), id);
      NoneAlike(inventory, table - {id}, owner, x);
    }
  }

  lemma {:induction false} SelectAlike(inventory: bool, table: map<nat, Row>, owner: nat, ids: seq<nat>, x: Item)
    requires IsSelect(ids, table, owner)
    ensures IdsAlike(inventory, table, ids, x) == RowsAlike(inventory, table, owner, x)
    decreases |ids|
  {
    if ids == [] {
      NoneAlike(inventory, table, owner, x);
    } else {
      var id, rest := ids[0], table - {ids[0]};
      assert forall k | k in ids[1..] :: k in ids && k != id;
      assert forall k | k in ids :: k == id || k in ids[1..];
      SelectAlike(inventory, rest, owner, ids[1..], x);
      IdsAlikeSame(inventory, table, rest, ids[1..], x);
      TotalWithout(table, IsAlike(inventory, owner, x), id);
    }
  }

  /** The saving loop refines "delete all rows of the owner, insert every non-empty entry": afterwards the
      owner's rows hold each item, in all the columns of the table, exactly as often as the array has it in a non-empty
      entry, and nobody else's rows changed.
      This holds for every old table, every result order and every choice of duplicate entries. */
  lemma {:induction false} SaveRefinesReplaceAll(inventory: bool, items: seq<Item>, owner: nat, table: map<nat, Row>,
                                                 nextId: nat, ids: seq<nat>)
    requires IsSelect(ids, table, owner) && forall id | id in table :: id < nextId
    ensures var r := Save(inventory, items, owner, table, nextId, ids);
            && (forall x :: RowsAlike(inventory, r.table, owner, x) == EntriesAlike(inventory, items, x))
            && Mirrors(inventory, items, owner, r.table)
            && OthersKept(table, r.table, owner)
            && forall id | id in r.table :: id < r.nextId
  {
    var r := Save(inventory, items, owner, table, nextId, ids);
    SaveCounts(inventory, items, owner, table, nextId, ids, EMPTY);
    forall x ensures RowCount(r.table, owner, x) == Wanted(inventory, items, x) {
      SaveCounts(inventory, items, owner, table, nextId, ids, x);
    }
    forall x ensures RowsAlike(inventory, r.table, owner, x) == EntriesAlike(inventory, items, x) {
      MirroredFields(inventory, items, owner, r.table, x);
    }
  }

  // ----- the statements -----

  /** What a statement does to the table; rows inserted get ids from `nextId` on. */
  function Execute(table: map<nat, Row>, nextId: nat, statement: Statement): map<nat, Row> {
    match statement
    case Update(id, item) => if id in table then table[id := table[id].(item := item)] else table
    case Delete(id) => table - {id}
    case Insert(owner, items) => InsertRows(table, owner, nextId, items)
  }

  function ExecuteAll(table: map<nat, Row>, nextId: nat, log: seq<Statement>): map<nat, Row> {
    if log == [] then table
    else Execute(ExecuteAll(table, nextId, log[..|log| - 1]), nextId, log[|log| - 1])
  }

  lemma {:induction false} ExecuteOneMore(table: map<nat, Row>, nextId: nat, log: seq<Statement>, last: Statement)
    ensures ExecuteAll(table, nextId, log + [last]) == Execute(ExecuteAll(table, nextId, log), nextId, last)
  {
    assert (log + [last])[..|log|] == log;
  }

  lemma {:induction false} SaveRowExecutes(inventory: bool, items: seq<Item>, table: map<nat, Row>, nextId: nat,
                                           s: State, id: nat)
    requires |s.flags| == |items| && id in s.table && s.table == ExecuteAll(table, nextId, s.log)
    ensures var s' := SaveRow(inventory, items, s, id); s'.table == ExecuteAll(table, nextId, s'.log)
  {
    var i := FindMatch(items, s.flags, s.table[id].item, 0);
    if i == |items| {
      ExecuteOneMore(table, nextId, s.log, Delete(id));
    } else {
      ExecuteOneMore(table, nextId, s.log, Update(id, Stored(inventory, items[i])));
    }
  }

  lemma {:induction false} SaveRowsExecute(inventory: bool, items: seq<Item>, table: map<nat, Row>, nextId: nat,
                                           s: State, ids: seq<nat>)
    requires |s.flags| == |items| && Distinct(ids) && (forall id | id in ids :: id in s.table)
    requires s.table == ExecuteAll(table, nextId, s.log)
    ensures var r := SaveRows(inventory, items, s, ids); r.table == ExecuteAll(table, nextId, r.log)
    decreases |ids|
  {
    if ids != [] {
      var t := SaveRow(inventory, items, s, ids[0]);
      SaveRowExecutes(inventory, items, table, nextId, s, ids[0]);
      RowSaved(inventory, items, s, ids, t);
      SaveRowsExecute(inventory, items, table, nextId, t, ids[1..]);
    }
  }

  /** The table after a save is what its statements, one after the other, make of the table before. */
  lemma {:induction false} StatementsMakeTheTable(inventory: bool, items: seq<Item>, owner: nat,
                                                  table: map<nat, Row>, nextId: nat, ids: seq<nat>)
    requires Distinct(ids) && forall id | id in ids :: id in table
    ensures var r := Save(inventory, items, owner, table, nextId, ids); r.table == ExecuteAll(table, nextId, r.log)
  {
    var start := State(table, NoFlags(|items|), []);
    SaveRowsExecute(inventory, items, table, nextId, start, ids);
    var s := SaveRows(inventory, items, start, ids);
    var added := Rest(inventory, items, s.flags, 0);
    ExecuteOneMore(table, nextId, s.log, Insert(owner, added));
  }

  // ----- saving again -----

  /** Entries taken for the same item are the same item. */
  predicate Consistent(inventory: bool, items: seq<Item>) {
    forall i, j | 0 <= i < |items| && 0 <= j < |items| && items[i].nameid != 0 && SameItem(items[i], items[j]) ::
      Stored(inventory, items[i]) == Stored(inventory, items[j])
  }

  ghost predicate Pending(inventory: bool, items: seq<Item>, s: State, ids: seq<nat>) {
    && |s.flags| == |items| && Distinct(ids) && (forall id | id in ids :: id in s.table)
    && forall x :: IdCount(s.table, ids, x) == EntryCount(inventory, items, s.flags, false, x, 0)
  }

  lemma {:induction false} CountWitness(inventory: bool, items: seq<Item>, flags: seq<bool>, x: Item,
                                        i: nat) returns (k: nat)
    requires |flags| == |items| && i <= |items| && EntryCount(inventory, items, flags, false, x, i) > 0
    ensures Free(items, flags, k) && Stored(inventory, items[k]) == x
    decreases |items| - i
  {
    if Free(items, flags, i) && Stored(inventory, items[i]) == x {
      k := i;
    } else {
      k := CountWitness(inventory, items, flags, x, i + 1);
    }
  }

  lemma {:induction false} QuietRow(inventory: bool, items: seq<Item>, s: State, ids: seq<nat>)
    requires ids != [] && Consistent(inventory, items) && Pending(inventory, items, s, ids)
    ensures var s' := SaveRow(inventory, items, s, ids[0]);
            s'.log == s.log && Pending(inventory, items, s', ids[1..])
  {
    var item := s.table[ids[0]].item;
    assert IdCount(s.table, ids, item) == EntryCount(inventory, items, s.flags, false, item, 0);
    var k := CountWitness(inventory, items, s.flags, item, 0);
    var i := FindMatch(items, s.flags, item, 0);
    assert SameItem(items[k], item) && SameItem(items[i], items[k]);
    forall x ensures IdCount(s.table, ids[1..], x) == EntryCount(inventory, items, s.flags[i := true], false, x, 0) {
      assert IdCount(s.table, ids, x) == EntryCount(inventory, items, s.flags, false, x, 0);
      FlagAfter(inventory, items, s.flags, i, false, x, 0);
    }
  }

  lemma {:induction false} QuietRows(inventory: bool, items: seq<Item>, s: State, ids: seq<nat>)
    requires Consistent(inventory, items) && Pending(inventory, items, s, ids)
    ensures var r := SaveRows(inventory, items, s, ids);
            r.log == s.log && Rest(inventory, items, r.flags, 0) == []
    decreases |ids|
  {
    if ids == [] {
      var rest := Rest(inventory, items, s.flags, 0);
      if rest != [] {
        RestCounts(inventory, items, s.flags, rest[0], 0);
      }
    } else {
      QuietRow(inventory, items, s, ids);
      QuietRows(inventory, items, SaveRow(inventory, items, s, ids[0]), ids[1..]);
    }
  }

  lemma {:induction false} SecondSaveIsQuiet(inventory: bool, items: seq<Item>, owner: nat, table: map<nat, Row>,
                                             nextId: nat, ids: seq<nat>)
    requires Mirrors(inventory, items, owner, table) && IsSelect(ids, table, owner) && Consistent(inventory, items)
    ensures Save(inventory, items, owner, table, nextId, ids).log == []
  {
    var start := State(table, NoFlags(|items|), []);
    forall x ensures IdCount(table, ids, x) == EntryCount(inventory, items, start.flags, false, x, 0) {
      SelectCounts(table, owner, ids, x);
      NothingFlagged(inventory, items, x, 0);
      Split(inventory, items, start.flags, x, 0);
      assert items[0..] == items && RowCount(table, owner, x) == Wanted(inventory, items, x);
    }
    QuietRows(inventory, items, start, ids);
  }

  lemma {:induction false} LogGrows(inventory: bool, items: seq<Item>, s: State, ids: seq<nat>)
    requires |s.flags| == |items| && Distinct(ids) && forall id | id in ids :: id in s.table
    ensures |s.log| <= |SaveRows(inventory, items, s, ids).log|
    decreases |ids|
  {
    if ids != [] {
      LogGrows(inventory, items, SaveRow(inventory, items, s, ids[0]), ids[1..]);
    }
  }

  lemma {:induction false} Prepend(table: map<nat, Row>, owner: nat, id: nat, rest: seq<nat>)
    requires id in table && table[id].owner == owner && IsSelect(rest, table - {id}, owner)
    ensures IsSelect([id] + rest, table, owner)
  {
    var ids := [id] + rest;
    assert id !in rest;
    forall i, j | 0 <= i < j < |ids| ensures ids[i] != ids[j] {
      assert ids[j] == rest[j - 1];
    }
  }

  lemma {:induction false} SelectExists(table: map<nat, Row>, owner: nat) returns (ids: seq<nat>)
    ensures IsSelect(ids, table, owner)
    decreases |table|
  {
    if table == map[] {
      ids := [];
    } else {
      var id :| id in table;
      ids := SelectExists(table - {id}, owner);
      if table[id].owner == owner {
        Prepend(table, owner, id, ids);
        ids := [id] + ids;
      }
    }
  }

  lemma {:induction false} RowWitness(table: map<nat, Row>, owner: nat, x: Item) returns (id: nat)
    requires RowCount(table, owner, x) > 0
    ensures id in table && table[id] == Row(owner, x)
    decreases |table|
  {
    var k :| k in table;
    TotalWithout(table, IsRowOf(owner, x), k);
    if table[k] == Row(owner, x) {
      id := k;
    } else {
      id := RowWitness(table - {k}, owner, x);
    }
  }

  lemma {:induction false} WantedWitness(inventory: bool, items: seq<Item>, k: nat)
    requires k < |items| && items[k].nameid != 0
    ensures Wanted(inventory, items, Stored(inventory, items[k])) > 0
  {
    if k > 0 {
      WantedWitness(inventory, items[1..], k - 1);
    }
  }

  lemma {:induction false} SameMatch(items: seq<Item>, flags: seq<bool>, a: Item, b: Item, i: nat)
    requires |flags| == |items| && i <= |items| && SameItem(a, b)
    ensures FindMatch(items, flags, a, i) == FindMatch(items, flags, b, i)
    decreases |items| - i
  {
    if i < |items| {
      SameMatch(items, flags, a, b, i + 1);
    }
  }

  /** A row whose content differs from the entry it is matched with first is written. */
  lemma {:induction false} MismatchIsWritten(inventory: bool, items: seq<Item>, owner: nat, table: map<nat, Row>,
                                             nextId: nat, id: nat, rest: seq<nat>)
    requires IsSelect([id] + rest, table, owner)
    requires var first := FindMatch(items, NoFlags(|items|), table[id].item, 0);
             first < |items| && Stored(inventory, items[first]) != table[id].item
    ensures Save(inventory, items, owner, table, nextId, [id] + rest).log != []
  {
    var ids := [id] + rest;
    var start := State(table, NoFlags(|items|), []);
    var s := SaveRow(inventory, items, start, id);
    assert |s.log| == 1;
    assert ids[0] == id && ids[1..] == rest;
    LogGrows(inventory, items, s, rest);
  }

  /** When two entries are taken for the same item and differ, some result order makes the save write. */
  lemma {:induction false} SecondSaveIsNoisy(inventory: bool, items: seq<Item>, owner: nat, table: map<nat, Row>,
                                             nextId: nat) returns (ids: seq<nat>)
    requires Mirrors(inventory, items, owner, table) && !Consistent(inventory, items)
    ensures IsSelect(ids, table, owner) && Save(inventory, items, owner, table, nextId, ids).log != []
  {
    var flags := NoFlags(|items|);
    var a, b :| 0 <= a < |items| && 0 <= b < |items| && items[a].nameid != 0 && SameItem(items[a], items[b])
                && Stored(inventory, items[a]) != Stored(inventory, items[b]);
    var first := FindMatch(items, flags, items[a], 0);
    assert Free(items, flags, a);
    var k := if Stored(inventory, items[a]) != Stored(inventory, items[first]) then a else b;
    var x := Stored(inventory, items[k]);
    WantedWitness(inventory, items, k);
    assert RowCount(table, owner, x) == Wanted(inventory, items, x);
    var id := RowWitness(table, owner, x);
    var rest := SelectExists(table - {id}, owner);
    Prepend(table, owner, id, rest);
    SameMatch(items, flags, x, items[a], 0);
    MismatchIsWritten(inventory, items, owner, table, nextId, id, rest);
    ids := [id] + rest;
  }

  /** Saving what is already saved writes nothing, whatever order the rows come in, exactly when entries
      taken for the same item are the same item. */
  lemma {:induction false} SaveIsIdempotentExactlyWhen(inventory: bool, items: seq<Item>, owner: nat,
                                                       table: map<nat, Row>, nextId: nat)
    requires Mirrors(inventory, items, owner, table)
    ensures Consistent(inventory, items) <==>
            forall ids | IsSelect(ids, table, owner) :: Save(inventory, items, owner, table, nextId, ids).log == []
  {
    if Consistent(inventory, items) {
      forall ids | IsSelect(ids, table, owner) ensures Save(inventory, items, owner, table, nextId, ids).log == [] {
        SecondSaveIsQuiet(inventory, items, owner, table, nextId, ids);
      }
    } else {
      var ids := SecondSaveIsNoisy(inventory, items, owner, table, nextId);
    }
  }

  // ----- loading -----

  predicate OrderedByNameid(ids: seq<nat>, table: map<nat, Row>)
    requires forall id | id in ids :: id in table
  {
    forall i, j | 0 <= i < j < |ids| :: table[ids[i]].item.nameid <= table[ids[j]].item.nameid
  }

  /** The first `max` rows of an ordered result set. */
  function Load(table: map<nat, Row>, ids: seq<nat>, max: nat): seq<Item>
    requires forall id | id in ids :: id in table
  {
    var n := if |ids| <= max then |ids| else max;
    seq(n, i requires 0 <= i < n => table[ids[i]].item)
  }

  /** Save, then load: when the rows fit, the loaded items are the non-empty entries, each as often as the
      array holds it, ordered by nameid. */
  lemma {:induction false} SaveThenLoad(inventory: bool, items: seq<Item>, owner: nat, table: map<nat, Row>,
                                        nextId: nat, ids: seq<nat>,
                     ids': seq<nat>, max: nat)
    requires IsSelect(ids, table, owner) && forall id | id in table :: id < nextId
    requires var saved := Save(inventory, items, owner, table, nextId, ids).table;
             IsSelect(ids', saved, owner) && OrderedByNameid(ids', saved) && |ids'| <= max
    ensures var loaded := Load(Save(inventory, items, owner, table, nextId, ids).table, ids', max);
            && (forall x :: LoadedAlike(inventory, loaded, x) == EntriesAlike(inventory, items, x))
            && forall i, j | 0 <= i < j < |loaded| :: loaded[i].nameid <= loaded[j].nameid
  {
    var saved := Save(inventory, items, owner, table, nextId, ids).table;
    SaveRefinesReplaceAll(inventory, items, owner, table, nextId, ids);
    forall x ensures LoadedAlike(inventory, Load(saved, ids', max), x) == EntriesAlike(inventory, items, x) {
      LoadedIds(inventory, saved, ids', max, x);
      SelectAlike(inventory, saved, owner, ids', x);
      assert RowsAlike(inventory, saved, owner, x) == EntriesAlike(inventory, items, x);
    }
  }

  lemma {:induction false} RowSaved(inventory: bool, items: seq<Item>, s: State, ids: seq<nat>, t: State)
    requires |s.flags| == |items| && Distinct(ids) && (forall id | id in ids :: id in s.table) && ids != []
    requires t == SaveRow(inventory, items, s, ids[0])
    ensures Distinct(ids[1..]) && (forall id | id in ids[1..] :: id in t.table) && |t.flags| == |items|
    ensures SaveRows(inventory, items, t, ids[1..]) == SaveRows(inventory, items, s, ids)
  {
    forall id | id in ids[1..] ensures id in ids && id != ids[0] {
    }
  }

  // ----- the procedures as the program has them -----

  class ItemTable {
    var rows: map<nat, Row>
    var nextId: nat
    var log: seq<Statement>

    constructor ()
      ensures rows == map[] && log == []
    {
      rows, nextId, log := map[], 1, [];
    }

    /** `selected` is the order in which the SELECT yields the owner's rows. */
    method MemitemdataToSql(items: seq<Item>, owner: nat, inventory: bool, selected: seq<nat>)
      requires IsSelect(selected, rows, owner)
      modifies this
      ensures Outcome(rows, nextId, log) ==
              var r := Save(inventory, items, owner, old(rows), old(nextId), selected);
              Outcome(r.table, r.nextId, old(log) + r.log)
    {
      ghost var start := State(rows, NoFlags(|items|), []);
      var flag := new bool[|items|](_ => false);
      assert flag[..] == NoFlags(|items|);
      ghost var said: seq<Statement> := [];
      for r := 0 to |selected|
        invariant nextId == old(nextId) && log == old(log) + said
        invariant Distinct(selected[r..]) && forall id | id in selected[r..] :: id in rows
        invariant SaveRows(inventory, items, State(rows, flag[..], said), selected[r..]) ==
                  SaveRows(inventory, items, start, selected)
      {
        ghost var before := State(rows, flag[..], said);
        ghost var rest := selected[r..];
        assert rest[0] == selected[r] && rest[0] in rest && rest[1..] == selected[r + 1..];
        var statements := MatchRow(items, inventory, selected[r], flag);
        said := said + statements;
        RowSaved(inventory, items, before, rest, State(rows, flag[..], said));
      }
      assert selected[|selected|..] == [];
      assert State(rows, flag[..], said) == SaveRows(inventory, items, start, selected);
      InsertNew(items, owner, inventory, flag);
    }

    /** Compares one row with the array and says what was executed. */
    method MatchRow(items: seq<Item>, inventory: bool, id: nat,
                    flag: array<bool>) returns (ghost statements: seq<Statement>)
      requires flag.Length == |items| && id in rows
      modifies this`rows, this`log, flag
      ensures log == old(log) + statements
      ensures forall said ::
                State(rows, flag[..], said + statements) ==
                SaveRow(inventory, items, State(old(rows), old(flag[..]), said), id)
    {
      var row := rows[id];
      var i := 0;
      while i < |items| && !(items[i].nameid != 0 && !flag[i] && SameItem(items[i], row.item))
        invariant 0 <= i <= |items|
        invariant FindMatch(items, flag[..], row.item, 0) == FindMatch(items, flag[..], row.item, i)
      {
        i := i + 1;
      }
      ghost var flags := flag[..];
      if i < |items| {
        var entry := Stored(inventory, items[i]);
        if entry == row.item {
          statements := [];
        } else {
          rows := rows[id := row.(item := row.item.(
            amount := items[i].amount, equip := items[i].equip, identify := items[i].identify,
                refine := items[i].refine,
            attribute := items[i].attribute, expireTime := items[i].expireTime, bound := items[i].bound,
            uniqueId := items[i].uniqueId, enchantgrade := items[i].enchantgrade,
            favorite := entry.favorite, equipSwitch := entry.equipSwitch, cards := items[i].cards,
                options := items[i].options))];
          statements := [Update(id, entry)];
          log := log + [Update(id, entry)];
        }
        flag[i] := true;
        assert flag[..] == flags[i := true];
      } else {
        rows := rows - {id};
        statements := [Delete(id)];
        log := log + [Delete(id)];
      }
      assert forall said: seq<Statement> :: said + [] == said;
    }

    method InsertNew(items: seq<Item>, owner: nat, inventory: bool, flag: array<bool>)
      requires flag.Length == |items|
      modifies this
      ensures var added := Rest(inventory, items, flag[..], 0);
              && rows == InsertRows(old(rows), owner, old(nextId), added) && nextId == old(nextId) + |added|
              && log == if added == [] then old(log) else old(log) + [Insert(owner, added)]
    {
      var added := Unmatched(items, inventory, flag);
      if added != [] {
        log := log + [Insert(owner, added)];
        ExecuteInsert(owner, added);
      }
    }

    method Unmatched(items: seq<Item>, inventory: bool, flag: array<bool>) returns (added: seq<Item>)
      requires flag.Length == |items|
      ensures added == Rest(inventory, items, flag[..], 0)
    {
      added := [];
      for i := 0 to |items|
        invariant added + Rest(inventory, items, flag[..], i) == Rest(inventory, items, flag[..], 0)
      {
        if items[i].nameid != 0 && !flag[i] {
          added := added + [Stored(inventory, items[i])];
        }
      }
      assert added + [] == added;
    }

    /** The table gives each inserted row the next id. */
    method ExecuteInsert(owner: nat, added: seq<Item>)
      modifies this`rows, this`nextId
      ensures rows == InsertRows(old(rows), owner, old(nextId), added) && nextId == old(nextId) + |added|
    {
      for k := 0 to |added|
        invariant nextId == old(nextId) + k
        invariant InsertRows(rows, owner, nextId, added[k..]) == InsertRows(old(rows), owner, old(nextId), added)
      {
        assert added[k..][1..] == added[k + 1..];
        rows := rows[nextId := Row(owner, added[k])];
        nextId := nextId + 1;
      }
    }

    /** `selected` is ordered by nameid; at most `max` rows are copied, the rest of the storage is cleared. */
    method MemitemdataFromSql(storage: array<Item>, max: nat, selected: seq<nat>) returns (amount: nat)
      requires max <= storage.Length && forall id | id in selected :: id in rows
      modifies storage
      ensures amount <= storage.Length && storage[..amount] == Load(rows, selected, max)
      ensures forall i | amount <= i < storage.Length :: storage[i] == EMPTY
    {
      for i := 0 to storage.Length
        invariant forall k | 0 <= k < i :: storage[k] == EMPTY
      {
        storage[i] := EMPTY;
      }
      var i := 0;
      while i < max && i < |selected|
        invariant 0 <= i <= max && i <= |selected|
        invariant forall k | 0 <= k < i :: storage[k] == rows[selected[k]].item
        invariant forall k | i <= k < storage.Length :: storage[k] == EMPTY
      {
        storage[i] := rows[selected[i]].item;
        i := i + 1;
      }
      amount := i;
    }
  }
}
