/** Which rows of an item table survive a save, and what they hold afterwards. */
module ItemMatching {
  import opened ItemSave

  /** The columns by which rows and entries are matched. */
  datatype Key = Key(nameid: nat, card0: nat, card2: nat, card3: nat, uniqueId: nat)

  function KeyOf(item: Item): Key {
    Key(item.nameid, item.cards.c0, item.cards.c2, item.cards.c3, item.uniqueId)
  }

  predicate Matches(item: Item, key: Key) { item.nameid != 0 && KeyOf(item) == key }

  /** How many of the first `n` entries that are not empty have the key. */
  function EntriesWith(items: seq<Item>, n: nat, key: Key): nat
    requires n <= |items|
  {
    if n == 0 then 0 else EntriesWith(items, n - 1, key) + if Matches(items[n - 1], key) then 1 else 0
  }

  /** How many of the first `n` rows have the key. */
  function RowsWith(table: map<nat, Row>, ids: seq<nat>, n: nat, key: Key): nat
    requires n <= |ids| && forall id | id in ids :: id in table
  {
    if n == 0 then 0
    else RowsWith(table, ids, n - 1, key) + if KeyOf(table[ids[n - 1]].item) == key then 1 else 0
  }

  lemma {:induction false} EntriesGrow(items: seq<Item>, m: nat, n: nat, key: Key)
    requires m <= n <= |items|
    ensures EntriesWith(items, m, key) <= EntriesWith(items, n, key)
    ensures m < n && Matches(items[m], key) ==> EntriesWith(items, m, key) < EntriesWith(items, n, key)
  {
    if m < n {
      EntriesGrow(items, m, n - 1, key);
    }
  }

  /** The entry of the key with exactly `rank` others before it, if there are so many. */
  lemma {:induction false} EntryOfRank(items: seq<Item>, n: nat, key: Key, rank: nat) returns (i: nat)
    requires n <= |items| && rank < EntriesWith(items, n, key)
    ensures i < n && Matches(items[i], key) && EntriesWith(items, i, key) == rank
  {
    if rank < EntriesWith(items, n - 1, key) {
      i := EntryOfRank(items, n - 1, key, rank);
    } else {
      i := n - 1;
    }
  }

  /** Whether the entry is one of the first of its key, as many as there were rows of the key. */
  predicate Taken(items: seq<Item>, table: map<nat, Row>, ids: seq<nat>, k: nat, i: nat)
    requires k <= |ids| && (forall id | id in ids :: id in table) && i < |items|
  {
    items[i].nameid != 0 && EntriesWith(items, i, KeyOf(items[i])) < RowsWith(table, ids, k, KeyOf(items[i]))
  }

  /** After `k` rows exactly those entries are matched. */
  ghost predicate Ranked(items: seq<Item>, flags: seq<bool>, table: map<nat, Row>, ids: seq<nat>, k: nat)
    requires k <= |ids| && forall id | id in ids :: id in table
  {
    |flags| == |items| && forall i | 0 <= i < |items| :: flags[i] <==> Taken(items, table, ids, k, i)
  }

  lemma {:induction false} NotTaken(items: seq<Item>, flags: seq<bool>, table: map<nat, Row>, ids: seq<nat>, k: nat,
                                    i: nat)
    requires (forall id | id in ids :: id in table) && k <= |ids| && Ranked(items, flags, table, ids, k)
    requires i < |items| && items[i].nameid != 0
    requires EntriesWith(items, i, KeyOf(items[i])) >= RowsWith(table, ids, k, KeyOf(items[i]))
    ensures Free(items, flags, i)
  {
    assert !Taken(items, table, ids, k, i);
  }

  /** The next row takes the first entry of its key that is left, unless there is none. */
  lemma {:induction false} NextRow(items: seq<Item>, flags: seq<bool>, table: map<nat, Row>, ids: seq<nat>, k: nat)
    requires (forall id | id in ids :: id in table) && k < |ids| && Ranked(items, flags, table, ids, k)
    ensures var key, rank := KeyOf(table[ids[k]].item), RowsWith(table, ids, k, KeyOf(table[ids[k]].item));
            var i := FindMatch(items, flags, table[ids[k]].item, 0);
            && (i < |items| <==> rank < EntriesWith(items, |items|, key))
            && (i < |items| ==> Matches(items[i], key) && EntriesWith(items, i, key) == rank)
  {
    var key, rank := KeyOf(table[ids[k]].item), RowsWith(table, ids, k, KeyOf(table[ids[k]].item));
    var i := FindMatch(items, flags, table[ids[k]].item, 0);
    if i < |items| {
      assert !Taken(items, table, ids, k, i);
      EntriesGrow(items, i, |items|, key);
      if EntriesWith(items, i, key) > rank {
        var j := EntryOfRank(items, i, key, rank);
        NotTaken(items, flags, table, ids, k, j);
      }
    } else if rank < EntriesWith(items, |items|, key) {
      var j := EntryOfRank(items, |items|, key, rank);
      NotTaken(items, flags, table, ids, k, j);
    }
  }

  lemma {:induction false} RowTakes(items: seq<Item>, flags: seq<bool>, table: map<nat, Row>, ids: seq<nat>, k: nat)
    requires (forall id | id in ids :: id in table) && k < |ids| && Ranked(items, flags, table, ids, k)
    ensures var i := FindMatch(items, flags, table[ids[k]].item, 0);
            Ranked(items, if i < |items| then flags[i := true] else flags, table, ids, k + 1)
  {
    var key, rank := KeyOf(table[ids[k]].item), RowsWith(table, ids, k, KeyOf(table[ids[k]].item));
    var i := FindMatch(items, flags, table[ids[k]].item, 0);
    var after := if i < |items| then flags[i := true] else flags;
    NextRow(items, flags, table, ids, k);
    forall j | 0 <= j < |items| ensures after[j] <==> Taken(items, table, ids, k + 1, j) {
      assert flags[j] <==> Taken(items, table, ids, k, j);
      if Matches(items[j], key) {
        EntriesGrow(items, j, |items|, key);
        if i < |items| && j < i {
          EntriesGrow(items, j, i, key);
        } else if i < |items| && i < j {
          EntriesGrow(items, i, j, key);
        }
      }
    }
  }

  /** What a row of rank `rank` in its key must be afterwards. */
  ghost predicate Settled(inventory: bool, items: seq<Item>, row: Row, rank: nat, table: map<nat, Row>, id: nat) {
    && (id in table <==> rank < EntriesWith(items, |items|, KeyOf(row.item)))
    && (id in table ==>
          table[id].owner == row.owner && exists i | 0 <= i < |items| ::
            Matches(items[i], KeyOf(row.item)) && EntriesWith(items, i, KeyOf(row.item)) == rank
            && Alike(inventory, table[id].item, items[i]))
  }

  predicate SameAt(before: map<nat, Row>, after: map<nat, Row>, id: nat) {
    (id in after <==> id in before) && (id in before ==> after[id] == before[id])
  }

  lemma {:induction false} SavedRow(inventory: bool, items: seq<Item>, s: State, table: map<nat, Row>, ids: seq<nat>,
                                    k: nat)
    requires (forall id | id in ids :: id in table) && k < |ids| && Ranked(items, s.flags, table, ids, k)
    requires ids[k] in s.table && s.table[ids[k]] == table[ids[k]]
    ensures var row := table[ids[k]]; var s' := SaveRow(inventory, items, s, ids[k]);
            && Settled(inventory, items, row, RowsWith(table, ids, k, KeyOf(row.item)), s'.table, ids[k])
            && Ranked(items, s'.flags, table, ids, k + 1)
            && forall id | id != ids[k] :: SameAt(s.table, s'.table, id)
  {
    NextRow(items, s.flags, table, ids, k);
    RowTakes(items, s.flags, table, ids, k);
  }

  lemma {:induction false} SavedRows(inventory: bool, items: seq<Item>, s: State, table: map<nat, Row>, ids: seq<nat>,
                                     k: nat)
    requires Distinct(ids) && (forall id | id in ids :: id in table) && k <= |ids|
    requires Ranked(items, s.flags, table, ids, k)
    requires forall j | k <= j < |ids| :: ids[j] in s.table && s.table[ids[j]] == table[ids[j]]
    ensures var r := SaveRows(inventory, items, s, ids[k..]);
            && (forall j | k <= j < |ids| ::
                  var row := table[ids[j]];
                  Settled(inventory, items, row, RowsWith(table, ids, j, KeyOf(row.item)), r.table, ids[j]))
            && (forall j | 0 <= j < k :: SameAt(s.table, r.table, ids[j]))
    decreases |ids| - k
  {
    if k < |ids| {
      SavedRow(inventory, items, s, table, ids, k);
      var s' := SaveRow(inventory, items, s, ids[k]);
      forall j | 0 <= j < |ids| && j != k ensures SameAt(s.table, s'.table, ids[j]) {
        assert ids[j] != ids[k];
      }
      assert ids[k..][1..] == ids[k + 1..];
      SavedRows(inventory, items, s', table, ids, k + 1);
      assert SameAt(s'.table, SaveRows(inventory, items, s', ids[k + 1..]).table, ids[k]);
    }
  }

  lemma {:induction false} InsertedElsewhere(table: map<nat, Row>, owner: nat, nextId: nat, added: seq<Item>, id: nat)
    requires id < nextId
    ensures SameAt(table, InsertRows(table, owner, nextId, added), id)
    decreases |added|
  {
    if added != [] {
      InsertedElsewhere(table[nextId := Row(owner, added[0])], owner, nextId + 1, added[1..], id);
    }
  }

  /** A row survives a save, under its id and for its owner, exactly when there are more entries of its key than rows of
      its key before it in the result set; and then it holds the entry that stands at the same place among those of the
      key, in every column. */
  lemma {:induction false} RowsSurviveExactlyWhen(inventory: bool, items: seq<Item>, owner: nat, table: map<nat, Row>,
                                                  nextId: nat, ids: seq<nat>, k: nat)
    requires Distinct(ids) && (forall id | id in ids :: id in table) && (forall id | id in table :: id < nextId)
    requires k < |ids|
    ensures var r, row := Save(inventory, items, owner, table, nextId, ids), table[ids[k]];
            var rank := RowsWith(table, ids, k, KeyOf(row.item));
            && (ids[k] in r.table <==> rank < EntriesWith(items, |items|, KeyOf(row.item)))
            && (ids[k] in r.table ==>
                  r.table[ids[k]].owner == row.owner && exists i | 0 <= i < |items| ::
                    Matches(items[i], KeyOf(row.item)) && EntriesWith(items, i, KeyOf(row.item)) == rank
                    && Alike(inventory, r.table[ids[k]].item, items[i]))
  {
    var start := ItemSave.State(table, NoFlags(|items|), []);
    assert ids[0..] == ids;
    SavedRows(inventory, items, start, table, ids, 0);
    var s := SaveRows(inventory, items, start, ids);
    InsertedElsewhere(s.table, owner, nextId, Rest(inventory, items, s.flags, 0), ids[k]);
    var row := table[ids[k]];
    assert Settled(inventory, items, row, RowsWith(table, ids, k, KeyOf(row.item)), s.table, ids[k]);
  }
}
