/** A session's cache of which character stands in which slot, and the character table it mirrors. */
module SlotCache {
  import opened Text

  const MAX_CHARS: nat := 15

  datatype Row = Row(account: int, slot: nat, moves: nat)

  /** The character table, by character id. */
  type Rows = map<int, Row>

  /** `found` is the character id in each slot, or -1; `moves` the slot changes that each has left. */
  datatype State = State(rows: Rows, found: seq<int>, moves: seq<nat>)

  datatype Session = Session(account: int, slots: nat)

  datatype MoveConfig = MoveConfig(enabled: bool, unlimited: bool, toUsed: bool)

  /** What one session asks for. `order` is the order in which the database returns the rows of the account; `id` is
      the id it generates for a new row; `refused` stands for the checks on names, levels, guilds and so on. */
  datatype Event =
    | Load(order: seq<int>)
    | Create(slot: int, id: int, refused: bool)
    | Delete(id: int, refused: bool)
    | Move(from: nat, to: nat, config: MoveConfig, order: seq<int>)

  // ----- the operations -----

  predicate Mine(x: Session, rows: Rows, id: int) { id in rows && rows[id].account == x.account }

  function Empty(): seq<int> { seq(MAX_CHARS, _ => -1) }

  function LoadRows(rows: Rows, order: seq<int>, st: State): State
    requires |st.found| == |st.moves| == MAX_CHARS
    ensures LoadRows(rows, order, st).rows == st.rows
    ensures |LoadRows(rows, order, st).found| == |LoadRows(rows, order, st).moves| == MAX_CHARS
    decreases order
  {
    if order == [] then st
    else if order[0] in rows && rows[order[0]].slot < MAX_CHARS then
      var r := rows[order[0]];
      LoadRows(rows, order[1..], State(st.rows, st.found[r.slot := order[0]], st.moves[r.slot := r.moves]))
    else LoadRows(rows, order[1..], st)
  }

  /** `char_mmo_chars_fromsql`: at most `MAX_CHARS` rows are taken. */
  function Reload(st: State, order: seq<int>): State
    requires |st.moves| == MAX_CHARS
  {
    LoadRows(st.rows, if |order| > MAX_CHARS then order[..MAX_CHARS] else order, st.(found := Empty()))
  }

  function CountOf(x: Session, rows: Rows): nat { |set id | id in rows && rows[id].account == x.account| }

  predicate SlotTaken(x: Session, rows: Rows, slot: int) {
    exists id | id in rows :: rows[id].account == x.account && rows[id].slot == slot
  }

  /** `char_make_new_char` and the cache update after it; a new row has no slot changes left. */
  function MakeNew(x: Session, st: State, slot: int, id: int, refused: bool): State
    requires |st.found| == MAX_CHARS && x.slots <= MAX_CHARS
  {
    if refused || slot < 0 || slot >= x.slots || CountOf(x, st.rows) >= x.slots || SlotTaken(x, st.rows, slot) then st
    else st.(rows := st.rows[id := Row(x.account, slot, 0)], found := st.found[slot := id])
  }

  function IndexOf(found: seq<int>, id: int): (i: nat)
    ensures i <= |found| && (i < |found| ==> found[i] == id) && forall j | 0 <= j < i :: found[j] != id
  {
    if found == [] || found[0] == id then 0 else 1 + IndexOf(found[1..], id)
  }

  /** `char_delete` */
  function Remove(x: Session, st: State, id: int, refused: bool): State {
    var i := IndexOf(st.found, id);
    if i == |st.found| || !Mine(x, st.rows, id) || refused then st
    else st.(rows := st.rows - {id}, found := st.found[i := -1])
  }

  function SetSlot(rows: Rows, id: int, slot: nat): Rows {
    if id in rows then rows[id := rows[id].(slot := slot)] else rows
  }

  function SetMoves(rows: Rows, id: int, moves: nat): Rows {
    if id in rows then rows[id := rows[id].(moves := moves)] else rows
  }

  predicate MayMove(x: Session, st: State, from: nat, to: nat, config: MoveConfig)
    requires |st.found| == |st.moves| == MAX_CHARS && from < MAX_CHARS && x.slots <= MAX_CHARS
  {
    && config.enabled && (config.unlimited || st.moves[from] > 0)
    && st.found[from] > 0 && to < x.slots
    && (st.found[to] > 0 ==> config.toUsed)
  }

  /** The table after a move: the two slots exchanged, and one change fewer for the character moved. */
  function Moved(st: State, from: nat, to: nat, config: MoveConfig): Rows
    requires |st.found| == |st.moves| == MAX_CHARS && from < MAX_CHARS && to < MAX_CHARS
  {
    var first := SetSlot(st.rows, st.found[from], to);
    var both := if st.found[to] > 0 then SetSlot(first, st.found[to], from) else first;
    if config.unlimited || st.moves[from] == 0 then both else SetMoves(both, st.found[from], st.moves[from] - 1)
  }

  /** `chclif_parse_moveCharSlot`, which ends by sending, and so reloading, the list. */
  function MoveSlot(x: Session, st: State, from: nat, to: nat, config: MoveConfig, order: seq<int>): State
    requires |st.found| == |st.moves| == MAX_CHARS && from < MAX_CHARS && x.slots <= MAX_CHARS
  {
    if !MayMove(x, st, from, to, config) then st
    else
      var left := if config.unlimited then st.moves else st.moves[from := st.moves[from] - 1];
      Reload(State(Moved(st, from, to, config), st.found, left), order)
  }

  // ----- what must hold -----

  /** No two characters of the account share a slot; rows with a slot beyond the list are never loaded. */
  ghost predicate UniqueSlots(x: Session, rows: Rows) {
    forall a, b | Mine(x, rows, a) && Mine(x, rows, b) && a != b && rows[a].slot < MAX_CHARS ::
      rows[a].slot != rows[b].slot
  }

  /** `found[s] == id` exactly when the account's row `id` stands in slot `s`. */
  ghost predicate Agrees(x: Session, st: State) {
    && |st.found| == MAX_CHARS
    && (forall s | 0 <= s < MAX_CHARS && st.found[s] != -1 ::
          Mine(x, st.rows, st.found[s]) && st.rows[st.found[s]].slot == s)
    && (forall id | Mine(x, st.rows, id) && st.rows[id].slot < MAX_CHARS :: st.found[st.rows[id].slot] == id)
  }

  ghost predicate Sound(x: Session, st: State) {
    && x.slots <= MAX_CHARS && |st.moves| == MAX_CHARS
    && (forall id | id in st.rows :: id > 0)
    && UniqueSlots(x, st.rows)
  }

  ghost predicate Valid(x: Session, st: State) { Sound(x, st) && Agrees(x, st) }

  /** The rows of the account that a load asks for, each once. */
  ghost predicate Lists(x: Session, rows: Rows, order: seq<int>) {
    && (forall id :: id in order <==> Mine(x, rows, id) && rows[id].slot < MAX_CHARS)
    && (forall i, j | 0 <= i < j < |order| :: order[i] != order[j])
  }

  // ----- loading -----

  lemma {:induction false} DistinctBelow(s: seq<nat>, n: nat)
    requires forall i | 0 <= i < |s| :: s[i] < n
    requires forall i, j | 0 <= i < j < |s| :: s[i] != s[j]
    ensures |s| <= n
  {
    if s != [] {
      assert s[0] < n;
      if k :| 0 <= k < |s| && s[k] == n - 1 {
        DistinctBelow(s[..k] + s[k + 1..], n - 1);
      } else {
        DistinctBelow(s, n - 1);
      }
    }
  }

  /** With unique slots there are at most `MAX_CHARS` rows to load. */
  lemma {:induction false} AtMostMax(x: Session, rows: Rows, order: seq<int>)
    requires UniqueSlots(x, rows) && Lists(x, rows, order)
    ensures |order| <= MAX_CHARS
  {
    forall i | 0 <= i < |order| ensures Mine(x, rows, order[i]) && rows[order[i]].slot < MAX_CHARS {
      assert order[i] in order;
    }
    var slots := seq(|order|, i requires 0 <= i < |order| => rows[order[i]].slot);
    forall i, j | 0 <= i < j < |slots| ensures slots[i] != slots[j] {
      assert order[i] != order[j];
    }
    DistinctBelow(slots, MAX_CHARS);
  }

  /** Every cached entry is right, and the entries of the rows already loaded are there. */
  ghost predicate Partly(x: Session, rows: Rows, loaded: set<int>, st: State) {
    && |st.found| == |st.moves| == MAX_CHARS
    && (forall s | 0 <= s < MAX_CHARS && st.found[s] != -1 :: Mine(x, rows, st.found[s]) && rows[st.found[s]].slot == s)
    && (forall id | id in loaded && id in rows && rows[id].slot < MAX_CHARS ::
          st.found[rows[id].slot] == id && st.moves[rows[id].slot] == rows[id].moves)
  }

  lemma {:induction false} LoadedOne(x: Session, rows: Rows, loaded: set<int>, st: State, id: int)
    requires UniqueSlots(x, rows) && Mine(x, rows, id) && rows[id].slot < MAX_CHARS
    requires (forall l | l in loaded :: Mine(x, rows, l)) && Partly(x, rows, loaded, st)
    ensures Partly(x, rows, loaded + {id},
                   State(st.rows, st.found[rows[id].slot := id], st.moves[rows[id].slot := rows[id].moves]))
  {
  }

  lemma {:induction false} LoadedAll(x: Session, rows: Rows, loaded: set<int>, order: seq<int>, st: State)
    requires UniqueSlots(x, rows) && (forall l | l in loaded :: Mine(x, rows, l)) && Partly(x, rows, loaded, st)
    requires forall id | id in order :: Mine(x, rows, id) && rows[id].slot < MAX_CHARS
    ensures Partly(x, rows, loaded + (set id | id in order), LoadRows(rows, order, st))
    decreases order
  {
    if order == [] {
      assert loaded + (set id | id in order) == loaded;
    } else {
      var id := order[0];
      LoadedOne(x, rows, loaded, st, id);
      var r := rows[id];
      var next := State(st.rows, st.found[r.slot := id], st.moves[r.slot := r.moves]);
      LoadedAll(x, rows, loaded + {id}, order[1..], next);
      assert order == [id] + order[1..];
      assert loaded + {id} + (set i | i in order[1..]) == loaded + (set i | i in order);
    }
  }

  /** The cached number of slot changes left is the one in the table. */
  ghost predicate MovesAgree(st: State) {
    |st.found| == |st.moves| == MAX_CHARS &&
    forall s | 0 <= s < MAX_CHARS && st.found[s] in st.rows :: st.moves[s] == st.rows[st.found[s]].moves
  }

  /** Loading makes the cache right, whatever it was. */
  lemma {:induction false} ReloadIsRight(x: Session, st: State, order: seq<int>)
    requires Sound(x, st) && Lists(x, st.rows, order)
    ensures Valid(x, Reload(st, order)) && MovesAgree(Reload(st, order))
    ensures Reload(st, order).rows == st.rows
  {
    AtMostMax(x, st.rows, order);
    var start := st.(found := Empty());
    LoadedAll(x, st.rows, {}, order, start);
    var t := LoadRows(st.rows, order, start);
    forall id | Mine(x, st.rows, id) && st.rows[id].slot < MAX_CHARS ensures id in order {
    }
    assert {} + (set id | id in order) == (set id | id in order);
  }

  // ----- creating and deleting -----

  lemma {:induction false} MakeNewKeeps(x: Session, st: State, slot: int, id: int, refused: bool)
    requires Valid(x, st) && id > 0 && id !in st.rows
    ensures Valid(x, MakeNew(x, st, slot, id, refused))
  {
    var t := MakeNew(x, st, slot, id, refused);
    if t != st {
      assert t.rows[id] == Row(x.account, slot, 0);
      forall a | Mine(x, st.rows, a) ensures st.rows[a].slot != slot && t.rows[a] == st.rows[a] {
      }
    }
  }

  lemma {:induction false} RemoveKeeps(x: Session, st: State, id: int, refused: bool)
    requires Valid(x, st) && id > 0
    ensures Valid(x, Remove(x, st, id, refused))
    ensures var t := Remove(x, st, id, refused); t != st ==> t.rows == st.rows - {id}
  {
    var t := Remove(x, st, id, refused);
    var i := IndexOf(st.found, id);
    if t != st {
      assert st.found[i] == id && st.rows[id].slot == i;
    }
  }

  // ----- moving -----

  /** A character of the account stands where the move puts it, and the others where they were. */
  lemma {:induction false} MovedSlots(x: Session, st: State, from: nat, to: nat, config: MoveConfig)
    requires Valid(x, st) && from < MAX_CHARS && MayMove(x, st, from, to, config)
    ensures Moved(st, from, to, config).Keys == st.rows.Keys
    ensures var rows := Moved(st, from, to, config);
            forall id | id in st.rows ::
              && rows[id].account == st.rows[id].account
              && rows[id].slot == (if id == st.found[from] then to
                                   else if id == st.found[to] then from else st.rows[id].slot)
              && rows[id].moves == (if id == st.found[from] && !config.unlimited then st.moves[from] - 1
                                    else st.rows[id].moves)
  {
    assert Mine(x, st.rows, st.found[from]) && st.rows[st.found[from]].slot == from;
    if st.found[to] > 0 {
      assert Mine(x, st.rows, st.found[to]) && st.rows[st.found[to]].slot == to;
    }
  }

  lemma {:induction false} MovedIsSound(x: Session, st: State, from: nat, to: nat, config: MoveConfig)
    requires Valid(x, st) && from < MAX_CHARS && MayMove(x, st, from, to, config)
    ensures UniqueSlots(x, Moved(st, from, to, config))
  {
    var rows := Moved(st, from, to, config);
    MovedSlots(x, st, from, to, config);
    forall a, b | Mine(x, rows, a) && Mine(x, rows, b) && a != b && rows[a].slot < MAX_CHARS
      ensures rows[a].slot != rows[b].slot
    {
      assert Mine(x, st.rows, a) && Mine(x, st.rows, b);
      assert st.rows[a].slot != st.rows[b].slot;
      assert st.rows[a].slot == to ==> a == st.found[to];
      assert st.rows[b].slot == to ==> b == st.found[to];
      assert st.rows[a].slot == from ==> a == st.found[from];
      assert st.rows[b].slot == from ==> b == st.found[from];
    }
  }

  lemma {:induction false} MoveKeeps(x: Session, st: State, from: nat, to: nat, config: MoveConfig, order: seq<int>)
    requires Valid(x, st) && from < MAX_CHARS
    requires MayMove(x, st, from, to, config) ==> Lists(x, Moved(st, from, to, config), order)
    ensures Valid(x, MoveSlot(x, st, from, to, config, order))
    ensures MayMove(x, st, from, to, config) ==> MovesAgree(MoveSlot(x, st, from, to, config, order))
  {
    if MayMove(x, st, from, to, config) {
      var left := if config.unlimited then st.moves else st.moves[from := st.moves[from] - 1];
      var mid := State(Moved(st, from, to, config), st.found, left);
      MovedIsSound(x, st, from, to, config);
      MovedSlots(x, st, from, to, config);
      ReloadIsRight(x, mid, order);
    }
  }

  /** A move that is allowed exchanges the two slots in table and cache, takes one slot change from the character
      moved, and changes nothing else. */
  lemma {:induction false} MoveExchanges(x: Session, st: State, from: nat, to: nat, config: MoveConfig, order: seq<int>)
    requires Valid(x, st) && from < MAX_CHARS && MayMove(x, st, from, to, config)
    requires Lists(x, Moved(st, from, to, config), order)
    ensures var t := MoveSlot(x, st, from, to, config, order);
            && t.rows.Keys == st.rows.Keys
            && |t.found| == MAX_CHARS
            && t.found[to] == st.found[from] && t.found[from] == st.found[to]
            && (forall s | 0 <= s < MAX_CHARS && s != from && s != to :: t.found[s] == st.found[s])
            && (forall id | id in st.rows && id != st.found[from] && id != st.found[to] :: t.rows[id] == st.rows[id])
  {
    MoveKeeps(x, st, from, to, config, order);
    MovedSlots(x, st, from, to, config);
    var t := MoveSlot(x, st, from, to, config, order);
    assert t.rows == Moved(st, from, to, config);
    forall s | 0 <= s < MAX_CHARS
      ensures t.found[s] == if s == to then st.found[from] else if s == from then st.found[to] else st.found[s]
    {
      var id := if s == to then st.found[from] else if s == from then st.found[to] else st.found[s];
      if id != -1 {
        assert Mine(x, st.rows, id) && Mine(x, t.rows, id) && t.rows[id].slot == s;
      } else {
        assert forall other | Mine(x, st.rows, other) :: t.rows[other].slot != s;
      }
    }
  }

  // ----- when each request is granted, on the table alone -----

  /** A character changes its slot exactly when the server allows it, the table gives it a change to spend, the slot is
      one of the account's, and nobody stands there or exchanges are allowed. The rows afterwards: it stands in the new
      slot with one change fewer, whoever stood there has its old slot, and every other row is untouched. */
  lemma {:induction false} MovesExactlyWhen(x: Session, st: State, id: int, to: nat, config: MoveConfig,
                                            order: seq<int>)
    requires Valid(x, st) && MovesAgree(st) && Mine(x, st.rows, id) && st.rows[id].slot < MAX_CHARS
    ensures var was := st.rows[id];
            var t := MoveSlot(x, st, was.slot, to, config, order);
            if && config.enabled && (config.unlimited || was.moves > 0) && to < x.slots
               && (config.toUsed || forall other | other in st.rows && st.rows[other].account == x.account ::
                                      st.rows[other].slot != to)
            then
              && t.rows.Keys == st.rows.Keys
              && t.rows[id] == Row(was.account, to, if config.unlimited then was.moves else was.moves - 1)
              && forall other | other in st.rows && other != id ::
                   t.rows[other] == if st.rows[other].account == x.account && st.rows[other].slot == to
                                    then Row(x.account, was.slot, st.rows[other].moves) else st.rows[other]
            else t == st
  {
    var from := st.rows[id].slot;
    assert st.found[from] == id && st.moves[from] == st.rows[id].moves;
    if to < x.slots {
      assert st.found[to] > 0 <==> exists other :: Mine(x, st.rows, other) && st.rows[other].slot == to by {
        if st.found[to] > 0 {
          assert Mine(x, st.rows, st.found[to]);
        }
      }
    }
    if MayMove(x, st, from, to, config) {
      MovedSlots(x, st, from, to, config);
      var rows := Moved(st, from, to, config);
      forall other | other in st.rows && other != id
        ensures rows[other] == if st.rows[other].account == x.account && st.rows[other].slot == to
                               then Row(x.account, from, st.rows[other].moves) else st.rows[other]
      {
        assert other == st.found[to] ==> Mine(x, st.rows, other);
        assert Mine(x, st.rows, other) && st.rows[other].slot == to ==> other == st.found[to];
      }
    }
  }

  /** A move out of a slot in which nobody stands does nothing. */
  lemma {:induction false} EmptySlotDoesNotMove(x: Session, st: State, from: nat, to: nat, config: MoveConfig,
                                                order: seq<int>)
    requires Valid(x, st) && from < MAX_CHARS
    requires forall id | id in st.rows && st.rows[id].account == x.account :: st.rows[id].slot != from
    ensures MoveSlot(x, st, from, to, config, order) == st
  {
    var who := st.found[from];
    assert who == -1 || Mine(x, st.rows, who);
  }

  lemma {:induction false} SlotsOf(ids: set<int>, rows: Rows, taken: set<nat>)
    requires forall id | id in ids :: id in rows && rows[id].slot in taken
    requires forall a, b | a in ids && b in ids && a != b :: rows[a].slot != rows[b].slot
    ensures |ids| <= |taken|
  {
    if id :| id in ids {
      var fewer := ids - {id};
      assert |ids| == |fewer| + 1;
      SlotsOf(fewer, rows, taken - {rows[id].slot});
    } else {
      assert ids == {};
    }
  }

  function FirstSlots(n: nat): (r: set<nat>)
    ensures |r| == n && forall i :: i in r <==> 0 <= i < n
  {
    if n == 0 then {} else FirstSlots(n - 1) + {n - 1}
  }

  /** While all the account's characters stand in slots of the account, a free slot is room enough. */
  lemma {:induction false} FreeSlotIsRoom(x: Session, rows: Rows, slot: nat)
    requires x.slots <= MAX_CHARS && slot < x.slots && UniqueSlots(x, rows)
    requires forall id | id in rows && rows[id].account == x.account :: rows[id].slot < x.slots && rows[id].slot != slot
    ensures CountOf(x, rows) < x.slots
  {
    var ids := set id | id in rows && rows[id].account == x.account;
    assert forall a, b | a in ids && b in ids && a != b :: Mine(x, rows, a) && Mine(x, rows, b);
    SlotsOf(ids, rows, FirstSlots(x.slots) - {slot});
  }

  /** A character is created exactly when no check refuses it, its slot is one of the account's and free, and the
      account has fewer characters than slots; the last is no condition while none stands beyond those slots. */
  lemma {:induction false} CreatesExactlyWhen(x: Session, st: State, slot: int, id: int, refused: bool)
    requires Valid(x, st) && id > 0 && id !in st.rows
    ensures var t := MakeNew(x, st, slot, id, refused);
            if && !refused && 0 <= slot < x.slots
               && (forall other | other in st.rows && st.rows[other].account == x.account ::
                     st.rows[other].slot != slot)
               && (|| (forall other | other in st.rows && st.rows[other].account == x.account ::
                         st.rows[other].slot < x.slots)
                   || |set other | other in st.rows && st.rows[other].account == x.account| < x.slots)
            then t.rows == st.rows[id := Row(x.account, slot, 0)] && |t.found| == MAX_CHARS && t.found[slot] == id
            else t == st
  {
    var ids := set other | other in st.rows && st.rows[other].account == x.account;
    if && 0 <= slot < x.slots
       && forall other | other in st.rows && st.rows[other].account == x.account ::
            st.rows[other].slot < x.slots && st.rows[other].slot != slot
    {
      FreeSlotIsRoom(x, st.rows, slot);
    }
    assert CountOf(x, st.rows) == |ids|;
  }

  /** A character is deleted exactly when no check refuses it and it is one of the account's, on a slot that is shown;
      its slot is empty then, and the other slots are as they were. */
  lemma {:induction false} DeletesExactlyWhen(x: Session, st: State, id: int, refused: bool)
    requires Valid(x, st) && id > 0
    ensures var t := Remove(x, st, id, refused);
            if !refused && id in st.rows && st.rows[id].account == x.account && st.rows[id].slot < MAX_CHARS
            then t.rows == st.rows - {id} && t.found == st.found[st.rows[id].slot := -1] && t.moves == st.moves
            else t == st
  {
    var i := IndexOf(st.found, id);
    if i < MAX_CHARS {
      assert st.found[i] == id && Mine(x, st.rows, id) && st.rows[id].slot == i;
    }
  }

  // ----- whole runs -----

  /** What the database may answer. */
  ghost predicate Possible(x: Session, st: State, e: Event)
    requires Valid(x, st)
  {
    match e
    case Load(order) => Lists(x, st.rows, order)
    case Create(_, id, _) => id > 0 && id !in st.rows
    case Delete(id, _) => id > 0
    case Move(from, to, config, order) =>
      from < MAX_CHARS && (MayMove(x, st, from, to, config) ==> Lists(x, Moved(st, from, to, config), order))
  }

  ghost function Step(x: Session, st: State, e: Event): (t: State)
    requires Valid(x, st) && Possible(x, st, e)
    ensures Valid(x, t)
  {
    match e
    case Load(order) => ReloadIsRight(x, st, order); Reload(st, order)
    case Create(slot, id, refused) => MakeNewKeeps(x, st, slot, id, refused); MakeNew(x, st, slot, id, refused)
    case Delete(id, refused) => RemoveKeeps(x, st, id, refused); Remove(x, st, id, refused)
    case Move(from, to, config, order) =>
      MoveKeeps(x, st, from, to, config, order);
      MoveSlot(x, st, from, to, config, order)
  }

  /** A run of a session, each event possible in the state it meets. */
  ghost predicate Run(x: Session, st: State, events: seq<Event>, last: State)
    decreases events
  {
    if events == [] then last == st
    else Valid(x, st) && Possible(x, st, events[0]) && Run(x, Step(x, st, events[0]), events[1..], last)
  }

  lemma {:induction false} RunFromValid(x: Session, st: State, events: seq<Event>, last: State)
    requires Valid(x, st) && Run(x, st, events, last)
    ensures Valid(x, last)
    decreases events
  {
    if events != [] {
      RunFromValid(x, Step(x, st, events[0]), events[1..], last);
    }
  }

  /** Over every run after the first load, whatever the cache held before: the cache agrees with the table, and no two
      characters of the account share a slot. */
  lemma {:induction false} CacheAgreesInEveryRun(x: Session, st: State, order: seq<int>, events: seq<Event>,
                                                 last: State)
    requires Sound(x, st) && Lists(x, st.rows, order) && Run(x, Reload(st, order), events, last)
    ensures Agrees(x, last) && UniqueSlots(x, last.rows)
  {
    ReloadIsRight(x, st, order);
    RunFromValid(x, Reload(st, order), events, last);
  }

  // ----- the cached slot changes -----

  /** Creating a character leaves the slot changes of the character that stood there before in the cache: they agree
      with the table afterwards exactly when there were none left. */
  lemma {:induction false} NewCharacterInheritsMoves(x: Session, st: State, slot: int, id: int)
    requires Valid(x, st) && MovesAgree(st) && id > 0 && id !in st.rows
    requires MakeNew(x, st, slot, id, false) != st
    ensures MovesAgree(MakeNew(x, st, slot, id, false)) <==> st.moves[slot] == 0
  {
    var t := MakeNew(x, st, slot, id, false);
    assert t.found[slot] == id && t.rows[id].moves == 0;
    forall s | 0 <= s < MAX_CHARS && s != slot && t.found[s] in t.rows
      ensures t.moves[s] == t.rows[t.found[s]].moves
    {
      if st.found[s] != -1 {
        assert Mine(x, st.rows, st.found[s]);
      }
    }
  }

  // ----- the session as it runs -----

  class SessionData {
    const account: int
    const charSlots: nat
    const foundChar: array<int>
    const charMoves: array<nat>
    var rows: Rows

    ghost predicate Shaped()
      reads this
    {
      foundChar.Length == charMoves.Length == MAX_CHARS && charSlots <= MAX_CHARS
    }

    ghost function Who(): Session { Session(account, charSlots) }

    ghost function Now(): State
      reads this, foundChar, charMoves
    {
      State(rows, foundChar[..], charMoves[..])
    }

    constructor (account: int, charSlots: nat, rows: Rows)
      requires charSlots <= MAX_CHARS
      ensures Shaped() && this.account == account && this.charSlots == charSlots && this.rows == rows
      ensures fresh(foundChar) && fresh(charMoves)
    {
      this.account := account;
      this.charSlots := charSlots;
      this.rows := rows;
      var found := new int[MAX_CHARS](_ => 0);
      var moves := new nat[MAX_CHARS](_ => 0);
      foundChar := found;
      charMoves := moves;
    }

    /** `char_mmo_chars_fromsql` */
    method LoadChars(order: seq<int>)
      requires Shaped()
      modifies foundChar, charMoves
      ensures Now() == Reload(old(Now()), order)
    {
      var i := 0;
      while i < MAX_CHARS
        modifies foundChar
        invariant 0 <= i <= MAX_CHARS
        invariant forall k | 0 <= k < i :: foundChar[k] == -1
      {
        foundChar[i] := -1;
        i := i + 1;
      }
      assert foundChar[..] == Empty();
      ghost var taken := if |order| > MAX_CHARS then order[..MAX_CHARS] else order;
      ghost var start := Now();
      i := 0;
      assert taken[0..] == taken;
      while i < MAX_CHARS && i < |order|
        invariant 0 <= i <= |taken|
        invariant LoadRows(rows, taken, start) == LoadRows(rows, taken[i..], Now())
      {
        assert taken[i..][0] == order[i] && taken[i..][1..] == taken[i + 1..];
        if order[i] in rows && rows[order[i]].slot < MAX_CHARS {
          var r := rows[order[i]];
          ghost var found, moves := foundChar[..], charMoves[..];
          foundChar[r.slot] := order[i];
          charMoves[r.slot] := r.moves;
          assert foundChar[..] == found[r.slot := order[i]] && charMoves[..] == moves[r.slot := r.moves];
        }
        i := i + 1;
      }
      assert i == |taken| && taken[i..] == [];
      assert start == old(Now()).(found := Empty());
    }

    /** `char_make_new_char`, and the cache update of its caller. */
    method MakeNewChar(slot: int, id: int, refused: bool)
      requires Shaped()
      modifies this`rows, foundChar
      ensures Now() == MakeNew(Who(), old(Now()), slot, id, refused)
    {
      if refused || slot < 0 || slot >= charSlots {
        return;
      }
      var mine := set i | i in rows && rows[i].account == account;
      if |mine| >= charSlots {
        return;
      }
      if exists i | i in rows :: rows[i].account == account && rows[i].slot == slot {
        return;
      }
      ghost var found := foundChar[..];
      rows := rows[id := Row(account, slot, 0)];
      foundChar[slot] := id;
      assert foundChar[..] == found[slot := id];
    }

    /** `char_delete` */
    method DeleteChar(id: int, refused: bool)
      requires Shaped()
      modifies this`rows, foundChar
      ensures Now() == Remove(Who(), old(Now()), id, refused)
    {
      var i := 0;
      ghost var found := foundChar[..];
      while i < MAX_CHARS && foundChar[i] != id
        invariant 0 <= i <= MAX_CHARS
        invariant forall k | 0 <= k < i :: foundChar[k] != id
      {
        i := i + 1;
      }
      assert i == IndexOf(found, id) by {
        var j := IndexOf(found, id);
        assert j < MAX_CHARS ==> found[j] == foundChar[j];
        assert i < MAX_CHARS ==> found[i] == foundChar[i];
      }
      if i == MAX_CHARS || id !in rows || rows[id].account != account || refused {
        return;
      }
      rows := rows - {id};
      foundChar[i] := -1;
      assert foundChar[..] == found[i := -1];
    }

    /** `chclif_parse_moveCharSlot` */
    method MoveCharSlot(from: nat, to: nat, config: MoveConfig, order: seq<int>)
      requires Shaped() && from < MAX_CHARS
      modifies this`rows, foundChar, charMoves
      ensures Now() == MoveSlot(Who(), old(Now()), from, to, config, order)
    {
      if !config.enabled || (!config.unlimited && charMoves[from] <= 0) {
        return;
      }
      if foundChar[from] <= 0 || to >= charSlots {
        return;
      }
      if foundChar[to] > 0 {
        if !config.toUsed {
          return;
        }
        rows := SetSlot(rows, foundChar[from], to);
        rows := SetSlot(rows, foundChar[to], from);
      } else {
        rows := SetSlot(rows, foundChar[from], to);
      }
      ghost var moves := charMoves[..];
      if !config.unlimited {
        charMoves[from] := charMoves[from] - 1;
        rows := SetMoves(rows, foundChar[from], charMoves[from]);
        assert charMoves[..] == moves[from := moves[from] - 1];
      }
      LoadChars(order);
    }
  }
}
