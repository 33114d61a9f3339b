/** Saving a character's achievement log: the loaded entries are compacted in place as they are matched. */
module Achievement {
  import opened Text

  const OBJECTIVES: nat := 10

  type Counts = c: seq<int> | |c| == OBJECTIVES witness [0, 0, 0, 0, 0, 0, 0, 0, 0, 0]

  /** Dates are 0 when unset; the table then holds NULL, which is read as 0. */
  datatype Progress = Progress(count: Counts, completed: int, rewarded: int)

  datatype Entry = Entry(id: int, progress: Progress)

  const NOTHING: Progress := Progress([0, 0, 0, 0, 0, 0, 0, 0, 0, 0], 0, 0)

  /** Rows by character and achievement, the primary key. */
  type Rows = map<(int, int), Progress>

  function At(rows: Rows, key: (int, int)): Option<Progress> { if key in rows then Some(rows[key]) else None }

  // ----- logs -----

  predicate DistinctIds(log: seq<Entry>) { forall i, j | 0 <= i < j < |log| :: log[i].id != log[j].id }

  function Ids(log: seq<Entry>): set<int> { set i | 0 <= i < |log| :: log[i].id }

  /** What a log says of an achievement. */
  function Lookup(log: seq<Entry>, id: int): Option<Progress> {
    if log == [] then None
    else if log[|log| - 1].id == id then Some(log[|log| - 1].progress)
    else Lookup(log[..|log| - 1], id)
  }

  lemma {:induction false} LookupIs(log: seq<Entry>, id: int)
    ensures Lookup(log, id).None? <==> id !in Ids(log)
    ensures forall i | 0 <= i < |log| && DistinctIds(log) && log[i].id == id :: Lookup(log, id) == Some(log[i].progress)
  {
    if log != [] {
      var n := |log| - 1;
      LookupIs(log[..n], id);
      assert forall i | 0 <= i < n :: log[..n][i] == log[i];
      if log[n].id == id {
        assert id in Ids(log);
      } else {
        assert id in Ids(log) ==> id in Ids(log[..n]);
        assert id in Ids(log[..n]) ==> id in Ids(log);
      }
    }
  }

  /** The rows of a character, in the order in which the database lists them. */
  ghost predicate Lists(rows: Rows, charId: int, log: seq<Entry>) {
    DistinctIds(log) && forall id :: At(rows, (charId, id)) == Lookup(log, id)
  }

  // ----- the entries not yet matched -----

  function Without(log: seq<Entry>, id: int): (r: seq<Entry>)
    ensures |r| <= |log|
  {
    if log == [] then []
    else if log[0].id == id then Without(log[1..], id)
    else [log[0]] + Without(log[1..], id)
  }

  lemma {:induction false} WithoutKeeps(log: seq<Entry>, id: int)
    ensures forall e | e in Without(log, id) :: e in log
  {
    if log != [] {
      WithoutKeeps(log[1..], id);
      assert log == [log[0]] + log[1..];
    }
  }

  lemma {:induction false} NotInWithout(log: seq<Entry>, id: int, x: int)
    requires forall i | 0 <= i < |log| :: log[i].id != x
    ensures var r := Without(log, id); forall i | 0 <= i < |r| :: r[i].id != x
  {
    WithoutKeeps(log, id);
    var r := Without(log, id);
    forall i | 0 <= i < |r| ensures r[i].id != x {
      assert r[i] in log;
    }
  }

  lemma {:induction false} WithoutIs(log: seq<Entry>, id: int)
    requires DistinctIds(log)
    ensures var r := Without(log, id);
            DistinctIds(r) && forall x :: Lookup(r, x) == if x == id then None else Lookup(log, x)
  {
    if log != [] {
      var first, rest := log[0], log[1..];
      var r := Without(rest, id);
      assert log == [first] + rest;
      WithoutIs(rest, id);
      NotInWithout(rest, id, first.id);
      forall x ensures Lookup(Without(log, id), x) == if x == id then None else Lookup(log, x) {
        LookupCons(first, rest, x);
        if first.id == id {
          NotInRest(first, rest);
        } else {
          assert Without(log, id) == [first] + r;
          LookupCons(first, r, x);
        }
      }
    }
  }

  lemma {:induction false} NotInRest(first: Entry, rest: seq<Entry>)
    requires DistinctIds([first] + rest)
    ensures Lookup(rest, first.id) == None
  {
    var log := [first] + rest;
    forall i | 0 <= i < |rest| ensures rest[i].id != first.id {
      assert log[0] == first && log[i + 1] == rest[i];
    }
    NotFound(rest, first.id);
  }

  lemma {:induction false} NotFound(log: seq<Entry>, id: int)
    requires forall k | 0 <= k < |log| :: log[k].id != id
    ensures Lookup(log, id) == None
  {
    LookupIs(log, id);
  }

  lemma {:induction false} LookupCons(first: Entry, rest: seq<Entry>, x: int)
    requires DistinctIds([first] + rest)
    ensures Lookup([first] + rest, x) == if x == first.id then Some(first.progress) else Lookup(rest, x)
  {
    var log := [first] + rest;
    assert log[0].id == first.id;
    assert forall i | 0 <= i < |rest| :: log[i + 1] == rest[i];
    LookupIs(log, x);
    LookupIs(rest, x);
    if i :| 0 <= i < |rest| && rest[i].id == x {
      assert log[i + 1].id == x;
      assert DistinctIds(rest);
    } else {
      assert x !in Ids(rest);
      if x != first.id {
        assert x !in Ids(log);
      }
    }
  }

  /** Removing one entry by moving the later ones down. */
  lemma {:induction false} WithoutAt(log: seq<Entry>, j: nat)
    requires DistinctIds(log) && j < |log|
    ensures Without(log, log[j].id) == log[..j] + log[j + 1..]
  {
    if j == 0 {
      WithoutAbsent(log[1..], log[0].id);
      assert log[..0] + log[1..] == log[1..];
    } else {
      WithoutAt(log[1..], j - 1);
      assert log[..j] + log[j + 1..] == [log[0]] + (log[1..][..j - 1] + log[1..][j..]);
    }
  }

  lemma {:induction false} WithoutAbsent(log: seq<Entry>, id: int)
    requires forall i | 0 <= i < |log| :: log[i].id != id
    ensures Without(log, id) == log
  {
    if log != [] {
      WithoutAbsent(log[1..], id);
    }
  }

  // ----- one save -----

  predicate AllZero(c: Counts) { forall k | 0 <= k < OBJECTIVES :: c[k] == 0 }

  /** A new entry without any progress is not stored. */
  predicate Blank(p: Progress) { AllZero(p.count) && p.completed == 0 && p.rewarded == 0 }

  /** Whether no statement has failed so far, the table, and the old entries not yet matched. */
  datatype Saving = Saving(ok: bool, rows: Rows, left: seq<Entry>)

  /** One new entry updates the old entry that it matches, which is then taken out of the old ones, or it is added;
      adding fails when the key is already in the table. */
  function SaveEntry(charId: int, s: Saving, e: Entry): Saving {
    var key := (charId, e.id);
    match Lookup(s.left, e.id)
    case Some(p) =>
      s.(rows := if e.progress != p && key in s.rows then s.rows[key := e.progress] else s.rows,
         left := Without(s.left, e.id))
    case None =>
      if e.id == 0 || Blank(e.progress) then s
      else if key in s.rows then s.(ok := false)
      else s.(rows := s.rows[key := e.progress])
  }

  /** The new entries in turn, until a statement fails. */
  function SaveEntries(charId: int, s: Saving, log: seq<Entry>): Saving
    decreases log
  {
    if log == [] || !s.ok then s else SaveEntries(charId, SaveEntry(charId, s, log[0]), log[1..])
  }

  function Erase(charId: int, rows: Rows, left: seq<Entry>): Rows
    decreases left
  {
    if left == [] then rows else Erase(charId, rows - {(charId, left[0].id)}, left[1..])
  }

  /** The outcome of a save: what is reported, and the table. The old entries still unmatched are erased even after a
      failure, and erasing overwrites the result. */
  function SaveLog(charId: int, rows: Rows, loaded: seq<Entry>, log: seq<Entry>): (bool, Rows) {
    var s := SaveEntries(charId, Saving(true, rows, loaded), log);
    (s.ok || s.left != [], Erase(charId, s.rows, s.left))
  }

  // ----- the table and the save, as they run -----

  class AchievementTable {
    var rows: Rows

    constructor (rows: Rows)
      ensures this.rows == rows
    {
      this.rows := rows;
    }

    /** `mapif_achievement_update` */
    method Update(charId: int, e: Entry)
      modifies this
      ensures rows == if (charId, e.id) in old(rows) then old(rows)[(charId, e.id) := e.progress] else old(rows)
    {
      if (charId, e.id) in rows {
        rows := rows[(charId, e.id) := e.progress];
      }
    }

    /** `mapif_achievement_add`: inserting an existing key is an error. */
    method Add(charId: int, e: Entry) returns (ok: bool)
      modifies this
      ensures var p := e.progress;
              var empty := (forall k | 0 <= k < OBJECTIVES :: p.count[k] == 0) && p.completed == 0 && p.rewarded == 0;
              && (ok <==> empty || (charId, e.id) !in old(rows))
              && rows == if ok && !empty then old(rows)[(charId, e.id) := p] else old(rows)
    {
      var i := 0;
      while i < OBJECTIVES && e.progress.count[i] == 0
        invariant 0 <= i <= OBJECTIVES
        invariant forall k | 0 <= k < i :: e.progress.count[k] == 0
      {
        i := i + 1;
      }
      if i == OBJECTIVES && e.progress.completed == 0 && e.progress.rewarded == 0 {
        return true;
      }
      assert !Blank(e.progress) by {
        assert i < OBJECTIVES ==> e.progress.count[i] != 0;
      }
      ok := (charId, e.id) !in rows;
      if ok {
        rows := rows[(charId, e.id) := e.progress];
      }
    }

    /** `mapif_achievement_delete` */
    method Delete(charId: int, id: int)
      modifies this
      ensures rows == old(rows) - {(charId, id)}
    {
      rows := rows - {(charId, id)};
    }

    /** The position of an achievement among the first `n` entries, or `n`. */
    method FindIndex(entries: array<Entry>, n: nat, id: int) returns (j: nat)
      requires n <= entries.Length
      ensures j <= n && (j < n ==> entries[j].id == id)
      ensures forall k | 0 <= k < j :: entries[k].id != id
    {
      j := 0;
      while j < n && entries[j].id != id
        invariant 0 <= j <= n
        invariant forall k | 0 <= k < j :: entries[k].id != id
      {
        j := j + 1;
      }
    }

    /** `memmove` over entry `j`, and clearing the last one. */
    method Compact(entries: array<Entry>, j: nat, n: nat)
      requires j < n <= entries.Length
      modifies entries
      ensures entries[..n - 1] == old(entries[..n])[..j] + old(entries[..n])[j + 1..]
    {
      ghost var was := entries[..n];
      var i := j;
      while i < n - 1
        modifies entries
        invariant j <= i <= n - 1
        invariant forall k | 0 <= k < j :: entries[k] == was[k]
        invariant forall k | j <= k < i :: entries[k] == was[k + 1]
        invariant forall k | i < k < n :: entries[k] == was[k]
      {
        entries[i] := entries[i + 1];
        i := i + 1;
      }
      entries[n - 1] := Entry(0, NOTHING);
      assert entries[..n - 1] == was[..j] + was[j + 1..];
    }

    /** One new entry; the first `n` old entries are those not yet matched. */
    method SaveOne(charId: int, e: Entry, entries: array<Entry>, n: nat) returns (ok: bool, left: nat)
      requires n <= entries.Length && DistinctIds(entries[..n])
      modifies this, entries
      ensures left <= entries.Length
      ensures Saving(ok, rows, entries[..left]) == SaveEntry(charId, Saving(true, old(rows), old(entries[..n])), e)
      ensures DistinctIds(entries[..left])
    {
      ghost var was := entries[..n];
      ok, left := true, n;
      LookupIs(was, e.id);
      WithoutIs(was, e.id);
      var j := FindIndex(entries, n, e.id);
      if j < n {
        assert was[j] == entries[j];
        if e.progress != entries[j].progress {
          Update(charId, e);
        }
        left := n - 1;
        if j < left {
          Compact(entries, j, n);
        } else {
          assert entries[..left] == was[..j] + was[j + 1..];
        }
        WithoutAt(was, j);
      } else {
        NotFound(was, e.id);
        if e.id != 0 {
          ok := Add(charId, e);
        }
      }
    }

    /** `mapif_parse_achievement_save`, once the old entries are loaded into an array. */
    method Save(charId: int, log: seq<Entry>, entries: array<Entry>) returns (success: bool)
      requires DistinctIds(entries[..])
      modifies this, entries
      ensures (success, rows) == SaveLog(charId, old(rows), old(entries[..]), log)
    {
      var oldN: nat := entries.Length;
      success := true;
      var i := 0;
      ghost var start := Saving(true, rows, entries[..]);
      assert entries[..oldN] == entries[..] && log[0..] == log;
      while i < |log| && success
        invariant 0 <= i <= |log| && oldN <= entries.Length && DistinctIds(entries[..oldN])
        invariant SaveEntries(charId, start, log) ==
                  SaveEntries(charId, Saving(success, rows, entries[..oldN]), log[i..])
      {
        assert log[i..][0] == log[i] && log[i..][1..] == log[i + 1..];
        success, oldN := SaveOne(charId, log[i], entries, oldN);
        i := i + 1;
      }
      ghost var s := Saving(success, rows, entries[..oldN]);
      assert SaveEntries(charId, start, log) == s;
      i := 0;
      while i < oldN
        modifies this
        invariant 0 <= i <= oldN && entries[..oldN] == s.left
        invariant Erase(charId, s.rows, s.left) == Erase(charId, rows, s.left[i..])
        invariant success == (s.ok || i > 0)
      {
        assert s.left[i..][0] == entries[i] && s.left[i..][1..] == s.left[i + 1..];
        Delete(charId, entries[i].id);
        success := true;
        i := i + 1;
      }
    }
  }

  // ----- what a save does, for every log -----

  /** Some count, the completion or the reward is set. */
  predicate HasProgress(p: Progress) {
    (exists k | 0 <= k < OBJECTIVES :: p.count[k] != 0) || p.completed != 0 || p.rewarded != 0
  }

  predicate Stored(before: Option<Progress>, id: int, p: Progress) { before.Some? || (id != 0 && HasProgress(p)) }

  /** The first entry of a log that is written for an achievement: the first one when there is an old row, and otherwise
      the first one with progress. */
  function FirstStored(before: Option<Progress>, id: int, log: seq<Entry>): Option<Progress> {
    if log == [] then None
    else
      var n := |log| - 1;
      var r := FirstStored(before, id, log[..n]);
      if r.Some? then r
      else if log[n].id == id && Stored(before, id, log[n].progress) then Some(log[n].progress)
      else None
  }

  lemma {:induction false} FirstStoredIs(before: Option<Progress>, id: int, log: seq<Entry>)
    ensures var r := FirstStored(before, id, log);
            && (r.Some? <==> exists j | 0 <= j < |log| :: log[j].id == id && Stored(before, id, log[j].progress))
            && (r.Some? ==> Lookup(log, id).Some?)
            && (before.Some? && Lookup(log, id).Some? ==> r.Some?)
  {
    if log != [] {
      var n := |log| - 1;
      FirstStoredIs(before, id, log[..n]);
      assert forall j | 0 <= j < n :: log[..n][j] == log[j];
      if j :| 0 <= j < |log| && log[j].id == id && Stored(before, id, log[j].progress) {
        assert j < n ==> log[..n][j].id == id && Stored(before, id, log[..n][j].progress);
      }
    }
  }

  /** `e` is to be inserted, and its achievement is in the table: as an old row that an earlier entry updated, or
      because an earlier entry was inserted. */
  predicate Collides(loaded: seq<Entry>, done: seq<Entry>, e: Entry) {
    && e.id != 0 && HasProgress(e.progress)
    && exists j | 0 <= j < |done| ::
         done[j].id == e.id && (Lookup(loaded, e.id).Some? || HasProgress(done[j].progress))
  }

  predicate NoCollision(loaded: seq<Entry>, log: seq<Entry>) {
    forall k | 0 <= k < |log| :: !Collides(loaded, log[..k], log[k])
  }

  /** With the entries of `done` saved: the old entries not in it are unmatched and their rows are as they were; the
      others hold the first entry written for them. */
  ghost predicate Halfway(rows: Rows, charId: int, loaded: seq<Entry>, done: seq<Entry>, s: Saving) {
    && s.ok && DistinctIds(s.left)
    && (forall id :: Lookup(s.left, id) == if Lookup(done, id).Some? then None else Lookup(loaded, id))
    && (forall key :: At(s.rows, key) ==
                      if key.0 == charId && Lookup(done, key.1).Some? then FirstStored(At(rows, key), key.1, done)
                      else At(rows, key))
  }

  lemma {:induction false} CollisionIs(rows: Rows, charId: int, loaded: seq<Entry>, done: seq<Entry>, s: Saving,
                                       e: Entry)
    requires Lists(rows, charId, loaded) && Halfway(rows, charId, loaded, done, s)
    ensures SaveEntry(charId, s, e) == s.(ok := false) <==> Collides(loaded, done, e)
    ensures SaveEntry(charId, s, e).ok <==> !Collides(loaded, done, e)
  {
    var key := (charId, e.id);
    FirstStoredIs(At(rows, key), e.id, done);
    LookupIs(done, e.id);
    assert At(rows, key) == Lookup(loaded, e.id);
    assert At(s.rows, key) == if Lookup(done, e.id).Some? then FirstStored(At(rows, key), e.id, done)
                              else At(rows, key);
  }

  lemma {:induction false} OneMoreRow(rows: Rows, charId: int, loaded: seq<Entry>, done: seq<Entry>, s: Saving,
                                      e: Entry, key: (int, int))
    requires Lists(rows, charId, loaded) && Halfway(rows, charId, loaded, done, s) && SaveEntry(charId, s, e).ok
    ensures At(SaveEntry(charId, s, e).rows, key) ==
            if key.0 == charId && Lookup(done + [e], key.1).Some? then FirstStored(At(rows, key), key.1, done + [e])
            else At(rows, key)
  {
    assert (done + [e])[..|done|] == done;
    FirstStoredIs(At(rows, key), key.1, done);
    assert key.0 == charId ==> At(rows, key) == Lookup(loaded, key.1);
    assert At(s.rows, key) ==
           if key.0 == charId && Lookup(done, key.1).Some? then FirstStored(At(rows, key), key.1, done)
           else At(rows, key);
    assert Lookup(s.left, e.id) == if Lookup(done, e.id).Some? then None else Lookup(loaded, e.id);
  }

  lemma {:induction false} OneMoreSaved(rows: Rows, charId: int, loaded: seq<Entry>, done: seq<Entry>, s: Saving,
                                        e: Entry)
    requires Lists(rows, charId, loaded) && Halfway(rows, charId, loaded, done, s) && SaveEntry(charId, s, e).ok
    ensures Halfway(rows, charId, loaded, done + [e], SaveEntry(charId, s, e))
  {
    assert (done + [e])[..|done|] == done;
    WithoutIs(s.left, e.id);
    forall key
      ensures At(SaveEntry(charId, s, e).rows, key) ==
              if key.0 == charId && Lookup(done + [e], key.1).Some? then FirstStored(At(rows, key), key.1, done + [e])
              else At(rows, key)
    {
      OneMoreRow(rows, charId, loaded, done, s, e, key);
    }
  }

  lemma {:induction false} SavedInTurn(charId: int, s: Saving, log: seq<Entry>, later: seq<Entry>)
    ensures SaveEntries(charId, s, log + later) == SaveEntries(charId, SaveEntries(charId, s, log), later)
    decreases log
  {
    if log == [] || !s.ok {
      assert log == [] ==> log + later == later;
    } else {
      assert (log + later)[1..] == log[1..] + later;
      SavedInTurn(charId, SaveEntry(charId, s, log[0]), log[1..], later);
    }
  }

  lemma {:induction false} AllSaved(rows: Rows, charId: int, loaded: seq<Entry>, log: seq<Entry>, k: nat)
    requires Lists(rows, charId, loaded) && k <= |log| && NoCollision(loaded, log[..k])
    ensures Halfway(rows, charId, loaded, log[..k], SaveEntries(charId, Saving(true, rows, loaded), log[..k]))
    decreases k
  {
    var start := Saving(true, rows, loaded);
    if k == 0 {
      assert log[..k] == [];
    } else {
      var done, e := log[..k - 1], log[k - 1];
      forall i | 0 <= i < |done| ensures !Collides(loaded, done[..i], done[i]) {
        assert done[..i] == log[..k][..i] && done[i] == log[..k][i];
      }
      AllSaved(rows, charId, loaded, log, k - 1);
      assert log[..k] == done + [e] && log[..k][..k - 1] == done && log[..k][k - 1] == e;
      SavedInTurn(charId, start, done, [e]);
      var s := SaveEntries(charId, start, done);
      CollisionIs(rows, charId, loaded, done, s, e);
      OneMoreSaved(rows, charId, loaded, done, s, e);
      assert SaveEntries(charId, s, [e]) == SaveEntry(charId, s, e) by {
        assert [e][1..] == [];
      }
    }
  }

  /** The entries before the first collision are saved, and the one that collides stops the saving. */
  lemma {:induction false} SavedUntil(rows: Rows, charId: int, loaded: seq<Entry>, log: seq<Entry>, k: nat)
    requires Lists(rows, charId, loaded) && k <= |log| && NoCollision(loaded, log[..k])
    requires k < |log| ==> Collides(loaded, log[..k], log[k])
    ensures var s := SaveEntries(charId, Saving(true, rows, loaded), log);
            Halfway(rows, charId, loaded, log[..k], s.(ok := true)) && (s.ok <==> k == |log|)
  {
    var start := Saving(true, rows, loaded);
    AllSaved(rows, charId, loaded, log, k);
    SavedInTurn(charId, start, log[..k], log[k..]);
    assert log == log[..k] + log[k..];
    var s := SaveEntries(charId, start, log[..k]);
    if k < |log| {
      CollisionIs(rows, charId, loaded, log[..k], s, log[k]);
    }
  }

  lemma {:induction false} ErasedIs(charId: int, rows: Rows, left: seq<Entry>)
    ensures forall key :: At(Erase(charId, rows, left), key) ==
              if key.0 == charId && Lookup(left, key.1).Some? then None else At(rows, key)
    decreases left
  {
    if left != [] {
      var next := rows - {(charId, left[0].id)};
      ErasedIs(charId, next, left[1..]);
      forall key ensures At(Erase(charId, rows, left), key) ==
                         if key.0 == charId && Lookup(left, key.1).Some? then None else At(rows, key)
      {
        InTail(left, key.1);
        assert At(next, key) == if key == (charId, left[0].id) then None else At(rows, key);
      }
    }
  }

  lemma {:induction false} InTail(log: seq<Entry>, id: int)
    requires log != []
    ensures Lookup(log, id).Some? <==> log[0].id == id || Lookup(log[1..], id).Some?
  {
    LookupIs(log, id);
    LookupIs(log[1..], id);
    if id in Ids(log[1..]) {
      var i :| 0 <= i < |log[1..]| && log[1..][i].id == id;
      assert log[i + 1].id == id;
    }
    if id in Ids(log) && log[0].id != id {
      var i :| 0 <= i < |log| && log[i].id == id;
      assert log[1..][i - 1].id == id;
    }
  }

  /** Some old entry has no new one. */
  ghost predicate SomeMissing(loaded: seq<Entry>, done: seq<Entry>) {
    exists id :: Lookup(loaded, id).Some? && Lookup(done, id).None?
  }

  lemma {:induction false} SomeLeft(loaded: seq<Entry>, done: seq<Entry>, left: seq<Entry>)
    requires forall id :: Lookup(left, id) == if Lookup(done, id).Some? then None else Lookup(loaded, id)
    ensures left != [] <==> SomeMissing(loaded, done)
  {
    if left != [] {
      assert Lookup(left, left[|left| - 1].id).Some?;
    }
  }

  /** The outcome of every save, where `k` is the first entry that collides, or there is none and `k` is the length of
      the log. The entries before it decide the table alone: each of the character's rows holds the first entry written
      for its achievement, rows of achievements that do not occur before `k` are erased, and other characters are
      untouched. Success is reported if no entry collides, but also if some old row was erased. */
  lemma {:induction false} SaveOutcome(rows: Rows, charId: int, loaded: seq<Entry>, log: seq<Entry>, k: nat)
    requires Lists(rows, charId, loaded) && k <= |log| && NoCollision(loaded, log[..k])
    requires k < |log| ==> Collides(loaded, log[..k], log[k])
    ensures var (success, after) := SaveLog(charId, rows, loaded, log);
            && (success <==> k == |log| || SomeMissing(loaded, log[..k]))
            && forall key :: At(after, key) ==
                 if key.0 == charId then FirstStored(At(rows, key), key.1, log[..k]) else At(rows, key)
  {
    var done := log[..k];
    SavedUntil(rows, charId, loaded, log, k);
    var s := SaveEntries(charId, Saving(true, rows, loaded), log);
    SomeLeft(loaded, done, s.left);
    ErasedIs(charId, s.rows, s.left);
    forall key ensures At(Erase(charId, s.rows, s.left), key) ==
                       if key.0 == charId then FirstStored(At(rows, key), key.1, done) else At(rows, key)
    {
      FirstStoredIs(At(rows, key), key.1, done);
      assert key.0 == charId ==> At(rows, key) == Lookup(loaded, key.1);
    }
  }

  /** The first entry from `k` on that collides, or the length of the log. */
  function FirstCollision(loaded: seq<Entry>, log: seq<Entry>, k: nat): (r: nat)
    requires k <= |log| && NoCollision(loaded, log[..k])
    ensures k <= r <= |log| && NoCollision(loaded, log[..r])
    ensures r < |log| ==> Collides(loaded, log[..r], log[r])
    decreases |log| - k
  {
    if k == |log| || Collides(loaded, log[..k], log[k]) then k
    else
      assert forall i | 0 <= i <= k :: log[..k + 1][..i] == log[..i] && (i < k ==> log[..k][..i] == log[..i]);
      FirstCollision(loaded, log, k + 1)
  }

  /** Every new entry is saved if and only if none has to be inserted over a row that is already there. */
  lemma {:induction false} SavesAllExactlyWhen(rows: Rows, charId: int, loaded: seq<Entry>, log: seq<Entry>)
    requires Lists(rows, charId, loaded)
    ensures SaveEntries(charId, Saving(true, rows, loaded), log).ok <==> NoCollision(loaded, log)
  {
    var k := FirstCollision(loaded, log, 0);
    SavedUntil(rows, charId, loaded, log, k);
    assert k == |log| ==> log[..k] == log;
  }

  // ----- with distinct achievements the table becomes the new log -----

  lemma {:induction false} DistinctFirst(before: Option<Progress>, id: int, log: seq<Entry>)
    requires DistinctIds(log)
    ensures FirstStored(before, id, log) ==
            match Lookup(log, id)
            case None => None
            case Some(p) => if Stored(before, id, p) then Some(p) else None
  {
    if log != [] {
      var n := |log| - 1;
      DistinctFirst(before, id, log[..n]);
      LookupIs(log[..n], id);
    }
  }

  lemma {:induction false} FirstOfDistinct(before: Option<Progress>, log: seq<Entry>, i: nat)
    requires DistinctIds(log) && i < |log|
    ensures FirstStored(before, log[i].id, log) ==
            if Stored(before, log[i].id, log[i].progress) then Some(log[i].progress) else None
  {
    DistinctFirst(before, log[i].id, log);
    LookupIs(log, log[i].id);
  }

  /** Saving a log of distinct achievements succeeds, and makes the character's table exactly that log: every entry is
      in it with exactly its progress, except that a new entry is not stored when its id is 0 or when all its counts,
      its completion and its reward are 0. Achievements that are not in the log have no row; other characters are
      untouched. */
  lemma {:induction false} SaveIsExact(rows: Rows, charId: int, loaded: seq<Entry>, log: seq<Entry>)
    requires Lists(rows, charId, loaded) && DistinctIds(log)
    ensures var (success, after) := SaveLog(charId, rows, loaded, log);
            && success
            && (forall i | 0 <= i < |log| ::
                  var key, p := (charId, log[i].id), log[i].progress;
                  if key in rows
                     || (log[i].id != 0
                         && ((exists k | 0 <= k < OBJECTIVES :: p.count[k] != 0)
                             || p.completed != 0 || p.rewarded != 0))
                  then key in after && after[key] == p
                  else key !in after)
            && (forall id | forall i | 0 <= i < |log| :: log[i].id != id :: (charId, id) !in after)
            && (forall key: (int, int) | key.0 != charId :: At(after, key) == At(rows, key))
  {
    assert log[..|log|] == log;
    SaveOutcome(rows, charId, loaded, log, |log|);
    var after := SaveLog(charId, rows, loaded, log).1;
    forall i | 0 <= i < |log|
      ensures At(after, (charId, log[i].id)) ==
              if Stored(At(rows, (charId, log[i].id)), log[i].id, log[i].progress) then Some(log[i].progress) else None
    {
      FirstOfDistinct(At(rows, (charId, log[i].id)), log, i);
    }
    forall id | forall i | 0 <= i < |log| :: log[i].id != id ensures (charId, id) !in after {
      NotFound(log, id);
      FirstStoredIs(At(rows, (charId, id)), id, log);
      assert At(after, (charId, id)) == None;
    }
  }

  /** For example: of an achievement that occurs twice the second insertion fails, the entry after it is not saved, its
      old row is erased all the same, and the save reports success. */
  lemma {:induction false} RepeatedEntryLosesProgress(rows: Rows, charId: int, a: Entry, b: Entry)
    requires a.id != 0 && HasProgress(a.progress) && b.id != a.id
    requires Lists(rows, charId, [b])
    ensures SaveLog(charId, rows, [b], [a, a, b]).0
    ensures At(SaveLog(charId, rows, [b], [a, a, b]).1, (charId, b.id)) == None
  {
    var log := [a, a, b];
    assert log[..1] == [a] && [b][..0] == [];
    assert [a][..0] == [] && !Collides([b], [], a);
    assert [a][0].id == a.id && Collides([b], [a], log[1]);
    SaveOutcome(rows, charId, [b], log, 1);
    assert Lookup([b], b.id).Some? && Lookup([a], b.id).None?;
    FirstStoredIs(At(rows, (charId, b.id)), b.id, [a]);
  }
}
