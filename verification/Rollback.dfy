/** The rollback log: what each entry undoes, and what undoing a whole run leaves in the table. */
module Rollback {
  import opened Basics
  import opened MemoryStore

  datatype Entry =
    | Consolidated(originals: seq<Memory>, resultId: string)
    | Forgot(snapshot: Memory)
    | PriorityAdjusted(memoryId: string, before: int, after: int)

  /** Another row sits on the snapshot's title and namespace, among the rows the listing shows. */
  ghost predicate Collides(rows: Rows, visible: set<string>, m: Memory) {
    exists id :: id in visible && id != m.id && Holds(rows, id, Slot(m))
  }

  /** Insert one after the other; the first error stops, what was inserted stays. */
  ghost function InsertAll(rows: Rows, ms: seq<Memory>): (Rows, bool) {
    if ms == [] then (rows, true)
    else
      var (before, ok) := InsertAll(rows, ms[..|ms| - 1]);
      if !ok then (before, false)
      else
        match Insert(before, ms[|ms| - 1])
        case Err(_) => (before, false)
        case Ok(after) => (after, true)
  }

  /**
   Undo one entry. `visible` are the rows the collision check gets to see, at
   most fifty of the namespace in the source, any set here. An error leaves the
   table as the statements before it left it.
   */
  ghost function Reverse(rows: Rows, e: Entry, visible: set<string>, now: int): (Rows, Result<bool, string>) {
    match e
    case Consolidated(originals, resultId) =>
      if exists i :: 0 <= i < |originals| && Collides(rows, visible, originals[i]) then
        (rows, Err("rollback aborted"))
      else
        var (after, ok) := InsertAll(Delete(rows, resultId), originals);
        (after, if ok then Ok(resultId in rows) else Err("insert failed"))
    case Forgot(m) =>
      if Collides(rows, visible, m) then (rows, Err("rollback aborted"))
      else (match Insert(rows, m)
            case Err(e) => (rows, Err(e))
            case Ok(after) => (after, Ok(true)))
    case PriorityAdjusted(id, before, _) => (SetPriority(rows, id, before, now), Ok(true))
  }

  // ----- what a forward step did ----------------------------------------

  /** A copy of a row, however old: title and namespace are those of the row, anything else may differ. */
  predicate IsCopy(start: Rows, m: Memory) {
    m.id in start && Slot(m) == Slot(start[m.id])
  }

  /** The step that entry `e` records, on a table that started the run as `start`. */
  ghost predicate Recorded(start: Rows, rows: Rows, e: Entry, rows': Rows) {
    match e
    case Consolidated(originals, resultId) =>
      && resultId !in start && resultId !in rows
      && (forall i :: 0 <= i < |originals| ==> IsCopy(start, originals[i]) && originals[i].id in rows)
      && (exists row: Memory ::
            && row.id == resultId && (forall h :: !Holds(rows, h, Slot(row)))
            && rows' == rows[resultId := row] - Ids(originals))
    case Forgot(m) => IsCopy(start, m) && rows' == Delete(rows, m.id)
    case PriorityAdjusted(id, before, after) =>
      id in start && exists now: int :: rows' == SetPriority(rows, id, after, now)
  }

  function Ids(ms: seq<Memory>): set<string> {
    set i | 0 <= i < |ms| :: ms[i].id
  }

  /** A table in the middle of a run: the original rows that are left have kept their places. */
  ghost predicate MidRun(start: Rows, rows: Rows) {
    WellKeyed(rows) && forall id :: id in rows && id in start ==> Slot(rows[id]) == Slot(start[id])
  }

  /** The tables of a run and the entries between them. */
  ghost predicate Trail(tables: seq<Rows>, log: seq<Entry>) {
    && |tables| == |log| + 1
    && (forall i :: 0 <= i < |tables| ==> MidRun(tables[0], tables[i]))
    && (forall i :: 0 <= i < |log| ==> Recorded(tables[0], tables[i], log[i], tables[i + 1]))
  }

  // ----- what undoing does to one original row ---------------------------

  function Lookup(rows: Rows, id: string): Option<Memory> {
    if id in rows then Some(rows[id]) else None
  }

  /** The row an insert leaves on its own place, given what was there. */
  function PutOver(stored: Option<Memory>, m: Memory): Memory {
    if stored.Some? then Upsert(stored.value, m) else m
  }

  function PutEach(stored: Option<Memory>, ms: seq<Memory>, id: string): Option<Memory> {
    if ms == [] then stored
    else
      var before := PutEach(stored, ms[..|ms| - 1], id);
      if ms[|ms| - 1].id == id then Some(PutOver(before, ms[|ms| - 1])) else before
  }

  /** No row has the title and namespace. */
  ghost predicate Free(rows: Rows, m: Memory) {
    forall h :: !Holds(rows, h, Slot(m))
  }

  /**
   What undoing `e`, which was recorded on the table `rows`, makes of the row `id`:
   a consolidation and a forget put their snapshot back, the forget only if it
   removed the row or nobody has the row's title; a priority is set back.
   */
  ghost function UndoAt(rows: Rows, e: Entry, stored: Option<Memory>, id: string, now: int): Option<Memory> {
    match e
    case Consolidated(originals, _) => PutEach(stored, originals, id)
    case Forgot(m) => if m.id == id && (id in rows || Free(rows, m)) then Some(PutOver(stored, m)) else stored
    case PriorityAdjusted(i, before, _) =>
      if i == id && stored.Some? then Some(stored.value.(priority := before, updatedAt := now)) else stored
  }

  ghost function UndoAllAt(tables: seq<Rows>, log: seq<Entry>, stored: Option<Memory>, id: string,
                           now: int): Option<Memory>
    requires |tables| == |log| + 1
    decreases |log|
  {
    if log == [] then stored
    else
      var n := |log| - 1;
      UndoAllAt(tables[..n + 1], log[..n], UndoAt(tables[n], log[n], stored, id, now), id, now)
  }

  // ----- the relation between a table on the way back and its forward twin ---

  /**
   `back` matches `rows` at an id: rows outside `missing` are there, everything is
   on the place it has in `rows`, and anything extra is an original on its place.
   */
  ghost predicate MatchesAt(start: Rows, rows: Rows, back: Rows, missing: set<string>, id: string) {
    if id in rows then
      (id in back || id in missing) && (id in back ==> Slot(back[id]) == Slot(rows[id]))
    else
      id in back ==> id in start && Slot(back[id]) == Slot(start[id])
  }

  ghost predicate Matches(start: Rows, rows: Rows, back: Rows, missing: set<string>) {
    WellKeyed(back) && forall id :: MatchesAt(start, rows, back, missing, id)
  }

  /** The only row on the place of an original that the forward table has is that original. */
  lemma HolderIsSelf(start: Rows, rows: Rows, back: Rows, missing: set<string>, m: Memory, h: string)
    requires WellKeyed(start) && MidRun(start, rows) && Matches(start, rows, back, missing)
    requires IsCopy(start, m) && m.id in rows && Holds(back, h, Slot(m))
    ensures h == m.id
  {
    assert MatchesAt(start, rows, back, missing, h);
  }

  /** The row at `id` changes and stays on its place: everything else still matches. */
  lemma MatchesAfterPut(start: Rows, rows: Rows, back: Rows, missing: set<string>, id: string, x: Memory)
    requires Matches(start, rows, back, missing)
    requires WellKeyed(back[id := x]) && MatchesAt(start, rows, back[id := x], missing - {id}, id)
    ensures Matches(start, rows, back[id := x], missing - {id})
  {
    var put := back[id := x];
    forall j ensures MatchesAt(start, rows, put, missing - {id}, j) {
      assert MatchesAt(start, rows, back, missing, j);
    }
  }

  lemma KeyedAfterUpsert(back: Rows, h: string, m: Memory)
    requires WellKeyed(back) && h in back
    ensures WellKeyed(back[h := Upsert(back[h], m)])
  {
  }

  lemma PlaceIsFree(back: Rows, m: Memory)
    requires WellKeyed(back) && m.id !in back && Free(back, m)
    ensures WellKeyed(back[m.id := m])
  {
    forall i | i in back ensures Slot(back[i]) != Slot(m) {
      assert !Holds(back, i, Slot(m));
    }
  }

  function Put(back: Rows, m: Memory): Rows {
    back[m.id := PutOver(Lookup(back, m.id), m)]
  }

  /** What an insert does when the only possible holder of the place is the row itself. */
  lemma InsertOwnPlace(back: Rows, m: Memory)
    requires WellKeyed(back) && forall h :: Holds(back, h, Slot(m)) ==> h == m.id
    requires m.id in back ==> Slot(back[m.id]) == Slot(m)
    ensures Insert(back, m) == Ok(Put(back, m)) && WellKeyed(Put(back, m)) && Slot(Put(back, m)[m.id]) == Slot(m)
  {
    if m.id in back {
      assert Holds(back, m.id, Slot(m));
      KeyedAfterUpsert(back, m.id, m);
    } else {
      PlaceIsFree(back, m);
    }
  }

  /** Re-inserting an original that the forward table holds succeeds and fills its place. */
  lemma ReinsertOne(start: Rows, rows: Rows, back: Rows, missing: set<string>, m: Memory)
    requires WellKeyed(start) && MidRun(start, rows) && Matches(start, rows, back, missing)
    requires IsCopy(start, m) && m.id in rows
    ensures Insert(back, m) == Ok(Put(back, m)) && Matches(start, rows, Put(back, m), missing - {m.id})
  {
    assert MatchesAt(start, rows, back, missing, m.id);
    forall h | Holds(back, h, Slot(m)) ensures h == m.id {
      HolderIsSelf(start, rows, back, missing, m, h);
    }
    InsertOwnPlace(back, m);
    MatchesAfterPut(start, rows, back, missing, m.id, PutOver(Lookup(back, m.id), m));
  }

  lemma {:induction false} ReinsertAll(start: Rows, rows: Rows, back: Rows, missing: set<string>, ms: seq<Memory>)
    requires WellKeyed(start) && MidRun(start, rows) && Matches(start, rows, back, missing)
    requires forall i :: 0 <= i < |ms| ==> IsCopy(start, ms[i]) && ms[i].id in rows
    ensures InsertAll(back, ms).1 && Matches(start, rows, InsertAll(back, ms).0, missing - Ids(ms))
    ensures forall id :: Lookup(InsertAll(back, ms).0, id) == PutEach(Lookup(back, id), ms, id)
  {
    if ms == [] {
      assert missing - Ids(ms) == missing;
    } else {
      var init, last := ms[..|ms| - 1], ms[|ms| - 1];
      ReinsertAll(start, rows, back, missing, init);
      var before := InsertAll(back, init).0;
      ReinsertOne(start, rows, before, missing - Ids(init), last);
      assert InsertAll(back, ms) == (Put(before, last), true);
      LastOneIn(missing, ms);
    }
  }

  lemma LastOneIn(missing: set<string>, ms: seq<Memory>)
    requires ms != []
    ensures missing - Ids(ms) == missing - Ids(ms[..|ms| - 1]) - {ms[|ms| - 1].id}
  {
    IdsSnoc(ms[..|ms| - 1], ms[|ms| - 1]);
    assert ms == ms[..|ms| - 1] + [ms[|ms| - 1]];
  }

  lemma IdsSnoc(ms: seq<Memory>, m: Memory)
    ensures Ids(ms + [m]) == Ids(ms) + {m.id}
  {
    var all := ms + [m];
    assert all[|ms|] == m;
    forall x | x in Ids(ms) ensures x in Ids(all) {
      var i :| 0 <= i < |ms| && ms[i].id == x;
      assert all[i].id == x;
    }
    forall x | x in Ids(all) ensures x in Ids(ms) + {m.id} {
      var i :| 0 <= i < |all| && all[i].id == x;
      if i < |ms| { assert ms[i].id == x; }
    }
  }

  // ----- undoing a consolidation -----------------------------------------

  lemma ClearedMatches(start: Rows, rows: Rows, e: Entry, rows': Rows, row: Memory, back: Rows)
    requires e.Consolidated? && e.resultId !in start && e.resultId !in rows
    requires forall id :: id in Ids(e.originals) ==> id in rows && id in start
    requires rows' == rows[e.resultId := row] - Ids(e.originals) && MidRun(start, rows)
    requires Matches(start, rows', back, {})
    ensures Matches(start, rows, Delete(back, e.resultId), Ids(e.originals))
  {
    forall id ensures MatchesAt(start, rows, Delete(back, e.resultId), Ids(e.originals), id) {
      assert MatchesAt(start, rows', back, {}, id);
    }
  }

  lemma NoCollisionAfterConsolidation(start: Rows, rows: Rows, e: Entry, rows': Rows, row: Memory, back: Rows,
                                      visible: set<string>, m: Memory)
    requires WellKeyed(start) && MidRun(start, rows) && e.Consolidated?
    requires row.id == e.resultId && e.resultId !in rows && Free(rows, row)
    requires rows' == rows[e.resultId := row] - Ids(e.originals)
    requires Matches(start, rows', back, {}) && IsCopy(start, m) && m.id in rows
    ensures !Collides(back, visible, m)
  {
    assert Holds(rows, m.id, Slot(m));
    forall h | h != m.id && h in back ensures Slot(back[h]) != Slot(m) {
      assert MatchesAt(start, rows', back, {}, h);
    }
  }

  /**
   Undoing a consolidation never aborts, puts every snapshot back on its place
   and touches no other original.
   */
  lemma UndoConsolidation(start: Rows, rows: Rows, e: Entry, rows': Rows, back: Rows, visible: set<string>, now: int)
    requires WellKeyed(start) && MidRun(start, rows) && e.Consolidated? && Recorded(start, rows, e, rows')
    requires Matches(start, rows', back, {})
    ensures var (after, r) := Reverse(back, e, visible, now);
            && r == Ok(true) && Matches(start, rows, after, {})
            && forall id :: id in start ==> Lookup(after, id) == UndoAt(rows, e, Lookup(back, id), id, now)
  {
    var row: Memory :| row.id == e.resultId && (forall h :: !Holds(rows, h, Slot(row)))
                       && rows' == rows[e.resultId := row] - Ids(e.originals);
    forall i | 0 <= i < |e.originals| ensures !Collides(back, visible, e.originals[i]) {
      NoCollisionAfterConsolidation(start, rows, e, rows', row, back, visible, e.originals[i]);
    }
    ClearedMatches(start, rows, e, rows', row, back);
    ReinsertAll(start, rows, Delete(back, e.resultId), Ids(e.originals), e.originals);
    assert Ids(e.originals) - Ids(e.originals) == {};
    assert MatchesAt(start, rows', back, {}, e.resultId);
  }

  /**
   On any table: a consolidation is not undone, and nothing changes, if any of its
   originals has another listed row on its place; else the result row goes, the
   originals are inserted, and the answer is whether the result row was there.
   */
  lemma ReverseConsolidationLaws(rows: Rows, ms: seq<Memory>, resultId: string, visible: set<string>, now: int)
    ensures var (after, r) := Reverse(rows, Consolidated(ms, resultId), visible, now);
            var cleared := InsertAll(rows - {resultId}, ms);
            if exists m, h :: m in ms && h in visible && h in rows && h != m.id
                              && rows[h].title == m.title && rows[h].namespace == m.namespace
            then after == rows && r.Err?
            else after == cleared.0 && (cleared.1 ==> r == Ok(resultId in rows)) && (!cleared.1 ==> r.Err?)
  {
    if m, h :| m in ms && h in visible && h in rows && h != m.id
               && rows[h].title == m.title && rows[h].namespace == m.namespace
    {
      var i :| 0 <= i < |ms| && ms[i] == m;
      assert Holds(rows, h, Slot(ms[i])) && Collides(rows, visible, ms[i]);
    } else {
      forall i | 0 <= i < |ms| ensures !Collides(rows, visible, ms[i]) { assert ms[i] in ms; }
    }
  }

  // ----- undoing a forget ------------------------------------------------

  /** A result row that the check can see has taken the title of a removed row. */
  ghost predicate Taken(start: Rows, rows: Rows, visible: set<string>, m: Memory) {
    exists h :: h in visible && h !in start && Holds(rows, h, Slot(m))
  }

  /** Undoing a forget is refused: the row was gone already, and its title is seen to be taken. */
  ghost predicate Refused(start: Rows, rows: Rows, visible: set<string>, m: Memory) {
    m.id !in rows && Taken(start, rows, visible, m)
  }

  /** Undoing a forget that did remove the row never fails. */
  lemma UndoForgetPresent(start: Rows, rows: Rows, m: Memory, back: Rows, visible: set<string>, now: int)
    requires WellKeyed(start) && MidRun(start, rows) && IsCopy(start, m) && m.id in rows
    requires Matches(start, Delete(rows, m.id), back, {})
    ensures Reverse(back, Forgot(m), visible, now) == (Put(back, m), Ok(true)) && Matches(start, rows, Put(back, m), {})
  {
    forall j ensures MatchesAt(start, rows, back, {m.id}, j) {
      assert MatchesAt(start, Delete(rows, m.id), back, {}, j);
    }
    forall h | Holds(back, h, Slot(m)) ensures h == m.id { HolderIsSelf(start, rows, back, {m.id}, m, h); }
    assert !Collides(back, visible, m);
    ReinsertOne(start, rows, back, {m.id}, m);
    assert {m.id} - {m.id} == {};
  }

  /** On the place of a removed row sits a result row or nobody, on the way back as on the way out. */
  lemma HoldersAgree(start: Rows, rows: Rows, back: Rows, m: Memory, h: string)
    requires WellKeyed(start) && MidRun(start, rows) && Matches(start, rows, back, {})
    requires IsCopy(start, m) && m.id !in rows && h != m.id
    ensures Holds(back, h, Slot(m)) <==> Holds(rows, h, Slot(m))
    ensures Holds(rows, h, Slot(m)) ==> h !in start
  {
    assert MatchesAt(start, rows, back, {}, h);
  }

  /** The row was gone and its title is free: the snapshot comes in. */
  lemma UndoForgetGone(start: Rows, rows: Rows, m: Memory, back: Rows, visible: set<string>, now: int)
    requires WellKeyed(start) && MidRun(start, rows) && Matches(start, rows, back, {})
    requires IsCopy(start, m) && m.id !in rows && Free(rows, m)
    ensures Reverse(back, Forgot(m), visible, now) == (Put(back, m), Ok(true)) && Matches(start, rows, Put(back, m), {})
  {
    assert MatchesAt(start, rows, back, {}, m.id);
    forall h | h != m.id ensures !Holds(back, h, Slot(m)) { HoldersAgree(start, rows, back, m, h); }
    assert !Collides(back, visible, m);
    InsertOwnPlace(back, m);
    assert {} - {m.id} == {};
    MatchesAfterPut(start, rows, back, {}, m.id, PutOver(Lookup(back, m.id), m));
  }

  /** The row was gone and a result row has its title: refused if seen, else the result row is overwritten. */
  lemma UndoForgetTaken(start: Rows, rows: Rows, m: Memory, back: Rows, visible: set<string>, now: int, h: string)
    requires WellKeyed(start) && MidRun(start, rows) && Matches(start, rows, back, {})
    requires IsCopy(start, m) && m.id !in rows && Holds(rows, h, Slot(m))
    ensures h !in start && h in back
    ensures Reverse(back, Forgot(m), visible, now) ==
            if h in visible then (back, Err("rollback aborted")) else (back[h := Upsert(back[h], m)], Ok(true))
    ensures Matches(start, rows, Reverse(back, Forgot(m), visible, now).0, {})
  {
    HoldersAgree(start, rows, back, m, h);
    assert MatchesAt(start, rows, back, {}, h);
    assert forall g :: Holds(back, g, Slot(m)) ==> g == h;
    if h !in visible {
      KeyedAfterUpsert(back, h, m);
      assert {} - {h} == {};
      MatchesAfterPut(start, rows, back, {}, h, Upsert(back[h], m));
    }
  }

  /**
   The check is there to refuse rather than overwrite, and sees only what the
   listing shows: whatever other row sits on the title by now, it is refused if
   seen and else overwritten with the snapshot's content under its own id.
   */
  lemma UnseenRowIsOverwritten(rows: Rows, m: Memory, visible: set<string>, now: int, h: string)
    requires WellKeyed(rows) && h != m.id && Holds(rows, h, Slot(m))
    ensures Reverse(rows, Forgot(m), visible, now) ==
            if h in visible then (rows, Err("rollback aborted")) else (rows[h := Upsert(rows[h], m)], Ok(true))
  {
    assert forall g :: Holds(rows, g, Slot(m)) ==> g == h;
  }

  /** Undoing a forget: what it makes of every original, and exactly when it is refused. */
  lemma UndoForget(start: Rows, rows: Rows, e: Entry, rows': Rows, back: Rows, visible: set<string>, now: int)
    requires WellKeyed(start) && MidRun(start, rows) && e.Forgot? && Recorded(start, rows, e, rows')
    requires Matches(start, rows', back, {})
    ensures var (after, r) := Reverse(back, e, visible, now);
            && (if Refused(start, rows, visible, e.snapshot) then r.Err? else r == Ok(true))
            && Matches(start, rows, after, {})
            && forall id :: id in start ==> Lookup(after, id) == UndoAt(rows, e, Lookup(back, id), id, now)
  {
    var m := e.snapshot;
    if m.id in rows {
      UndoForgetPresent(start, rows, m, back, visible, now);
    } else {
      assert rows' == rows;
      if h :| Holds(rows, h, Slot(m)) {
        UndoForgetTaken(start, rows, m, back, visible, now, h);
        assert Refused(start, rows, visible, m) <==> h in visible;
      } else {
        UndoForgetGone(start, rows, m, back, visible, now);
      }
    }
  }

  // ----- undoing a priority change, and a whole log ------------------------

  lemma UndoPriority(start: Rows, rows: Rows, e: Entry, rows': Rows, back: Rows, visible: set<string>, now: int)
    requires MidRun(start, rows) && e.PriorityAdjusted? && Recorded(start, rows, e, rows')
    requires Matches(start, rows', back, {})
    ensures var (after, r) := Reverse(back, e, visible, now);
            && r == Ok(true) && Matches(start, rows, after, {})
            && forall id :: id in start ==> Lookup(after, id) == UndoAt(rows, e, Lookup(back, id), id, now)
  {
    var after := Reverse(back, e, visible, now).0;
    forall id ensures MatchesAt(start, rows, after, {}, id) {
      assert MatchesAt(start, rows', back, {}, id);
    }
  }

  lemma UndoOne(start: Rows, rows: Rows, e: Entry, rows': Rows, back: Rows, visible: set<string>, now: int)
    requires WellKeyed(start) && MidRun(start, rows) && Recorded(start, rows, e, rows')
    requires Matches(start, rows', back, {})
    ensures var (after, r) := Reverse(back, e, visible, now);
            && (if e.Forgot? && Refused(start, rows, visible, e.snapshot) then r.Err? else r == Ok(true))
            && Matches(start, rows, after, {})
            && forall id :: id in start ==> Lookup(after, id) == UndoAt(rows, e, Lookup(back, id), id, now)
  {
    match e
    case Consolidated(_, _) => UndoConsolidation(start, rows, e, rows', back, visible, now);
    case Forgot(_) => UndoForget(start, rows, e, rows', back, visible, now);
    case PriorityAdjusted(_, _, _) => UndoPriority(start, rows, e, rows', back, visible, now);
  }

  /** Undo the log, last in first out; an entry that reports an error is passed over. */
  ghost function ReverseAll(rows: Rows, log: seq<Entry>, visible: seq<set<string>>, now: int): Rows
    requires |visible| == |log|
    decreases |log|
  {
    if log == [] then rows
    else
      var n := |log| - 1;
      ReverseAll(Reverse(rows, log[n], visible[n], now).0, log[..n], visible[..n], now)
  }

  /** As the command line does it: the first error ends the loop. */
  ghost function ReverseUntilError(rows: Rows, log: seq<Entry>, visible: seq<set<string>>, now: int): (Rows, bool)
    requires |visible| == |log|
    decreases |log|
  {
    if log == [] then (rows, true)
    else
      var n := |log| - 1;
      var (after, r) := Reverse(rows, log[n], visible[n], now);
      if r.Err? then (after, false) else ReverseUntilError(after, log[..n], visible[..n], now)
  }

  lemma TrailPrefix(tables: seq<Rows>, log: seq<Entry>, n: nat)
    requires Trail(tables, log) && n <= |log|
    ensures Trail(tables[..n + 1], log[..n])
  {
  }

  lemma {:induction false} ReverseAllMatches(tables: seq<Rows>, log: seq<Entry>, visible: seq<set<string>>, now: int,
                                             back: Rows)
    requires Trail(tables, log) && WellKeyed(tables[0]) && |visible| == |log|
    requires Matches(tables[0], tables[|log|], back, {})
    ensures Matches(tables[0], tables[0], ReverseAll(back, log, visible, now), {})
    ensures forall id :: id in tables[0] ==>
              Lookup(ReverseAll(back, log, visible, now), id) == UndoAllAt(tables, log, Lookup(back, id), id, now)
  {
    if log != [] {
      var n := |log| - 1;
      UndoOne(tables[0], tables[n], log[n], tables[n + 1], back, visible[n], now);
      TrailPrefix(tables, log, n);
      ReverseAllMatches(tables[..n + 1], log[..n], visible[..n], now, Reverse(back, log[n], visible[n], now).0);
    }
  }

  lemma RunEndMatches(tables: seq<Rows>, log: seq<Entry>)
    requires Trail(tables, log) && WellKeyed(tables[0])
    ensures Matches(tables[0], tables[|log|], tables[|log|], {})
  {
  }

  /**
   Undoing all entries of a run, last in first out, brings back the same ids, and
   every row is what the entries about that row alone make of it, whatever the
   collision checks can see.
   */
  lemma RollbackRowByRow(tables: seq<Rows>, log: seq<Entry>, visible: seq<set<string>>, now: int)
    requires Trail(tables, log) && WellKeyed(tables[0]) && |visible| == |log|
    ensures var back := ReverseAll(tables[|log|], log, visible, now);
            && back.Keys == tables[0].Keys
            && forall id :: id in back ==> Some(back[id]) == UndoAllAt(tables, log, Lookup(tables[|log|], id), id, now)
  {
    var start, end := tables[0], tables[|log|];
    RunEndMatches(tables, log);
    ReverseAllMatches(tables, log, visible, now, end);
    var back := ReverseAll(end, log, visible, now);
    forall id ensures id in back <==> id in start {
      assert MatchesAt(start, start, back, {}, id);
    }
  }

  /**
   Undoing only the newest entries, all from the `k`th on, leads back to the table
   before them: what it had is there, on its place, and besides at most originals
   that had been removed earlier.
   */
  lemma {:induction false} UndoNewest(tables: seq<Rows>, log: seq<Entry>, visible: seq<set<string>>, now: int, k: nat)
    requires Trail(tables, log) && WellKeyed(tables[0]) && |visible| == |log| && k <= |log|
    ensures Matches(tables[0], tables[k], ReverseAll(tables[|log|], log[k..], visible[k..], now), {})
    decreases |log| - k
  {
    if k == |log| {
      assert log[k..] == [] && visible[k..] == [];
      RunEndMatches(tables, log);
    } else {
      UndoNewest(tables, log, visible, now, k + 1);
      UndoneOneMore(tables[|log|], log, visible, now, k);
      var back := ReverseAll(tables[|log|], log[k + 1..], visible[k + 1..], now);
      UndoOne(tables[0], tables[k], log[k], tables[k + 1], back, visible[k], now);
    }
  }

  /** Undoing from the `k`th entry on is undoing from the next one on and then the `k`th. */
  lemma {:induction false} UndoneOneMore(rows: Rows, log: seq<Entry>, visible: seq<set<string>>, now: int, k: nat)
    requires |visible| == |log| && k < |log|
    ensures ReverseAll(rows, log[k..], visible[k..], now) ==
            Reverse(ReverseAll(rows, log[k + 1..], visible[k + 1..], now), log[k], visible[k], now).0
    decreases |log|
  {
    var n := |log| - 1;
    var after := Reverse(rows, log[n], visible[n], now).0;
    if k < n {
      assert log[k..][..n - k] == log[..n][k..] && visible[k..][..n - k] == visible[..n][k..];
      assert log[k + 1..][..n - k - 1] == log[..n][k + 1..] && visible[k + 1..][..n - k - 1] == visible[..n][k + 1..];
      UndoneOneMore(after, log[..n], visible[..n], now, k);
    } else {
      assert log[k..] == [log[k]] && visible[k..] == [visible[k]] && log[k..][..0] == [] && visible[k..][..0] == [];
      assert log[k + 1..] == [] && visible[k + 1..] == [];
    }
  }

  /** No entry of the log is refused. */
  ghost predicate NoneRefused(tables: seq<Rows>, log: seq<Entry>, visible: seq<set<string>>)
    requires |tables| == |log| + 1 && |visible| == |log|
  {
    forall j :: 0 <= j < |log| && log[j].Forgot? ==> !Refused(tables[0], tables[j], visible[j], log[j].snapshot)
  }

  /**
   The loop that stops at an error runs to the end, and then leaves the same
   table, exactly when no forgotten row was gone before with its title seen taken.
   */
  lemma {:induction false} StopsIffRefused(tables: seq<Rows>, log: seq<Entry>, visible: seq<set<string>>, now: int,
                                           back: Rows)
    requires Trail(tables, log) && WellKeyed(tables[0]) && |visible| == |log|
    requires Matches(tables[0], tables[|log|], back, {})
    ensures ReverseUntilError(back, log, visible, now).1 <==> NoneRefused(tables, log, visible)
    ensures ReverseUntilError(back, log, visible, now).1 ==>
              ReverseUntilError(back, log, visible, now).0 == ReverseAll(back, log, visible, now)
  {
    if log != [] {
      var n := |log| - 1;
      UndoOne(tables[0], tables[n], log[n], tables[n + 1], back, visible[n], now);
      TrailPrefix(tables, log, n);
      StopsIffRefused(tables[..n + 1], log[..n], visible[..n], now, Reverse(back, log[n], visible[n], now).0);
      NoneRefusedSplits(tables, log, visible);
    }
  }

  lemma NoneRefusedSplits(tables: seq<Rows>, log: seq<Entry>, visible: seq<set<string>>)
    requires |tables| == |log| + 1 && |visible| == |log| && log != []
    ensures var n := |log| - 1;
            NoneRefused(tables, log, visible) <==>
              && NoneRefused(tables[..n + 1], log[..n], visible[..n])
              && (log[n].Forgot? ==> !Refused(tables[0], tables[n], visible[n], log[n].snapshot))
  {
    var n := |log| - 1;
    if NoneRefused(tables[..n + 1], log[..n], visible[..n]) {
      forall j | 0 <= j < n && log[j].Forgot? ensures !Refused(tables[0], tables[j], visible[j], log[j].snapshot) {
        assert log[..n][j] == log[j];
      }
    }
  }

  /** The command line's loop on the table a run has left. */
  lemma RollbackLastCompletesIff(tables: seq<Rows>, log: seq<Entry>, visible: seq<set<string>>, now: int)
    requires Trail(tables, log) && WellKeyed(tables[0]) && |visible| == |log|
    ensures var (back, done) := ReverseUntilError(tables[|log|], log, visible, now);
            && (done <==> NoneRefused(tables, log, visible))
            && (done ==> back == ReverseAll(tables[|log|], log, visible, now))
  {
    RunEndMatches(tables, log);
    StopsIffRefused(tables, log, visible, now, tables[|log|]);
  }
}
