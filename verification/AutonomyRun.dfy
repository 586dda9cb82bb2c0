/** The passes and the rollback as statements on the database object. */
module AutonomyRun {
  import opened Basics
  import opened MemoryStore
  import opened Clusters
  import opened Rollback
  import opened Autonomy
  import opened RollbackOutcome

  class MemoryDb {
    var rows: Rows

    ghost predicate Valid()
      reads this
    {
      WellKeyed(rows)
    }

    constructor (initial: Rows)
      requires WellKeyed(initial)
      ensures rows == initial && Valid()
    {
      rows := initial;
    }

    /** The row on a title and namespace, if any. */
    method FindHolder(slot: (string, string)) returns (h: Option<string>)
      requires Valid()
      ensures h.Some? ==> Holds(rows, h.value, slot)
      ensures h.None? ==> forall id :: !Holds(rows, id, slot)
    {
      var rest := rows.Keys;
      while rest != {}
        invariant rest <= rows.Keys && forall id :: id in rows && id !in rest ==> !Holds(rows, id, slot)
        decreases rest
      {
        var id :| id in rest;
        if Slot(rows[id]) == slot { return Some(id); }
        rest := rest - {id};
      }
      return None;
    }

    /** The upsert statement. */
    method Insert(m: Memory) returns (r: Result<string, string>)
      requires Valid()
      modifies this
      ensures Valid()
      ensures MemoryStore.Insert(old(rows), m) == (if r.Ok? then Ok(rows) else Err(r.error))
      ensures r.Err? ==> rows == old(rows)
    {
      var h := FindHolder(Slot(m));
      if h.Some? {
        assert forall g :: Holds(rows, g, Slot(m)) ==> g == h.value;
        KeyedAfterUpsert(rows, h.value, m);
        rows := rows[h.value := Upsert(rows[h.value], m)];
        return Ok(h.value);
      }
      if m.id in rows { return Err("UNIQUE constraint failed: memories.id"); }
      PlaceIsFree(rows, m);
      rows := rows[m.id := m];
      return Ok(m.id);
    }

    method Delete(id: string) returns (existed: bool)
      requires Valid()
      modifies this
      ensures Valid() && rows == MemoryStore.Delete(old(rows), id) && (existed <==> id in old(rows))
    {
      existed := id in rows;
      rows := rows - {id};
    }

    method UpdatePriority(id: string, priority: int, now: int)
      requires Valid()
      modifies this
      ensures Valid() && rows == SetPriority(old(rows), id, priority, now)
    {
      if id in rows { rows := rows[id := rows[id].(priority := priority, updatedAt := now)]; }
    }

    /** The consolidation transaction; an error rolls it back. */
    method Consolidate(ids: set<string>, row: Memory) returns (ok: bool)
      requires Valid()
      modifies this
      ensures Valid()
      ensures ok <==> MemoryStore.Consolidate(old(rows), ids, row).Ok?
      ensures rows == if ok then MemoryStore.Consolidate(old(rows), ids, row).value else old(rows)
    {
      if !(ids <= rows.Keys) { return false; }
      var h := FindHolder(Slot(row));
      if row.id in rows || h.Some? { return false; }
      RowFits(rows, row);
      rows := rows[row.id := row] - ids;
      return true;
    }
  }

  method ConsolidateCluster(db: MemoryDb, cluster: seq<Memory>, a: Answer, now: int, dryRun: bool, ghost j: Journal)
    returns (entry: Option<Entry>)
    requires db.Valid() && j.rows == db.rows
    modifies db
    ensures db.Valid() && (dryRun || entry.None? ==> db.rows == old(db.rows))
    ensures !dryRun ==>
              ConsolidateStep(j, cluster, a, now) == if entry.Some? then Record(j, db.rows, entry.value) else j
  {
    if |cluster| < 2 { return None; }
    if exists i :: 0 <= i < |cluster| && Reserved(cluster[i].namespace) { return None; }
    if a.summary.None? { return None; }
    if dryRun { return Some(Consolidated(cluster, "dry-run")); }
    if !a.metadataOk || exists i :: 0 <= i < |cluster| && cluster[i].id !in db.rows { return None; }
    var row := MergedRow(db.rows, cluster, a, now);
    var ok := db.Consolidate(Ids(cluster), row);
    if !ok { return None; }
    return Some(Consolidated(cluster, row.id));
  }

  method ForgetIfSuperseded(db: MemoryDb, m: Memory, all: seq<Memory>, dryRun: bool, ghost j: Journal)
    returns (entry: Option<Entry>)
    requires db.Valid() && j.rows == db.rows
    modifies db
    ensures db.Valid() && (dryRun || entry.None? ==> db.rows == old(db.rows))
    ensures entry == if Superseded(m, all) then Some(Forgot(m)) else None
    ensures !dryRun ==> ForgetStep(j, m, all) == if entry.Some? then Record(j, db.rows, entry.value) else j
  {
    var superseded := IsSuperseded(m, all);
    if !superseded { return None; }
    if !dryRun { var _ := db.Delete(m.id); }
    return Some(Forgot(m));
  }

  method ApplyPriorityFeedback(db: MemoryDb, m: Memory, now: int, dryRun: bool, ghost j: Journal)
    returns (entry: Option<Entry>)
    requires db.Valid() && j.rows == db.rows
    modifies db
    ensures db.Valid() && (dryRun || entry.None? ==> db.rows == old(db.rows))
    ensures !dryRun ==> PriorityStep(j, m, now) == if entry.Some? then Record(j, db.rows, entry.value) else j
  {
    var after := Feedback(m, now);
    if after == m.priority { return None; }
    if !dryRun { db.UpdatePriority(m.id, after, now); }
    return Some(PriorityAdjusted(m.id, m.priority, after));
  }

  function ClusterMembers(cands: seq<Memory>, picks: seq<seq<nat>>): (clusters: seq<seq<Memory>>)
    requires forall c, x :: 0 <= c < |picks| && 0 <= x < |picks[c]| ==> picks[c][x] < |cands|
    ensures |clusters| == |picks| && forall c :: 0 <= c < |picks| ==> clusters[c] == Select(cands, picks[c])
  {
    seq(|picks|, c requires 0 <= c < |picks| => Select(cands, picks[c]))
  }

  /** Pass 1. */
  method ConsolidateAll(db: MemoryDb, clusters: seq<seq<Memory>>, answer: nat -> Answer, now: int, dryRun: bool)
    returns (log: seq<Entry>, ghost j: Journal)
    requires db.Valid()
    modifies db
    ensures db.Valid() && (dryRun ==> db.rows == old(db.rows) && log == [])
    ensures !dryRun ==> j == ConsolidatePass(Opened(old(db.rows)), clusters, answer, now)
                        && j.rows == db.rows && j.log == log
  {
    log, j := [], Opened(db.rows);
    for c := 0 to |clusters|
      invariant db.Valid() && j.rows == db.rows && (dryRun ==> db.rows == old(db.rows) && log == [])
      invariant !dryRun ==> j == ConsolidatePass(Opened(old(db.rows)), clusters[..c], answer, now) && j.log == log
    {
      assert clusters[..c + 1][..c] == clusters[..c];
      var entry := ConsolidateCluster(db, clusters[c], answer(c), now, dryRun, j);
      if entry.Some? && !dryRun {
        log, j := log + [entry.value], Record(j, db.rows, entry.value);
      }
    }
    assert clusters[..|clusters|] == clusters;
  }

  /** Pass 2. */
  method ForgetAll(db: MemoryDb, cands: seq<Memory>, dryRun: bool, before: seq<Entry>, ghost j0: Journal)
    returns (log: seq<Entry>, ghost j: Journal)
    requires db.Valid() && j0.rows == db.rows && (!dryRun ==> j0.log == before)
    modifies db
    ensures db.Valid() && j.rows == db.rows && (dryRun ==> db.rows == old(db.rows) && log == before)
    ensures !dryRun ==> j == ForgetPass(j0, cands, cands) && j.log == log
  {
    log, j := before, j0;
    for i := 0 to |cands|
      invariant db.Valid() && j.rows == db.rows && (dryRun ==> db.rows == old(db.rows) && log == before)
      invariant !dryRun ==> j == ForgetPass(j0, cands[..i], cands) && j.log == log
    {
      assert cands[..i + 1][..i] == cands[..i];
      var entry := ForgetIfSuperseded(db, cands[i], cands, dryRun, j);
      if entry.Some? && !dryRun {
        log, j := log + [entry.value], Record(j, db.rows, entry.value);
      }
    }
    assert cands[..|cands|] == cands;
  }

  /** Pass 3. */
  method AdjustAll(db: MemoryDb, cands: seq<Memory>, now: int, dryRun: bool, before: seq<Entry>, ghost j0: Journal)
    returns (log: seq<Entry>, ghost j: Journal)
    requires db.Valid() && j0.rows == db.rows && (!dryRun ==> j0.log == before)
    modifies db
    ensures db.Valid() && j.rows == db.rows && (dryRun ==> db.rows == old(db.rows) && log == before)
    ensures !dryRun ==> j == PriorityPass(j0, cands, now) && j.log == log
  {
    log, j := before, j0;
    for i := 0 to |cands|
      invariant db.Valid() && j.rows == db.rows && (dryRun ==> db.rows == old(db.rows) && log == before)
      invariant !dryRun ==> j == PriorityPass(j0, cands[..i], now) && j.log == log
    {
      assert cands[..i + 1][..i] == cands[..i];
      var entry := ApplyPriorityFeedback(db, cands[i], now, dryRun, j);
      if entry.Some? && !dryRun {
        log, j := log + [entry.value], Record(j, db.rows, entry.value);
      }
    }
    assert cands[..|cands|] == cands;
  }

  /** All passes in order. A dry run changes nothing and logs nothing. */
  method RunAutonomyPasses(db: MemoryDb, tok: Tokenizer, cands: seq<Memory>, answer: nat -> Answer, now: int,
                           dryRun: bool)
    returns (log: seq<Entry>, picks: seq<seq<nat>>)
    requires db.Valid()
    modifies db
    ensures db.Valid() && (dryRun ==> db.rows == old(db.rows) && log == [])
    ensures forall c :: 0 <= c < |picks| ==> CandidateCluster(tok, cands, picks[c])
    ensures Disjoint(picks)
    ensures forall c, x :: 0 <= c < |picks| && 0 <= x < |picks[c]| ==> picks[c][x] < |cands|
    ensures !dryRun ==>
              var end := RunPasses(old(db.rows), cands, ClusterMembers(cands, picks), answer, now);
              db.rows == end.rows && log == end.log
  {
    picks := FindConsolidationClusters(tok, cands);
    assert forall c, x :: 0 <= c < |picks| && 0 <= x < |picks[c]| ==> picks[c][x] < |cands| by {
      forall c, x | 0 <= c < |picks| && 0 <= x < |picks[c]| ensures picks[c][x] < |cands| {
        assert CandidateCluster(tok, cands, picks[c]);
      }
    }
    ghost var j;
    log, j := ConsolidateAll(db, ClusterMembers(cands, picks), answer, now, dryRun);
    if dryRun { j := Opened(db.rows); }
    log, j := ForgetAll(db, cands, dryRun, log, j);
    log, j := AdjustAll(db, cands, now, dryRun, log, j);
  }

  /**
   The clusters that the passes form make a run over copies, so that
   `RunOutcome` and `RunRestoresIff` speak about every run of the passes.
   */
  lemma PassesRunOver(rows: Rows, tok: Tokenizer, cands: seq<Memory>, picks: seq<seq<nat>>, answer: nat -> Answer)
    requires WellKeyed(rows) && DistinctMemories(cands) && forall n :: answer(n).freshId !in rows
    requires forall i :: 0 <= i < |cands| ==> IsCopy(rows, cands[i])
    requires forall c :: 0 <= c < |picks| ==> CandidateCluster(tok, cands, picks[c])
    requires forall c, x :: 0 <= c < |picks| && 0 <= x < |picks[c]| ==> picks[c][x] < |cands|
    ensures RunOver(rows, cands, ClusterMembers(cands, picks), answer)
  {
    var clusters := ClusterMembers(cands, picks);
    forall c | 0 <= c < |clusters| ensures DistinctMemories(clusters[c]) {
      assert CandidateCluster(tok, cands, picks[c]);
    }
    forall c, i | 0 <= c < |clusters| && 0 <= i < |clusters[c]| ensures clusters[c][i] in cands {
      assert clusters[c][i] == cands[picks[c][i]];
    }
  }

  // ----- rollback -------------------------------------------------------

  /** Whether another listed row sits on the snapshot's title and namespace. */
  method CheckNoCollision(db: MemoryDb, m: Memory, visible: set<string>) returns (ok: bool)
    ensures ok <==> !Collides(db.rows, visible, m)
  {
    var rest := visible;
    while rest != {}
      invariant rest <= visible
      invariant forall id :: id in visible && id !in rest && id != m.id ==> !Holds(db.rows, id, Slot(m))
      decreases rest
    {
      var id :| id in rest;
      if id in db.rows && Slot(db.rows[id]) == Slot(m) && id != m.id {
        assert Holds(db.rows, id, Slot(m));
        return false;
      }
      rest := rest - {id};
    }
    return true;
  }

  method InsertEach(db: MemoryDb, ms: seq<Memory>) returns (ok: bool)
    requires db.Valid()
    modifies db
    ensures db.Valid() && (db.rows, ok) == InsertAll(old(db.rows), ms)
  {
    for i := 0 to |ms|
      invariant db.Valid() && InsertAll(old(db.rows), ms[..i]) == (db.rows, true)
    {
      assert ms[..i + 1][..i] == ms[..i];
      ghost var before := db.rows;
      var r := db.Insert(ms[i]);
      if r.Err? {
        assert InsertAll(old(db.rows), ms[..i + 1]) == (before, false);
        StaysFailed(old(db.rows), ms, i + 1);
        return false;
      }
    }
    assert ms[..|ms|] == ms;
    return true;
  }

  lemma {:induction false} StaysFailed(rows: Rows, ms: seq<Memory>, n: nat)
    requires n <= |ms| && !InsertAll(rows, ms[..n]).1
    ensures InsertAll(rows, ms) == InsertAll(rows, ms[..n])
    decreases |ms|
  {
    if n == |ms| {
      assert ms[..n] == ms;
    } else {
      var init := ms[..|ms| - 1];
      assert init[..n] == ms[..n];
      StaysFailed(rows, init, n);
    }
  }

  /** Undo one logged action. */
  method ReverseRollbackEntry(db: MemoryDb, e: Entry, visible: set<string>, now: int) returns (r: Result<bool, string>)
    requires db.Valid()
    modifies db
    ensures db.Valid() && (db.rows, r) == Reverse(old(db.rows), e, visible, now)
  {
    match e {
      case Consolidated(originals, resultId) =>
        for i := 0 to |originals|
          invariant db.rows == old(db.rows) && db.Valid()
          invariant forall k :: 0 <= k < i ==> !Collides(db.rows, visible, originals[k])
        {
          var free := CheckNoCollision(db, originals[i], visible);
          if !free { return Err("rollback aborted"); }
        }
        var existed := db.Delete(resultId);
        var ok := InsertEach(db, originals);
        return if ok then Ok(existed) else Err("insert failed");
      case Forgot(m) =>
        var free := CheckNoCollision(db, m, visible);
        if !free { return Err("rollback aborted"); }
        var inserted := db.Insert(m);
        return if inserted.Ok? then Ok(true) else Err(inserted.error);
      case PriorityAdjusted(id, before, _) =>
        db.UpdatePriority(id, before, now);
        return Ok(true);
    }
  }

  /** The loop of the command line, newest entry first; an error ends it. */
  method RollbackLast(db: MemoryDb, log: seq<Entry>, visible: seq<set<string>>, now: int) returns (ok: bool)
    requires db.Valid() && |visible| == |log|
    modifies db
    ensures db.Valid() && (db.rows, ok) == ReverseUntilError(old(db.rows), log, visible, now)
  {
    var n := |log|;
    assert log[..n] == log && visible[..n] == visible;
    while n > 0
      invariant 0 <= n <= |log| && db.Valid()
      invariant ReverseUntilError(old(db.rows), log, visible, now) ==
                ReverseUntilError(db.rows, log[..n], visible[..n], now)
    {
      n := n - 1;
      assert log[..n + 1][..n] == log[..n] && visible[..n + 1][..n] == visible[..n];
      var r := ReverseRollbackEntry(db, log[n], visible[n], now);
      if r.Err? { return false; }
    }
    return true;
  }
}
