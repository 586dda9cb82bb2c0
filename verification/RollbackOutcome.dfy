/** What a whole autonomy run and its rollback leave of every row. */
module RollbackOutcome {
  import opened Basics
  import opened MemoryStore
  import opened Clusters
  import opened Rollback
  import opened Autonomy

  /** The journal's tables and entries go together. */
  ghost predicate Tidy(j: Journal) {
    |j.tables| == |j.log| + 1 && j.rows == j.tables[|j.log|]
  }

  /** What undoing the journal makes of the row `id`, given what is there before. */
  ghost function UndoJournal(j: Journal, stored: Option<Memory>, id: string, now: int): Option<Memory>
    requires Tidy(j)
  {
    UndoAllAt(j.tables, j.log, stored, id, now)
  }

  lemma UndoRecord(j: Journal, rows: Rows, e: Entry, stored: Option<Memory>, id: string, now: int)
    requires Tidy(j)
    ensures Tidy(Record(j, rows, e))
    ensures UndoJournal(Record(j, rows, e), stored, id, now) ==
              UndoJournal(j, UndoAt(j.rows, e, stored, id, now), id, now)
  {
    var k, n := Record(j, rows, e), |j.log|;
    assert k.tables[..n + 1] == j.tables && k.log[..n] == j.log;
  }

  // ----- pass by pass ----------------------------------------------------

  lemma {:induction false} PutEachOnce(stored: Option<Memory>, ms: seq<Memory>, m: Memory)
    requires DistinctMemories(ms) && forall i :: 0 <= i < |ms| && ms[i].id == m.id ==> ms[i] == m
    ensures PutEach(stored, ms, m.id) == if m.id in Ids(ms) then Some(PutOver(stored, m)) else stored
  {
    if ms != [] {
      var init, last := ms[..|ms| - 1], ms[|ms| - 1];
      PutEachOnce(stored, init, m);
      IdsSnoc(init, last);
      assert ms == init + [last];
      if last.id == m.id { assert m.id !in Ids(init); }
    }
  }

  /** Undoing the consolidation pass puts back the copy of a row that the pass took away, once. */
  lemma {:induction false} UndoConsolidatePass(start: Rows, clusters: seq<seq<Memory>>, answer: nat -> Answer, now: int,
                                               stored: Option<Memory>, m: Memory, later: int)
    requires m.id in start && forall n :: answer(n).freshId != m.id
    requires forall c :: 0 <= c < |clusters| ==> DistinctMemories(clusters[c])
    requires forall c, i :: 0 <= c < |clusters| && 0 <= i < |clusters[c]| && clusters[c][i].id == m.id ==>
               clusters[c][i] == m
    ensures var k := ConsolidatePass(Opened(start), clusters, answer, now);
            && Tidy(k) && (m.id in k.rows ==> k.rows[m.id] == start[m.id])
            && UndoJournal(k, stored, m.id, later) == if m.id in k.rows then stored else Some(PutOver(stored, m))
    decreases |clusters|
  {
    if clusters != [] {
      var n := |clusters| - 1;
      var k := ConsolidatePass(Opened(start), clusters[..n], answer, now);
      UndoConsolidatePass(start, clusters[..n], answer, now, stored, m, later);
      var after := ConsolidateStep(k, clusters[n], answer(n), now);
      if after != k {
        var e := Consolidated(clusters[n], answer(n).freshId);
        UndoRecord(k, after.rows, e, stored, m.id, later);
        PutEachOnce(stored, clusters[n], m);
        UndoConsolidatePass(start, clusters[..n], answer, now, PutEach(stored, clusters[n], m.id), m, later);
      }
    }
  }

  /** Undoing the forget pass puts the copy back if the pass removed the row, or found it gone with its title free. */
  lemma {:induction false} UndoForgetPass(start: Rows, j: Journal, cands: seq<Memory>, all: seq<Memory>,
                                          stored: Option<Memory>, m: Memory, later: int)
    requires WellKeyed(start) && MidRun(start, j.rows) && Tidy(j) && IsCopy(start, m) && DistinctMemories(cands)
    requires forall i :: 0 <= i < |cands| ==> IsCopy(start, cands[i]) && (cands[i].id == m.id ==> cands[i] == m)
    ensures var k := ForgetPass(j, cands, all);
            && Tidy(k)
            && UndoJournal(k, stored, m.id, later) ==
                 UndoJournal(j, if m in cands && Superseded(m, all) && (m.id in j.rows || Free(j.rows, m))
                                then Some(PutOver(stored, m)) else stored, m.id, later)
  {
    if cands != [] {
      var init, last := cands[..|cands| - 1], cands[|cands| - 1];
      assert cands == init + [last];
      UndoForgetPass(start, j, init, all, stored, m, later);
      var k := ForgetPass(j, init, all);
      if Superseded(last, all) {
        UndoRecord(k, Delete(k.rows, last.id), Forgot(last), stored, m.id, later);
        if last.id == m.id {
          assert last == m && m !in init;
          ForgetsOthers(start, j, init, all, m);
          UndoForgetPass(start, j, init, all, UndoAt(k.rows, Forgot(m), stored, m.id, later), m, later);
        }
      }
    }
  }

  /** Forgetting other originals changes neither whether a row is there nor whether its title is free. */
  lemma ForgetsOthers(start: Rows, j: Journal, cands: seq<Memory>, all: seq<Memory>, m: Memory)
    requires WellKeyed(start) && MidRun(start, j.rows) && IsCopy(start, m)
    requires forall i :: 0 <= i < |cands| ==> IsCopy(start, cands[i]) && cands[i].id != m.id
    ensures var rows := ForgetPass(j, cands, all).rows;
            (m.id in rows <==> m.id in j.rows) && (Free(rows, m) <==> Free(j.rows, m))
  {
    ForgetPassRemoves(j, cands, all);
    var rows := ForgetPass(j, cands, all).rows;
    forall h ensures Holds(j.rows, h, Slot(m)) <==> Holds(rows, h, Slot(m)) {
      if h in start && h in j.rows { assert h != m.id ==> Slot(start[h]) != Slot(start[m.id]); }
    }
  }

  /** The priority pass on one row, forward and back. */
  function Adjusted(stored: Option<Memory>, priority: int, t: int): Option<Memory> {
    if stored.Some? then Some(stored.value.(priority := priority, updatedAt := t)) else None
  }

  lemma {:induction false} UndoPriorityPass(j: Journal, cands: seq<Memory>, now: int, stored: Option<Memory>,
                                            m: Memory, later: int)
    requires Tidy(j) && DistinctMemories(cands)
    requires forall i :: 0 <= i < |cands| && cands[i].id == m.id ==> cands[i] == m
    ensures var k, moved := PriorityPass(j, cands, now), m in cands && Feedback(m, now) != m.priority;
            && Tidy(k)
            && Lookup(k.rows, m.id) ==
                 (if moved then Adjusted(Lookup(j.rows, m.id), Feedback(m, now), now) else Lookup(j.rows, m.id))
            && UndoJournal(k, stored, m.id, later) ==
                 UndoJournal(j, if moved then Adjusted(stored, m.priority, later) else stored, m.id, later)
  {
    if cands != [] {
      var init, last := cands[..|cands| - 1], cands[|cands| - 1];
      assert cands == init + [last];
      UndoPriorityPass(j, init, now, stored, m, later);
      var k, p := PriorityPass(j, init, now), Feedback(last, now);
      if p != last.priority {
        var e := PriorityAdjusted(last.id, last.priority, p);
        UndoRecord(k, SetPriority(k.rows, last.id, p, now), e, stored, m.id, later);
        if last.id == m.id {
          assert last == m && m !in init;
          UndoPriorityPass(j, init, now, UndoAt(k.rows, e, stored, m.id, later), m, later);
        }
      }
    }
  }

  // ----- the whole run ---------------------------------------------------

  /** A run over copies of the table's rows: distinct ids, clusters of distinct candidates, new ids for the results. */
  ghost predicate RunOver(rows: Rows, cands: seq<Memory>, clusters: seq<seq<Memory>>, answer: nat -> Answer) {
    && WellKeyed(rows) && DistinctMemories(cands) && (forall n :: answer(n).freshId !in rows)
    && (forall i :: 0 <= i < |cands| ==> IsCopy(rows, cands[i]))
    && (forall c :: 0 <= c < |clusters| ==> DistinctMemories(clusters[c]))
    && (forall c, i :: 0 <= c < |clusters| && 0 <= i < |clusters[c]| ==> clusters[c][i] in cands)
  }

  /** Where consolidation and forgetting come across one row. */
  datatype Fate = Kept | Removed | RemovedTwice

  /** The copy `m` after the consolidation pass left the table `merged`. */
  ghost function FateOf(merged: Rows, cands: seq<Memory>, m: Memory): Fate {
    if m.id in merged then if Superseded(m, cands) then Removed else Kept
    else if Superseded(m, cands) && Free(merged, m) then RemovedTwice
    else Removed
  }

  /**
   The row after the rollback. A row that stayed has its old priority back, as the
   copy knew it; a row that was removed is its copy; and a copy that was put back
   twice has lost its expiry if it is long-tier.
   */
  ghost function Outcome(fate: Fate, row: Memory, m: Memory, now: int, later: int): Memory {
    match fate
    case Kept => if Feedback(m, now) == m.priority then row else row.(priority := m.priority, updatedAt := later)
    case Removed => m
    case RemovedTwice => if m.tier.Long? then m.(expiresAt := None) else m
  }

  lemma UndoRun(rows: Rows, cands: seq<Memory>, clusters: seq<seq<Memory>>, answer: nat -> Answer, now: int,
                m: Memory, later: int)
    requires RunOver(rows, cands, clusters, answer) && m in cands
    ensures var end := RunPasses(rows, cands, clusters, answer, now);
            var merged := ConsolidatePass(Opened(rows), clusters, answer, now).rows;
            Tidy(end) && UndoJournal(end, Lookup(end.rows, m.id), m.id, later)
                         == Some(Outcome(FateOf(merged, cands, m), rows[m.id], m, now, later))
  {
    var j := ConsolidatePass(Opened(rows), clusters, answer, now);
    var k := ForgetPass(j, cands, cands);
    var end := PriorityPass(k, cands, now);
    OnlyCopy(cands, m);
    UndoTwoPasses(rows, cands, clusters, answer, now, None, m, later);
    ForgetPassAt(j, cands, m);
    var stored := Lookup(end.rows, m.id);
    UndoPriorityPass(k, cands, now, stored, m, later);
    var first := if Feedback(m, now) != m.priority then Adjusted(stored, m.priority, later) else stored;
    UndoTwoPasses(rows, cands, clusters, answer, now, first, m, later);
  }

  /** Undoing the forget pass and then the consolidation pass. */
  lemma UndoTwoPasses(rows: Rows, cands: seq<Memory>, clusters: seq<seq<Memory>>, answer: nat -> Answer, now: int,
                      stored: Option<Memory>, m: Memory, later: int)
    requires RunOver(rows, cands, clusters, answer) && m in cands
    ensures var j := ConsolidatePass(Opened(rows), clusters, answer, now);
            var k := ForgetPass(j, cands, cands);
            && Tidy(k) && (m.id in j.rows ==> j.rows[m.id] == rows[m.id])
            && UndoJournal(k, stored, m.id, later) ==
                 match FateOf(j.rows, cands, m)
                 case Kept => stored
                 case Removed => Some(PutOver(stored, m))
                 case RemovedTwice => Some(Upsert(PutOver(stored, m), m))
  {
    var j := ConsolidatePass(Opened(rows), clusters, answer, now);
    OnlyCopy(cands, m);
    forall c, i | 0 <= c < |clusters| && 0 <= i < |clusters[c]| ensures clusters[c][i] in cands {}
    ConsolidatePassKeeps(rows, clusters, answer, now);
    UndoConsolidatePass(rows, clusters, answer, now, stored, m, later);
    UndoForgetPass(rows, j, cands, cands, stored, m, later);
    UndoConsolidatePass(rows, clusters, answer, now, Some(PutOver(stored, m)), m, later);
  }

  lemma OnlyCopy(cands: seq<Memory>, m: Memory)
    requires DistinctMemories(cands) && m in cands
    ensures forall c :: c in cands && c.id == m.id ==> c == m
  {
  }

  /** What the forget pass leaves of a candidate's row. */
  lemma ForgetPassAt(j: Journal, cands: seq<Memory>, m: Memory)
    requires DistinctMemories(cands) && m in cands
    ensures Lookup(ForgetPass(j, cands, cands).rows, m.id) ==
            if Superseded(m, cands) then None else Lookup(j.rows, m.id)
  {
    ForgetPassRemoves(j, cands, cands);
    OnlyCopy(cands, m);
    var i :| 0 <= i < |cands| && cands[i] == m;
  }

  /**
   Run and rollback together, for every candidate: the row that comes back, in
   full, from the table after the consolidation pass alone.
   */
  lemma RunOutcome(rows: Rows, cands: seq<Memory>, clusters: seq<seq<Memory>>, answer: nat -> Answer, now: int,
                   visible: seq<set<string>>, later: int, m: Memory)
    requires RunOver(rows, cands, clusters, answer) && m in cands
    requires |visible| == |RunPasses(rows, cands, clusters, answer, now).log|
    ensures var end := RunPasses(rows, cands, clusters, answer, now);
            var back := ReverseAll(end.rows, end.log, visible, later);
            var merged := ConsolidatePass(Opened(rows), clusters, answer, now).rows;
            m.id in back && back[m.id] == Outcome(FateOf(merged, cands, m), rows[m.id], m, now, later)
  {
    RunLeavesTrail(rows, cands, clusters, answer, now);
    var end := RunPasses(rows, cands, clusters, answer, now);
    RollbackRowByRow(end.tables, end.log, visible, later);
    UndoRun(rows, cands, clusters, answer, now, m, later);
  }

  /** The ids are those of before, and rows that are no candidates come back as they were. */
  lemma RunSparesOthers(rows: Rows, cands: seq<Memory>, clusters: seq<seq<Memory>>, answer: nat -> Answer, now: int,
                        visible: seq<set<string>>, later: int, id: string)
    requires RunOver(rows, cands, clusters, answer)
    requires |visible| == |RunPasses(rows, cands, clusters, answer, now).log|
    ensures var end := RunPasses(rows, cands, clusters, answer, now);
            var back := ReverseAll(end.rows, end.log, visible, later);
            && back.Keys == rows.Keys
            && (id in rows && (forall c :: c in cands ==> c.id != id) ==> back[id] == rows[id])
  {
    RunLeavesTrail(rows, cands, clusters, answer, now);
    var end := RunPasses(rows, cands, clusters, answer, now);
    RollbackRowByRow(end.tables, end.log, visible, later);
    if id in rows && forall c :: c in cands ==> c.id != id {
      UndoRunElsewhere(rows, cands, clusters, answer, now, id, later);
    }
  }

  lemma UndoRunElsewhere(rows: Rows, cands: seq<Memory>, clusters: seq<seq<Memory>>, answer: nat -> Answer, now: int,
                         id: string, later: int)
    requires RunOver(rows, cands, clusters, answer) && id in rows && forall c :: c in cands ==> c.id != id
    ensures var end := RunPasses(rows, cands, clusters, answer, now);
            Tidy(end) && UndoJournal(end, Lookup(end.rows, id), id, later) == Some(rows[id])
  {
    var m := rows[id];
    var j := ConsolidatePass(Opened(rows), clusters, answer, now);
    var k := ForgetPass(j, cands, cands);
    forall c, i | 0 <= c < |clusters| && 0 <= i < |clusters[c]| ensures clusters[c][i] in cands {}
    ConsolidatePassKeeps(rows, clusters, answer, now);
    StaysMerged(rows, clusters, answer, now, id);
    ForgetPassRemoves(j, cands, cands);
    UndoForgetPass(rows, j, cands, cands, Some(m), m, later);
    UndoPriorityPass(k, cands, now, Some(m), m, later);
    UndoConsolidatePass(rows, clusters, answer, now, Some(m), m, later);
  }

  lemma {:induction false} StaysMerged(start: Rows, clusters: seq<seq<Memory>>, answer: nat -> Answer, now: int,
                                       id: string)
    requires id in start && forall n :: answer(n).freshId != id
    requires forall c, i :: 0 <= c < |clusters| && 0 <= i < |clusters[c]| ==> clusters[c][i].id != id
    ensures Lookup(ConsolidatePass(Opened(start), clusters, answer, now).rows, id) == Some(start[id])
  {
    if clusters != [] {
      StaysMerged(start, clusters[..|clusters| - 1], answer, now, id);
    }
  }

  /** The same row but for the time of its update. */
  predicate SameUpToTime(x: Memory, y: Memory) {
    x == y.(updatedAt := x.updatedAt)
  }

  /**
   Exactly when a row survives run and rollback unchanged, up to its update time:
   if it stayed, when feedback left it alone or its copy had its priority; if it
   was removed, when its copy was as good as it, after the loss of the expiry
   that a long-tier copy suffers when it is put back twice.
   */
  lemma RunRestoresIff(rows: Rows, cands: seq<Memory>, clusters: seq<seq<Memory>>, answer: nat -> Answer, now: int,
                       visible: seq<set<string>>, later: int, m: Memory)
    requires RunOver(rows, cands, clusters, answer) && m in cands
    requires |visible| == |RunPasses(rows, cands, clusters, answer, now).log|
    ensures var end := RunPasses(rows, cands, clusters, answer, now);
            var back := ReverseAll(end.rows, end.log, visible, later);
            var fate := FateOf(ConsolidatePass(Opened(rows), clusters, answer, now).rows, cands, m);
            && m.id in back
            && (SameUpToTime(back[m.id], rows[m.id]) <==>
                  match fate
                  case Kept => Feedback(m, now) == m.priority || m.priority == rows[m.id].priority
                  case Removed => SameUpToTime(m, rows[m.id])
                  case RemovedTwice =>
                    SameUpToTime(m.(expiresAt := if m.tier.Long? then None else m.expiresAt), rows[m.id]))
  {
    RunOutcome(rows, cands, clusters, answer, now, visible, later, m);
  }

  /** With copies as good as their rows only one thing can be lost. */
  lemma CurrentCopiesRestoredIff(rows: Rows, cands: seq<Memory>, clusters: seq<seq<Memory>>, answer: nat -> Answer,
                                 now: int, visible: seq<set<string>>, later: int, m: Memory)
    requires RunOver(rows, cands, clusters, answer) && m in cands && SameUpToTime(m, rows[m.id])
    requires |visible| == |RunPasses(rows, cands, clusters, answer, now).log|
    ensures var end := RunPasses(rows, cands, clusters, answer, now);
            var back := ReverseAll(end.rows, end.log, visible, later);
            var fate := FateOf(ConsolidatePass(Opened(rows), clusters, answer, now).rows, cands, m);
            && m.id in back
            && (SameUpToTime(back[m.id], rows[m.id]) <==> !(fate.RemovedTwice? && m.tier.Long? && m.expiresAt.Some?))
  {
    RunRestoresIff(rows, cands, clusters, answer, now, visible, later, m);
  }

  // ----- the two ways a row is lost ---------------------------------------

  /** Any row whose copy is out of date and superseded: forgetting and undoing puts the copy in its place. */
  lemma StaleCopyReplacesRow(r: Memory, m: Memory, o: Memory, answer: nat -> Answer, now: int,
                             visible: seq<set<string>>, later: int)
    requires m.id == r.id && Slot(m) == Slot(r) && !SameUpToTime(m, r)
    requires Supersedes(o, m) && o.id != r.id && Slot(o) != Slot(r)
    requires forall n :: answer(n).freshId != r.id && answer(n).freshId != o.id
    requires var rows: Rows := map[r.id := r, o.id := o]; |visible| == |RunPasses(rows, [m, o], [], answer, now).log|
    ensures var rows: Rows := map[r.id := r, o.id := o];
            var end := RunPasses(rows, [m, o], [], answer, now);
            var back := ReverseAll(end.rows, end.log, visible, later);
            m.id in back && back[m.id] == m && !SameUpToTime(back[m.id], r)
  {
    var rows: Rows := map[r.id := r, o.id := o];
    var cands := [m, o];
    assert o in cands && Find(cands, o.id) == Some(o);
    RunOutcome(rows, cands, [], answer, now, visible, later, m);
  }

  /** The summary comes, the merged row fits, and so the pass merges its only cluster. */
  ghost predicate Merges(rows: Rows, cluster: seq<Memory>, a: Answer, now: int) {
    && |cluster| >= 2 && AllIn(cluster, rows) && (forall i :: 0 <= i < |cluster| ==> !Reserved(cluster[i].namespace))
    && a.summary.Some? && a.metadataOk && a.freshId !in rows
    && Free(rows, MergedRow(rows, cluster, a, now))
  }

  lemma OneClusterPass(rows: Rows, cluster: seq<Memory>, answer: nat -> Answer, now: int)
    requires Merges(rows, cluster, answer(0), now)
    ensures var row := MergedRow(rows, cluster, answer(0), now);
            ConsolidatePass(Opened(rows), [cluster], answer, now).rows == rows[row.id := row] - Ids(cluster)
  {
    assert [cluster][..0] == [];
    assert ConsolidatePass(Opened(rows), [cluster][..0], answer, now) == Opened(rows);
  }

  /** A current long-tier copy with an expiry, merged with others and superseded as well: the expiry is lost. */
  lemma LongRowLosesExpiry(rows: Rows, cands: seq<Memory>, cluster: seq<Memory>, answer: nat -> Answer, now: int,
                           visible: seq<set<string>>, later: int, m: Memory)
    requires RunOver(rows, cands, [cluster], answer) && Merges(rows, cluster, answer(0), now)
    requires m in cluster && m in cands && m == rows[m.id] && m.tier.Long? && m.expiresAt.Some? && Superseded(m, cands)
    requires |visible| == |RunPasses(rows, cands, [cluster], answer, now).log|
    ensures var end := RunPasses(rows, cands, [cluster], answer, now);
            var back := ReverseAll(end.rows, end.log, visible, later);
            m.id in back && back[m.id] == rows[m.id].(expiresAt := None)
  {
    OneClusterPass(rows, cluster, answer, now);
    var merged := ConsolidatePass(Opened(rows), [cluster], answer, now).rows;
    var i :| 0 <= i < |cluster| && cluster[i] == m;
    assert m.id in Ids(cluster);
    assert Holds(rows, m.id, Slot(m));
    assert Free(merged, m);
    RunOutcome(rows, cands, [cluster], answer, now, visible, later, m);
  }

  /** Three rows are enough for that. */
  lemma ThreeRowsSuffice(m: Memory, q: Memory, o: Memory, answer: nat -> Answer, now: int)
    requires Supersedes(o, m) && !Reserved(m.namespace) && !Reserved(q.namespace)
    requires m.id != q.id && m.id != o.id && q.id != o.id
    requires Slot(m) != Slot(q) && Slot(m) != Slot(o) && Slot(q) != Slot(o)
    requires forall n :: answer(n).freshId != m.id && answer(n).freshId != q.id && answer(n).freshId != o.id
    requires answer(0).summary.Some? && answer(0).metadataOk
    requires var slot := ("[consolidated] " + m.title, m.namespace); slot != Slot(q) && slot != Slot(o)
    ensures var rows: Rows := map[m.id := m, q.id := q, o.id := o];
            && RunOver(rows, [m, q, o], [[m, q]], answer) && Superseded(m, [m, q, o])
            && Merges(rows, [m, q], answer(0), now)
  {
    var rows: Rows := map[m.id := m, q.id := q, o.id := o];
    ThreeRowsRun(rows, m, q, o, answer);
    TwoOfThreeMerge(rows, m, q, o, answer(0), now);
    assert Find([m, q, o], o.id) == Some(o);
  }

  lemma ThreeRowsRun(rows: Rows, m: Memory, q: Memory, o: Memory, answer: nat -> Answer)
    requires rows == map[m.id := m, q.id := q, o.id := o] && forall n :: answer(n).freshId !in rows
    requires m.id != q.id && m.id != o.id && q.id != o.id
    requires Slot(m) != Slot(q) && Slot(m) != Slot(o) && Slot(q) != Slot(o)
    ensures RunOver(rows, [m, q, o], [[m, q]], answer)
  {
    var cands, clusters := [m, q, o], [[m, q]];
    assert cands[0] == m && cands[1] == q && clusters[0] == [m, q];
    forall c, i | 0 <= c < |clusters| && 0 <= i < |clusters[c]| ensures clusters[c][i] in cands {
      assert clusters[c][i] == m || clusters[c][i] == q;
    }
  }

  lemma TwoOfThreeMerge(rows: Rows, m: Memory, q: Memory, o: Memory, a: Answer, now: int)
    requires rows == map[m.id := m, q.id := q, o.id := o] && !Reserved(m.namespace) && !Reserved(q.namespace)
    requires m.id != q.id && m.id != o.id && q.id != o.id && a.summary.Some? && a.metadataOk && a.freshId !in rows
    requires var slot := ("[consolidated] " + m.title, m.namespace); slot != Slot(q) && slot != Slot(o)
    ensures Merges(rows, [m, q], a, now)
  {
    var cluster := [m, q];
    assert cluster[0] == m && cluster[1] == q;
    var row := MergedRow(rows, cluster, a, now);
    assert Slot(row) != Slot(m) by { assert |row.title| == |m.title| + 15; }
  }
}
