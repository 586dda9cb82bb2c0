/** What the command line's rollback loop leaves when it stops at an error. */
module RollbackStop {
  import opened Basics
  import opened MemoryStore
  import opened Rollback
  import opened Autonomy
  import opened RollbackOutcome

  /** The ids an entry can put back. */
  function SnapshotIds(e: Entry): set<string> {
    match e
    case Consolidated(originals, _) => Ids(originals)
    case Forgot(m) => {m.id}
    case PriorityAdjusted(_, _, _) => {}
  }

  lemma {:induction false} InsertAllAddsOnly(rows: Rows, ms: seq<Memory>, id: string)
    requires id !in rows && id !in Ids(ms)
    ensures id !in InsertAll(rows, ms).0
  {
    if ms != [] {
      var init, last := ms[..|ms| - 1], ms[|ms| - 1];
      IdsSnoc(init, last);
      assert ms == init + [last];
      InsertAllAddsOnly(rows, init, id);
    }
  }

  /** Undoing an entry, with success or not, adds no other id. */
  lemma ReverseAddsOnly(rows: Rows, e: Entry, visible: set<string>, now: int, id: string)
    requires id !in rows && id !in SnapshotIds(e)
    ensures id !in Reverse(rows, e, visible, now).0
  {
    if e.Consolidated? { InsertAllAddsOnly(Delete(rows, e.resultId), e.originals, id); }
  }

  /** No entry after a forget can put back the row it forgot. */
  ghost predicate ForgottenOnce(log: seq<Entry>) {
    forall i, j :: 0 <= i < j < |log| && log[i].Forgot? ==> log[i].snapshot.id !in SnapshotIds(log[j])
  }

  /** What a forget found gone is not in the table either. */
  ghost predicate StillGone(tables: seq<Rows>, log: seq<Entry>, back: Rows)
    requires |tables| == |log| + 1
  {
    forall j :: 0 <= j < |log| && log[j].Forgot? && log[j].snapshot.id !in tables[j] ==> log[j].snapshot.id !in back
  }

  /** Some forgotten row is not there. */
  ghost predicate Lost(log: seq<Entry>, back: Rows) {
    exists j :: 0 <= j < |log| && log[j].Forgot? && log[j].snapshot.id !in back
  }

  lemma StillGoneAfter(tables: seq<Rows>, log: seq<Entry>, back: Rows, visible: set<string>, now: int)
    requires |tables| == |log| + 1 && log != [] && ForgottenOnce(log) && StillGone(tables, log, back)
    ensures var n := |log| - 1;
            ForgottenOnce(log[..n]) && StillGone(tables[..n + 1], log[..n], Reverse(back, log[n], visible, now).0)
  {
    var n := |log| - 1;
    forall j | 0 <= j < n && log[j].Forgot? && log[j].snapshot.id !in tables[j]
      ensures log[j].snapshot.id !in Reverse(back, log[n], visible, now).0
    {
      ReverseAddsOnly(back, log[n], visible, now, log[j].snapshot.id);
    }
  }

  lemma LostInPrefix(log: seq<Entry>, n: nat, back: Rows)
    requires n <= |log| && Lost(log[..n], back)
    ensures Lost(log, back)
  {
    var j :| 0 <= j < n && log[..n][j].Forgot? && log[..n][j].snapshot.id !in back;
    assert log[j] == log[..n][j];
  }

  lemma RefusedChangesNothing(rows: Rows, m: Memory, visible: set<string>, now: int)
    requires Reverse(rows, Forgot(m), visible, now).1.Err?
    ensures Reverse(rows, Forgot(m), visible, now).0 == rows
  {
  }

  /** A refusal stops the loop, and the row whose entry was refused stays away. */
  lemma {:induction false} RefusalLosesRow(tables: seq<Rows>, log: seq<Entry>, visible: seq<set<string>>, now: int,
                                           back: Rows)
    requires Trail(tables, log) && WellKeyed(tables[0]) && |visible| == |log|
    requires Matches(tables[0], tables[|log|], back, {}) && ForgottenOnce(log) && StillGone(tables, log, back)
    requires !NoneRefused(tables, log, visible)
    ensures Lost(log, ReverseUntilError(back, log, visible, now).0)
    decreases |log|
  {
    var n := |log| - 1;
    var after := Reverse(back, log[n], visible[n], now).0;
    UndoOne(tables[0], tables[n], log[n], tables[n + 1], back, visible[n], now);
    if log[n].Forgot? && Refused(tables[0], tables[n], visible[n], log[n].snapshot) {
      RefusedChangesNothing(back, log[n].snapshot, visible[n], now);
      assert log[n].snapshot.id !in back;
    } else {
      TrailPrefix(tables, log, n);
      StillGoneAfter(tables, log, back, visible[n], now);
      NoneRefusedSplits(tables, log, visible);
      RefusalLosesRow(tables[..n + 1], log[..n], visible[..n], now, after);
      LostInPrefix(log, n, ReverseUntilError(after, log[..n], visible[..n], now).0);
    }
  }

  /** An original that is gone stays gone until the end of the run. */
  lemma {:induction false} GoneStaysGone(tables: seq<Rows>, log: seq<Entry>, id: string, j: nat, k: nat)
    requires Trail(tables, log) && j <= k <= |log| && id in tables[0] && id !in tables[j]
    ensures id !in tables[k]
  {
    if j < k {
      GoneStaysGone(tables, log, id, j, k - 1);
      assert Recorded(tables[0], tables[k - 1], log[k - 1], tables[k]);
    }
  }

  lemma StillGoneAtEnd(tables: seq<Rows>, log: seq<Entry>)
    requires Trail(tables, log)
    ensures StillGone(tables, log, tables[|log|])
  {
    forall j | 0 <= j < |log| && log[j].Forgot? && log[j].snapshot.id !in tables[j]
      ensures log[j].snapshot.id !in tables[|log|]
    {
      assert Recorded(tables[0], tables[j], log[j], tables[j + 1]);
      GoneStaysGone(tables, log, log[j].snapshot.id, j, |log|);
    }
  }

  // ----- the log of a run ------------------------------------------------

  lemma ForgottenOnceSnoc(log: seq<Entry>, e: Entry)
    requires ForgottenOnce(log)
    requires forall i :: 0 <= i < |log| && log[i].Forgot? ==> log[i].snapshot.id !in SnapshotIds(e)
    ensures ForgottenOnce(log + [e])
  {
  }

  lemma {:induction false} NothingForgotten(start: Rows, clusters: seq<seq<Memory>>, answer: nat -> Answer, now: int)
    ensures forall e :: e in ConsolidatePass(Opened(start), clusters, answer, now).log ==> !e.Forgot?
  {
    if clusters != [] { NothingForgotten(start, clusters[..|clusters| - 1], answer, now); }
  }

  lemma {:induction false} ForgetsEachOnce(j: Journal, cands: seq<Memory>, all: seq<Memory>)
    requires DistinctMemories(cands) && forall e :: e in j.log ==> !e.Forgot?
    ensures var log := ForgetPass(j, cands, all).log;
            ForgottenOnce(log) && forall e :: e in log && e.Forgot? ==> e.snapshot in cands
  {
    if cands != [] {
      var init, m := cands[..|cands| - 1], cands[|cands| - 1];
      ForgetsEachOnce(j, init, all);
      assert cands == init + [m];
      var log := ForgetPass(j, init, all).log;
      forall i | 0 <= i < |log| && log[i].Forgot? ensures log[i].snapshot.id != m.id {
        assert log[i] in log;
        var c :| 0 <= c < |init| && init[c] == log[i].snapshot;
        assert cands[c].id != m.id;
      }
      if Superseded(m, all) { ForgottenOnceSnoc(log, Forgot(m)); }
    } else {
      assert forall i :: 0 <= i < |j.log| ==> j.log[i] in j.log;
    }
  }

  lemma {:induction false} AdjustsForgetNothing(j: Journal, cands: seq<Memory>, now: int)
    requires ForgottenOnce(j.log)
    ensures ForgottenOnce(PriorityPass(j, cands, now).log)
  {
    if cands != [] {
      var init, m := cands[..|cands| - 1], cands[|cands| - 1];
      AdjustsForgetNothing(j, init, now);
      ForgottenOnceSnoc(PriorityPass(j, init, now).log, PriorityAdjusted(m.id, m.priority, Feedback(m, now)));
    }
  }

  /**
   The command line's loop after a whole run: all ids are back exactly when no
   entry is refused, and then no other id is there.
   */
  lemma RollbackLastRestoresIdsIff(rows: Rows, cands: seq<Memory>, clusters: seq<seq<Memory>>, answer: nat -> Answer,
                                   now: int, visible: seq<set<string>>, later: int)
    requires RunOver(rows, cands, clusters, answer)
    requires |visible| == |RunPasses(rows, cands, clusters, answer, now).log|
    ensures var end := RunPasses(rows, cands, clusters, answer, now);
            |end.tables| == |end.log| + 1 &&
            var (back, done) := ReverseUntilError(end.rows, end.log, visible, later);
            && (rows.Keys <= back.Keys <==> NoneRefused(end.tables, end.log, visible))
            && (rows.Keys <= back.Keys ==> done && back.Keys == rows.Keys)
  {
    var end := RunPasses(rows, cands, clusters, answer, now);
    RunLeavesTrail(rows, cands, clusters, answer, now);
    RunEndMatches(end.tables, end.log);
    if NoneRefused(end.tables, end.log, visible) {
      RollbackLastCompletesIff(end.tables, end.log, visible, later);
      RollbackRowByRow(end.tables, end.log, visible, later);
    } else {
      RunForgetsOnce(rows, cands, clusters, answer, now);
      StillGoneAtEnd(end.tables, end.log);
      RefusalLosesRow(end.tables, end.log, visible, later, end.rows);
      LostIdIsOriginal(end.tables, end.log, ReverseUntilError(end.rows, end.log, visible, later).0);
    }
  }

  lemma RunForgetsOnce(rows: Rows, cands: seq<Memory>, clusters: seq<seq<Memory>>, answer: nat -> Answer, now: int)
    requires DistinctMemories(cands)
    ensures ForgottenOnce(RunPasses(rows, cands, clusters, answer, now).log)
  {
    var j := ConsolidatePass(Opened(rows), clusters, answer, now);
    NothingForgotten(rows, clusters, answer, now);
    ForgetsEachOnce(j, cands, cands);
    AdjustsForgetNothing(ForgetPass(j, cands, cands), cands, now);
  }

  lemma LostIdIsOriginal(tables: seq<Rows>, log: seq<Entry>, back: Rows)
    requires Trail(tables, log) && Lost(log, back)
    ensures !(tables[0].Keys <= back.Keys)
  {
    var j :| 0 <= j < |log| && log[j].Forgot? && log[j].snapshot.id !in back;
    assert Recorded(tables[0], tables[j], log[j], tables[j + 1]);
  }
}
