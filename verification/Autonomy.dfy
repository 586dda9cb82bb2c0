/** The autonomy passes: consolidate, forget what is superseded, adjust priorities, and log how to undo it. */
module Autonomy {
  import opened Basics
  import opened MemoryStore
  import opened Clusters
  import opened Rollback

  // ----- forgetting -----------------------------------------------------

  /** `other` is listed as contradicting `m`, is strictly newer and at least as confident. */
  predicate Supersedes(other: Memory, m: Memory) {
    && Some(other.id) in m.metadata.contradictions
    && other.updatedAt > m.updatedAt && other.confidence >= m.confidence
  }

  /** What a lookup by id among all candidates finds: of several copies the last. */
  function Find(all: seq<Memory>, id: string): (r: Option<Memory>)
    ensures r.Some? ==> r.value in all && r.value.id == id
  {
    if all == [] then None
    else if all[|all| - 1].id == id then Some(all[|all| - 1])
    else Find(all[..|all| - 1], id)
  }

  /** A lookup sees the candidate added last under the id, and no other change. */
  lemma FindLaws(all: seq<Memory>, m: Memory, id: string)
    ensures Find([], id) == None
    ensures Find(all + [m], id) == if m.id == id then Some(m) else Find(all, id)
  {
    assert (all + [m])[..|all|] == all;
  }

  predicate Superseded(m: Memory, all: seq<Memory>) {
    exists o :: o in all && Find(all, o.id) == Some(o) && Supersedes(o, m)
  }

  ghost predicate DistinctMemories(all: seq<Memory>) {
    forall i, j :: 0 <= i < j < |all| ==> all[i].id != all[j].id
  }

  /** The walk over the contradiction list, looking ids up among all candidates. */
  method IsSuperseded(m: Memory, all: seq<Memory>) returns (superseded: bool)
    ensures superseded <==> Superseded(m, all)
    ensures superseded <==>
              exists o :: o in all && Find(all, o.id) == Some(o) && Some(o.id) in m.metadata.contradictions
                          && o.updatedAt > m.updatedAt && o.confidence >= m.confidence
  {
    assert forall o :: Supersedes(o, m) <==>
             Some(o.id) in m.metadata.contradictions && o.updatedAt > m.updatedAt && o.confidence >= m.confidence;
    var byId := IndexById(all);
    var cs := m.metadata.contradictions;
    for i := 0 to |cs|
      invariant forall o :: o in all && Find(all, o.id) == Some(o) && Some(o.id) in cs[..i] ==> !Supersedes(o, m)
    {
      assert cs[..i + 1] == cs[..i] + [cs[i]];
      if cs[i].None? { continue; }
      var id := cs[i].value;
      if id in byId {
        var other := byId[id];
        if other.updatedAt > m.updatedAt && other.confidence >= m.confidence {
          assert Supersedes(other, m);
          return true;
        }
      }
    }
    assert cs[..|cs|] == cs;
    return false;
  }

  method IndexById(all: seq<Memory>) returns (byId: map<string, Memory>)
    ensures forall id :: Find(all, id) == if id in byId then Some(byId[id]) else None
  {
    byId := map[];
    for i := 0 to |all|
      invariant forall id :: Find(all[..i], id) == if id in byId then Some(byId[id]) else None
    {
      assert all[..i + 1][..i] == all[..i];
      byId := byId[all[i].id := all[i]];
    }
    assert all[..|all|] == all;
  }

  /** Each memory of the chain is superseded by the next. */
  ghost predicate Succession(chain: seq<Memory>, all: seq<Memory>) {
    && (forall i :: 0 <= i < |chain| ==> chain[i] in all)
    && (forall i :: 0 <= i < |chain| - 1 ==> Supersedes(chain[i + 1], chain[i]))
  }

  ghost function NewerThan(all: seq<Memory>, t: int): set<nat> {
    set i: nat | i < |all| && all[i].updatedAt > t
  }

  lemma NewerShrinks(all: seq<Memory>, m: Memory, o: Memory)
    requires o in all && o.updatedAt > m.updatedAt
    ensures |NewerThan(all, o.updatedAt)| < |NewerThan(all, m.updatedAt)|
  {
    var small, big := NewerThan(all, o.updatedAt), NewerThan(all, m.updatedAt);
    var i :| 0 <= i < |all| && all[i] == o;
    assert i in big && i !in small;
    assert small <= big - {i};
    assert big - {i} == small + ((big - {i}) - small);
  }

  /**
   From every candidate a chain of superseding candidates, strictly newer and at
   least as confident at each step, leads to one that is not superseded.
   */
  lemma {:induction false} SuccessionEnds(m: Memory, all: seq<Memory>) returns (chain: seq<Memory>)
    requires m in all
    ensures Succession(chain, all) && |chain| >= 1 && chain[0] == m
    ensures Superseded(m, all) ==> |chain| >= 2
    ensures !Superseded(chain[|chain| - 1], all)
    ensures forall i, j :: 0 <= i < j < |chain| ==>
              chain[i].updatedAt < chain[j].updatedAt && chain[i].confidence <= chain[j].confidence
    decreases |NewerThan(all, m.updatedAt)|
  {
    if Superseded(m, all) {
      var o :| o in all && Find(all, o.id) == Some(o) && Supersedes(o, m);
      NewerShrinks(all, m, o);
      var rest := SuccessionEnds(o, all);
      chain := [m] + rest;
    } else {
      chain := [m];
    }
  }

  // ----- priority feedback ----------------------------------------------

  const SECONDS_PER_DAY := 86400

  /** Whole days of a signed duration, rounded toward zero. */
  function NumDays(seconds: int): int {
    if seconds >= 0 then seconds / SECONDS_PER_DAY else -((-seconds) / SECONDS_PER_DAY)
  }

  /** Hot memories go up by one to at most 10, cold ones down by one to at least 1. */
  function Feedback(m: Memory, now: int): int {
    var recent := m.lastAccessedAt.Some? && NumDays(now - m.lastAccessedAt.value) <= 7;
    var coldEnough := NumDays(now - m.createdAt) >= 30;
    if m.accessCount >= 10 && recent && m.priority < 10 then m.priority + 1
    else if m.accessCount == 0 && coldEnough && m.priority > 1 then m.priority - 1
    else m.priority
  }

  /**
   Feedback moves by at most one, never out of 1..10, and never further out from
   outside: up for the often read, last within seven days (a begun eighth counts),
   down for the never read, created thirty days ago.
   */
  lemma FeedbackLaws(m: Memory, now: int)
    ensures var f := Feedback(m, now);
            && m.priority - 1 <= f <= m.priority + 1
            && (1 <= m.priority <= 10 ==> 1 <= f <= 10)
            && (m.priority < 1 ==> f >= m.priority) && (m.priority > 10 ==> f <= m.priority)
            && (f > m.priority <==> m.priority < 10 && m.accessCount >= 10 && m.lastAccessedAt.Some?
                                    && now - m.lastAccessedAt.value < 8 * SECONDS_PER_DAY)
            && (f < m.priority <==> m.priority > 1 && m.accessCount == 0 && now - m.createdAt >= 30 * SECONDS_PER_DAY)
  {
  }

  // ----- the passes on the table ----------------------------------------

  /** What the outside contributes to one consolidation: the summary, a fresh id, the merged columns. */
  datatype Answer = Answer(summary: Option<string>, freshId: string, tags: seq<string>, metadata: Metadata,
                           metadataOk: bool)

  function TierRank(t: Tier): nat {
    match t case Short => 0 case Mid => 1 case Long => 2
  }

  function MaxTier(ms: seq<Memory>): (t: Tier)
    requires ms != []
    ensures (exists i :: 0 <= i < |ms| && ms[i].tier == t)
    ensures forall i :: 0 <= i < |ms| ==> TierRank(ms[i].tier) <= TierRank(t)
  {
    if |ms| == 1 then ms[0].tier
    else
      var t := MaxTier(ms[..|ms| - 1]);
      if TierRank(t) <= TierRank(ms[|ms| - 1].tier) then ms[|ms| - 1].tier else t
  }

  function MaxPriority(rows: Rows, ms: seq<Memory>): (p: int)
    requires forall i :: 0 <= i < |ms| ==> ms[i].id in rows
    ensures p >= 5 && forall i :: 0 <= i < |ms| ==> rows[ms[i].id].priority <= p
    ensures p == 5 || exists i :: 0 <= i < |ms| && rows[ms[i].id].priority == p
  {
    if ms == [] then 5 else MaxInt(MaxPriority(rows, ms[..|ms| - 1]), rows[ms[|ms| - 1].id].priority)
  }

  function TotalAccess(rows: Rows, ms: seq<Memory>): int
    requires forall i :: 0 <= i < |ms| ==> ms[i].id in rows
  {
    if ms == [] then 0 else TotalAccess(rows, ms[..|ms| - 1]) + rows[ms[|ms| - 1].id].accessCount
  }

  function MergedRow(rows: Rows, cluster: seq<Memory>, a: Answer, now: int): Memory
    requires cluster != [] && a.summary.Some?
    requires forall i :: 0 <= i < |cluster| ==> cluster[i].id in rows
  {
    Memory(a.freshId, MaxTier(cluster), cluster[0].namespace, "[consolidated] " + cluster[0].title, a.summary.value,
           a.tags,
           MaxPriority(rows, cluster), 1.0, "ai-memory curator (autonomy)", TotalAccess(rows, cluster), now, now,
           None, None, a.metadata)
  }

  /** Access counts add up: over two lists, and in any order. */
  lemma {:induction false} TotalAccessAdds(rows: Rows, a: seq<Memory>, b: seq<Memory>)
    requires AllIn(a, rows) && AllIn(b, rows)
    ensures TotalAccess(rows, []) == 0
    ensures forall m: Memory :: m.id in rows ==> TotalAccess(rows, [m]) == rows[m.id].accessCount
    ensures TotalAccess(rows, a + b) == TotalAccess(rows, a) + TotalAccess(rows, b)
  {
    forall m: Memory | m.id in rows ensures TotalAccess(rows, [m]) == rows[m.id].accessCount { assert [m][..0] == []; }
    if b == [] {
      assert a + b == a;
    } else {
      assert (a + b)[..|a + b| - 1] == a + b[..|b| - 1];
      TotalAccessAdds(rows, a, b[..|b| - 1]);
    }
  }

  lemma {:induction false} TotalAccessInAnyOrder(rows: Rows, a: seq<Memory>, b: seq<Memory>)
    requires AllIn(a, rows) && AllIn(b, rows) && multiset(a) == multiset(b)
    ensures TotalAccess(rows, a) == TotalAccess(rows, b)
    decreases |a|
  {
    assert |a| == |multiset(a)| == |multiset(b)| == |b|;
    if a != [] {
      var i, rest := WithoutOne(a, b);
      assert AllIn(rest, rows);
      assert AllIn(a[..|a| - 1], rows);
      TotalAccessInAnyOrder(rows, a[..|a| - 1], rest);
      TakenOut(rows, b, i);
    }
  }

  /** `b` less the last of `a`. */
  lemma WithoutOne(a: seq<Memory>, b: seq<Memory>) returns (i: nat, rest: seq<Memory>)
    requires a != [] && multiset(a) == multiset(b)
    ensures i < |b| && b[i] == a[|a| - 1] && rest == b[..i] + b[i + 1..]
    ensures multiset(rest) == multiset(a[..|a| - 1])
  {
    var init, last := a[..|a| - 1], a[|a| - 1];
    assert a == init + [last];
    assert last in multiset(b);
    i :| 0 <= i < |b| && b[i] == last;
    rest := b[..i] + b[i + 1..];
    SplitAt(b, i);
    assert multiset(init) + multiset{last} == multiset(rest) + multiset{last};
    assert multiset(init) == (multiset(init) + multiset{last}) - multiset{last};
  }

  lemma SplitAt(b: seq<Memory>, i: nat)
    requires i < |b|
    ensures multiset(b) == multiset(b[..i] + b[i + 1..]) + multiset{b[i]}
  {
    assert b == b[..i] + ([b[i]] + b[i + 1..]);
  }

  lemma TakenOut(rows: Rows, b: seq<Memory>, i: nat)
    requires AllIn(b, rows) && i < |b|
    ensures AllIn(b[..i] + b[i + 1..], rows)
    ensures TotalAccess(rows, b) == TotalAccess(rows, b[..i] + b[i + 1..]) + rows[b[i].id].accessCount
  {
    var x, y, m := b[..i], b[i + 1..], b[i];
    assert b == x + ([m] + y);
    assert AllIn(x, rows) && AllIn(y, rows) && AllIn([m], rows) && AllIn([m] + y, rows);
    TotalAccessAdds(rows, x, [m] + y);
    TotalAccessAdds(rows, [m], y);
    TotalAccessAdds(rows, x, y);
  }

  /** The table, the rollback log, and the tables the entries of the log led through. */
  datatype Journal = Journal(rows: Rows, log: seq<Entry>, tables: seq<Rows>)

  function Opened(rows: Rows): Journal {
    Journal(rows, [], [rows])
  }

  function Record(j: Journal, rows: Rows, e: Entry): Journal {
    Journal(rows, j.log + [e], j.tables + [rows])
  }

  ghost predicate AllIn(ms: seq<Memory>, rows: Rows) {
    forall i :: 0 <= i < |ms| ==> ms[i].id in rows
  }

  /** A failing summary, a missing source or a taken title leaves everything as it was. */
  ghost function ConsolidateStep(j: Journal, cluster: seq<Memory>, a: Answer, now: int): Journal {
    if |cluster| < 2 || (exists i :: 0 <= i < |cluster| && Reserved(cluster[i].namespace)) then j
    else if a.summary.None? || !a.metadataOk || !AllIn(cluster, j.rows) then j
    else
      match Consolidate(j.rows, Ids(cluster), MergedRow(j.rows, cluster, a, now))
      case Err(_) => j
      case Ok(rows) => Record(j, rows, Consolidated(cluster, a.freshId))
  }

  /** The merged row, column by column. */
  lemma MergedRowLaws(rows: Rows, cluster: seq<Memory>, a: Answer, now: int)
    requires cluster != [] && a.summary.Some? && AllIn(cluster, rows)
    ensures var r := MergedRow(rows, cluster, a, now);
            && r.id == a.freshId && r.content == a.summary.value && r.tags == a.tags && r.metadata == a.metadata
            && r.namespace == cluster[0].namespace && r.title == "[consolidated] " + cluster[0].title
            && r.source == "ai-memory curator (autonomy)" && r.confidence == 1.0
            && r.createdAt == now && r.updatedAt == now && r.expiresAt == None && r.lastAccessedAt == None
            && r.accessCount == TotalAccess(rows, cluster) && r.priority == MaxPriority(rows, cluster)
            && r.tier == MaxTier(cluster)
  {
  }

  /** A consolidation that changes anything had its sources, its summary and a free place. */
  lemma ConsolidateStepFits(j: Journal, cluster: seq<Memory>, a: Answer, now: int)
    requires ConsolidateStep(j, cluster, a, now) != j
    ensures |cluster| >= 2 && AllIn(cluster, j.rows) && a.freshId !in j.rows && a.summary.Some? && a.metadataOk
    ensures forall i :: 0 <= i < |cluster| ==> !("_" <= cluster[i].namespace)
    ensures var rows := j.rows[a.freshId := MergedRow(j.rows, cluster, a, now)] - Ids(cluster);
            ConsolidateStep(j, cluster, a, now) == Record(j, rows, Consolidated(cluster, a.freshId))
    ensures a.freshId !in Ids(cluster)
  {
    assert forall i :: 0 <= i < |cluster| ==> cluster[i].id != a.freshId;
    forall i | 0 <= i < |cluster| ensures !("_" <= cluster[i].namespace) { ReservedMeans(cluster[i].namespace); }
  }

  /**
   What a successful consolidation leaves: the summary under the fresh id, on the
   seed's namespace and prefixed title, with what the sources add up to; the
   sources are gone and every other row is as it was.
   */
  lemma ConsolidateLaws(j: Journal, cluster: seq<Memory>, a: Answer, now: int)
    requires ConsolidateStep(j, cluster, a, now) != j
    ensures |cluster| >= 2 && AllIn(cluster, j.rows) && a.summary.Some?
    ensures var rows := ConsolidateStep(j, cluster, a, now).rows;
            && (forall id :: id in rows <==> id == a.freshId || (id in j.rows && id !in Ids(cluster)))
            && (forall id :: id in rows && id != a.freshId ==> rows[id] == j.rows[id])
            && rows[a.freshId] == MergedRow(j.rows, cluster, a, now)
  {
    ConsolidateStepFits(j, cluster, a, now);
  }

  ghost function ConsolidatePass(j: Journal, clusters: seq<seq<Memory>>, answer: nat -> Answer, now: int): Journal {
    if clusters == [] then j
    else
      var n := |clusters| - 1;
      ConsolidateStep(ConsolidatePass(j, clusters[..n], answer, now), clusters[n], answer(n), now)
  }

  ghost function ForgetStep(j: Journal, m: Memory, all: seq<Memory>): Journal {
    if Superseded(m, all) then Record(j, Delete(j.rows, m.id), Forgot(m)) else j
  }

  ghost function ForgetPass(j: Journal, cands: seq<Memory>, all: seq<Memory>): Journal {
    if cands == [] then j
    else ForgetStep(ForgetPass(j, cands[..|cands| - 1], all), cands[|cands| - 1], all)
  }

  ghost function PriorityStep(j: Journal, m: Memory, now: int): Journal {
    var after := Feedback(m, now);
    if after == m.priority then j
    else Record(j, SetPriority(j.rows, m.id, after, now), PriorityAdjusted(m.id, m.priority, after))
  }

  ghost function PriorityPass(j: Journal, cands: seq<Memory>, now: int): Journal {
    if cands == [] then j
    else PriorityStep(PriorityPass(j, cands[..|cands| - 1], now), cands[|cands| - 1], now)
  }

  ghost function RunPasses(rows: Rows, cands: seq<Memory>, clusters: seq<seq<Memory>>, answer: nat -> Answer,
                           now: int): Journal {
    var consolidated := ConsolidatePass(Opened(rows), clusters, answer, now);
    PriorityPass(ForgetPass(consolidated, cands, cands), cands, now)
  }

  // ----- every run leaves a trail that can be walked back ---------------

  ghost predicate JournalOk(start: Rows, j: Journal) {
    Trail(j.tables, j.log) && j.tables[0] == start && j.rows == j.tables[|j.log|]
  }

  lemma RecordKeeps(start: Rows, j: Journal, rows: Rows, e: Entry)
    requires JournalOk(start, j) && Recorded(start, j.rows, e, rows) && MidRun(start, rows)
    ensures JournalOk(start, Record(j, rows, e))
  {
  }

  lemma ConsolidateStepKeeps(start: Rows, j: Journal, cluster: seq<Memory>, a: Answer, now: int)
    requires JournalOk(start, j) && a.freshId !in start
    requires forall i :: 0 <= i < |cluster| ==> IsCopy(start, cluster[i])
    ensures JournalOk(start, ConsolidateStep(j, cluster, a, now))
  {
    var k := ConsolidateStep(j, cluster, a, now);
    if k != j {
      var row := MergedRow(j.rows, cluster, a, now);
      var e := Consolidated(cluster, a.freshId);
      assert k.rows == j.rows[row.id := row] - Ids(cluster);
      assert Recorded(start, j.rows, e, k.rows);
      RowFits(j.rows, row);
      assert MidRun(start, k.rows);
      RecordKeeps(start, j, k.rows, e);
    }
  }

  lemma RowFits(rows: Rows, row: Memory)
    requires WellKeyed(rows) && row.id !in rows && !exists h :: Holds(rows, h, Slot(row))
    ensures WellKeyed(rows[row.id := row])
  {
    forall i | i in rows ensures Slot(rows[i]) != Slot(row) { assert !Holds(rows, i, Slot(row)); }
  }

  lemma {:induction false} ConsolidatePassKeeps(start: Rows, clusters: seq<seq<Memory>>, answer: nat -> Answer,
                                                now: int)
    requires WellKeyed(start) && forall n :: answer(n).freshId !in start
    requires forall c, i :: 0 <= c < |clusters| && 0 <= i < |clusters[c]| ==> IsCopy(start, clusters[c][i])
    ensures JournalOk(start, ConsolidatePass(Opened(start), clusters, answer, now))
  {
    if clusters != [] {
      var n := |clusters| - 1;
      ConsolidatePassKeeps(start, clusters[..n], answer, now);
      ConsolidateStepKeeps(start, ConsolidatePass(Opened(start), clusters[..n], answer, now),
                           clusters[n], answer(n), now);
    }
  }

  lemma {:induction false} ForgetPassKeeps(start: Rows, j: Journal, cands: seq<Memory>, all: seq<Memory>)
    requires JournalOk(start, j)
    requires forall i :: 0 <= i < |cands| ==> IsCopy(start, cands[i])
    ensures JournalOk(start, ForgetPass(j, cands, all))
  {
    if cands != [] {
      var init, m := cands[..|cands| - 1], cands[|cands| - 1];
      ForgetPassKeeps(start, j, init, all);
      var k := ForgetPass(j, init, all);
      assert IsCopy(start, m);
      if Superseded(m, all) { RecordKeeps(start, k, Delete(k.rows, m.id), Forgot(m)); }
    }
  }

  /** What the forget pass removes from the table: exactly the superseded candidates. */
  lemma {:induction false} ForgetPassRemoves(j: Journal, cands: seq<Memory>, all: seq<Memory>)
    ensures ForgetPass(j, cands, all).rows == j.rows - SupersededIds(cands, all)
  {
    if cands != [] {
      var init, m := cands[..|cands| - 1], cands[|cands| - 1];
      ForgetPassRemoves(j, init, all);
      SupersededSnoc(init, m, all);
      assert cands == init + [m];
    }
  }

  ghost function SupersededIds(cands: seq<Memory>, all: seq<Memory>): set<string> {
    set i | 0 <= i < |cands| && Superseded(cands[i], all) :: cands[i].id
  }

  lemma SupersededSnoc(init: seq<Memory>, m: Memory, all: seq<Memory>)
    ensures SupersededIds(init + [m], all) == SupersededIds(init, all) + if Superseded(m, all) then {m.id} else {}
  {
    var cands := init + [m];
    assert cands[|init|] == m;
    forall x | x in SupersededIds(init, all) ensures x in SupersededIds(cands, all) {
      var i :| 0 <= i < |init| && Superseded(init[i], all) && init[i].id == x;
      assert cands[i].id == x;
    }
    forall x | x in SupersededIds(cands, all)
      ensures x in SupersededIds(init, all) || (Superseded(m, all) && x == m.id)
    {
      var i :| 0 <= i < |cands| && Superseded(cands[i], all) && cands[i].id == x;
      if i < |init| { assert init[i].id == x; }
    }
  }

  /** No ring of contradictions empties a group: the end of a chain stays in the table if it was there. */
  lemma ChainEndSurvives(j: Journal, cands: seq<Memory>, m: Memory)
    requires DistinctMemories(cands) && m in cands && !Superseded(m, cands) && m.id in j.rows
    ensures m.id in ForgetPass(j, cands, cands).rows
  {
    ForgetPassRemoves(j, cands, cands);
    var k :| 0 <= k < |cands| && cands[k] == m;
    forall i | 0 <= i < |cands| && Superseded(cands[i], cands) ensures cands[i].id != m.id {
      assert i != k;
      assert i < k || k < i;
    }
  }

  /**
   Whatever id the forget pass takes out of the table was a superseded candidate's,
   and from it a chain, strictly newer and at least as confident at each step,
   ends in a candidate that the pass leaves in the table, if it was there.
   */
  lemma ForgottenHasSurvivor(j: Journal, cands: seq<Memory>, id: string) returns (chain: seq<Memory>)
    requires DistinctMemories(cands) && id in j.rows && id !in ForgetPass(j, cands, cands).rows
    ensures Succession(chain, cands) && |chain| >= 2 && chain[0].id == id
    ensures forall i, k :: 0 <= i < k < |chain| ==>
              chain[i].updatedAt < chain[k].updatedAt && chain[i].confidence <= chain[k].confidence
    ensures var last := chain[|chain| - 1].id; last in j.rows ==> last in ForgetPass(j, cands, cands).rows
  {
    ForgetPassRemoves(j, cands, cands);
    var i :| 0 <= i < |cands| && Superseded(cands[i], cands) && cands[i].id == id;
    chain := SuccessionEnds(cands[i], cands);
    var last := chain[|chain| - 1];
    if last.id in j.rows { ChainEndSurvives(j, cands, last); }
  }

  lemma {:induction false} PriorityPassKeeps(start: Rows, j: Journal, cands: seq<Memory>, now: int)
    requires JournalOk(start, j)
    requires forall i :: 0 <= i < |cands| ==> IsCopy(start, cands[i])
    ensures JournalOk(start, PriorityPass(j, cands, now))
  {
    if cands != [] {
      var init, m := cands[..|cands| - 1], cands[|cands| - 1];
      PriorityPassKeeps(start, j, init, now);
      var k, after := PriorityPass(j, init, now), Feedback(m, now);
      assert IsCopy(start, m);
      if after != m.priority {
        var rows := SetPriority(k.rows, m.id, after, now);
        assert Recorded(start, k.rows, PriorityAdjusted(m.id, m.priority, after), rows);
        SetPriorityMidRun(start, k.rows, m.id, after, now);
        RecordKeeps(start, k, rows, PriorityAdjusted(m.id, m.priority, after));
      }
    }
  }

  lemma SetPriorityMidRun(start: Rows, rows: Rows, id: string, p: int, now: int)
    requires MidRun(start, rows)
    ensures MidRun(start, SetPriority(rows, id, p, now))
  {
  }

  /** Every run over copies of rows of the table, with fresh ids for its results, leaves a trail. */
  lemma RunLeavesTrail(rows: Rows, cands: seq<Memory>, clusters: seq<seq<Memory>>, answer: nat -> Answer, now: int)
    requires WellKeyed(rows) && forall n :: answer(n).freshId !in rows
    requires forall i :: 0 <= i < |cands| ==> IsCopy(rows, cands[i])
    requires forall c, i :: 0 <= c < |clusters| && 0 <= i < |clusters[c]| ==> IsCopy(rows, clusters[c][i])
    ensures JournalOk(rows, RunPasses(rows, cands, clusters, answer, now))
  {
    ConsolidatePassKeeps(rows, clusters, answer, now);
    var j := ConsolidatePass(Opened(rows), clusters, answer, now);
    ForgetPassKeeps(rows, j, cands, cands);
    PriorityPassKeeps(rows, ForgetPass(j, cands, cands), cands, now);
  }
}
