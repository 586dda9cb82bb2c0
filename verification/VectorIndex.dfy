/**
 The vector index: an immutable built snapshot, an overflow list scanned
 linearly, and the list of all entries. The built graph is an oracle that
 returns snapshot points nearest first.
 */
module VectorIndex {
  import opened Basics
  import opened Vectors
  import opened HitLists

  const REBUILD_THRESHOLD := 200
  const MAX_ENTRIES := 100000

  /** The entries whose id is not among `gone`, in order. */
  function Retain(es: seq<Item>, gone: set<string>): seq<Item> {
    if es == [] then []
    else
      var init, last := Retain(es[..|es| - 1], gone), es[|es| - 1];
      if last.id in gone then init else init + [last]
  }

  /**
   The index and its history: `gone` are the ids removed since the snapshot was
   built, `added` and `removed` count entries over the index's life.
   */
  datatype IndexState = IndexState(
    snapshot: seq<Item>, overflow: seq<Item>, all: seq<Item>, evicted: nat,
    gone: set<string>, added: nat, removed: nat)

  function Build(entries: seq<Item>): IndexState {
    IndexState(entries, [], entries, 0, {}, |entries|, 0)
  }

  function Rebuild(s: IndexState): IndexState {
    s.(snapshot := s.all, overflow := [], gone := {})
  }

  function Evict(s: IndexState): IndexState {
    if |s.all| <= MAX_ENTRIES then s
    else
      var excess := |s.all| - MAX_ENTRIES;
      Rebuild(s.(all := s.all[excess..], evicted := s.evicted + excess))
  }

  function Push(s: IndexState, e: Item): IndexState {
    var pushed := s.(all := s.all + [e], overflow := s.overflow + [e], added := s.added + 1);
    if |pushed.overflow| >= REBUILD_THRESHOLD then Rebuild(pushed) else pushed
  }

  function Insert(s: IndexState, e: Item): IndexState {
    Evict(Push(s, e))
  }

  function Remove(s: IndexState, id: string): IndexState {
    var all := Retain(s.all, {id});
    RetainShortens(s.all, {id});
    s.(all := all, overflow := Retain(s.overflow, {id}),
       gone := s.gone + {id}, removed := s.removed + (|s.all| - |all|))
  }

  /** What every sequence of operations keeps. */
  ghost predicate Consistent(s: IndexState) {
    && s.all == Retain(s.snapshot, s.gone) + s.overflow
    && |s.overflow| < REBUILD_THRESHOLD
    && s.added == |s.all| + s.removed + s.evicted
  }

  lemma {:induction false} RetainShortens(es: seq<Item>, gone: set<string>)
    ensures |Retain(es, gone)| <= |es|
  {
    if es != [] { RetainShortens(es[..|es| - 1], gone); }
  }

  lemma {:induction false} RetainNothingGone(es: seq<Item>)
    ensures Retain(es, {}) == es
  {
    if es != [] {
      RetainNothingGone(es[..|es| - 1]);
      assert es == es[..|es| - 1] + [es[|es| - 1]];
    }
  }

  lemma {:induction false} RetainConcat(a: seq<Item>, b: seq<Item>, gone: set<string>)
    ensures Retain(a + b, gone) == Retain(a, gone) + Retain(b, gone)
  {
    if b == [] {
      assert a + b == a;
    } else {
      assert (a + b)[..|a + b| - 1] == a + b[..|b| - 1];
      RetainConcat(a, b[..|b| - 1], gone);
    }
  }

  lemma {:induction false} RetainTwice(es: seq<Item>, gone: set<string>, more: set<string>)
    ensures Retain(Retain(es, gone), more) == Retain(es, gone + more)
  {
    if es != [] {
      var init, last := es[..|es| - 1], es[|es| - 1];
      RetainTwice(init, gone, more);
      if last.id !in gone {
        assert (Retain(init, gone) + [last])[..|Retain(init, gone)|] == Retain(init, gone);
      }
    }
  }

  lemma {:induction false} RetainMembers(es: seq<Item>, gone: set<string>, e: Item)
    ensures e in Retain(es, gone) <==> e in es && e.id !in gone
  {
    if es != [] {
      assert es == es[..|es| - 1] + [es[|es| - 1]];
      RetainMembers(es[..|es| - 1], gone, e);
    }
  }

  lemma RebuildConsistent(s: IndexState)
    requires s.added == |s.all| + s.removed + s.evicted
    ensures Consistent(Rebuild(s))
  {
    RetainNothingGone(s.all);
  }

  lemma EvictConsistent(s: IndexState)
    requires Consistent(s)
    ensures Consistent(Evict(s)) && |Evict(s).all| <= MAX_ENTRIES
  {
    if |s.all| > MAX_ENTRIES {
      var excess := |s.all| - MAX_ENTRIES;
      RebuildConsistent(s.(all := s.all[excess..], evicted := s.evicted + excess));
    }
  }

  lemma InsertConsistent(s: IndexState, e: Item)
    requires Consistent(s)
    ensures Consistent(Insert(s, e)) && |Insert(s, e).all| <= MAX_ENTRIES
  {
    var pushed := s.(all := s.all + [e], overflow := s.overflow + [e], added := s.added + 1);
    if |pushed.overflow| >= REBUILD_THRESHOLD {
      RebuildConsistent(pushed);
      EvictConsistent(Rebuild(pushed));
    } else {
      assert pushed.all == Retain(s.snapshot, s.gone) + pushed.overflow;
      EvictConsistent(pushed);
    }
  }

  lemma RemoveConsistent(s: IndexState, id: string)
    requires Consistent(s)
    ensures Consistent(Remove(s, id))
  {
    RetainConcat(Retain(s.snapshot, s.gone), s.overflow, {id});
    RetainTwice(s.snapshot, s.gone, {id});
    RetainShortens(s.overflow, {id});
    RetainShortens(s.all, {id});
  }

  lemma RemoveFields(s: IndexState, id: string)
    ensures var after, all := Remove(s, id), Retain(s.all, {id});
            && |all| <= |s.all|
            && after == IndexState(s.snapshot, Retain(s.overflow, {id}), all, s.evicted,
                                   s.gone + {id}, s.added, s.removed + (|s.all| - |all|))
  {
    RetainShortens(s.all, {id});
  }

  /**
   What an insert leaves: the newest entries, the new one last, the oldest dropped
   and counted only over the cap; and the graph is built anew exactly at the 200th
   waiting entry or when something is dropped.
   */
  lemma InsertLaws(s: IndexState, e: Item)
    ensures var after, dropped := Insert(s, e), if |s.all| < 100000 then 0 else |s.all| + 1 - 100000;
            && after.all == (s.all + [e])[dropped..] && after.all[|after.all| - 1] == e
            && after.evicted == s.evicted + dropped
            && (if |s.overflow| + 1 >= 200 || dropped > 0 then after.snapshot == after.all && after.overflow == []
                else after.snapshot == s.snapshot && after.overflow == s.overflow + [e])
  {
  }

  /** The entry is in the list with at most `younger` entries behind it. */
  ghost predicate Recent(es: seq<Item>, e: Item, younger: nat) {
    exists i :: 0 <= i < |es| && es[i] == e && |es| - 1 - i <= younger
  }

  lemma {:induction false} RetainKeepsRecent(es: seq<Item>, gone: set<string>, e: Item, younger: nat)
    requires Recent(es, e, younger) && e.id !in gone
    ensures Recent(Retain(es, gone), e, younger)
  {
    var i :| 0 <= i < |es| && es[i] == e && |es| - 1 - i <= younger;
    var init, last := es[..|es| - 1], es[|es| - 1];
    if i < |init| {
      assert init[i] == e && Recent(init, e, |init| - 1 - i);
      RetainKeepsRecent(init, gone, e, |init| - 1 - i);
      var kept := Retain(init, gone);
      var k :| 0 <= k < |kept| && kept[k] == e && |kept| - 1 - k <= |init| - 1 - i;
      assert Retain(es, gone)[k] == e;
    } else {
      assert Retain(es, gone)[|Retain(init, gone)|] == e;
    }
  }

  function Inserts(ops: seq<Op>): nat {
    if ops == [] then 0 else Inserts(ops[..|ops| - 1]) + if ops[|ops| - 1].InsertOp? then 1 else 0
  }

  /**
   No entry is lost before its time: one that was inserted, not removed since, and
   followed by fewer inserts than the index holds, is in the index.
   */
  lemma {:induction false} RecentEntriesStay(entries: seq<Item>, before: seq<Op>, e: Item, after: seq<Op>)
    requires RemoveOp(e.id) !in after && Inserts(after) < 100000
    ensures Recent(AfterOps(entries, before + [InsertOp(e)] + after).all, e, Inserts(after))
  {
    if after == [] {
      OpsSnoc(entries, before, InsertOp(e));
      assert before + [InsertOp(e)] + after == before + [InsertOp(e)];
      InsertLaws(AfterOps(entries, before), e);
    } else {
      var init, last := after[..|after| - 1], after[|after| - 1];
      assert before + [InsertOp(e)] + after == before + [InsertOp(e)] + init + [last];
      OpsSnoc(entries, before + [InsertOp(e)] + init, last);
      assert last in after && forall op :: op in init ==> op in after;
      RecentEntriesStay(entries, before, e, init);
      StepKeepsRecent(AfterOps(entries, before + [InsertOp(e)] + init), last, e, Inserts(init));
    }
  }

  lemma OpsSnoc(entries: seq<Item>, ops: seq<Op>, op: Op)
    ensures AfterOps(entries, ops + [op]) == Apply(AfterOps(entries, ops), op)
  {
    assert (ops + [op])[..|ops|] == ops;
  }

  lemma StepKeepsRecent(s: IndexState, op: Op, e: Item, younger: nat)
    requires Recent(s.all, e, younger) && op != RemoveOp(e.id) && (op.InsertOp? ==> younger + 1 < 100000)
    ensures Recent(Apply(s, op).all, e, younger + if op.InsertOp? then 1 else 0)
  {
    match op
    case InsertOp(f) => InsertKeepsRecent(s, f, e, younger);
    case RemoveOp(id) => RetainKeepsRecent(s.all, {id}, e, younger);
    case RebuildOp =>
  }

  lemma InsertKeepsRecent(s: IndexState, f: Item, e: Item, younger: nat)
    requires Recent(s.all, e, younger) && younger + 1 < 100000
    ensures Recent(Insert(s, f).all, e, younger + 1)
  {
    InsertLaws(s, f);
    var i :| 0 <= i < |s.all| && s.all[i] == e && |s.all| - 1 - i <= younger;
    var dropped := if |s.all| < 100000 then 0 else |s.all| + 1 - 100000;
    assert (s.all + [f])[dropped..][i - dropped] == e;
  }

  datatype Op = InsertOp(e: Item) | RemoveOp(id: string) | RebuildOp

  function Apply(s: IndexState, op: Op): IndexState {
    match op
    case InsertOp(e) => Insert(s, e)
    case RemoveOp(id) => Remove(s, id)
    case RebuildOp => Rebuild(s)
  }

  function AfterOps(entries: seq<Item>, ops: seq<Op>): IndexState {
    if ops == [] then Build(entries) else Apply(AfterOps(entries, ops[..|ops| - 1]), ops[|ops| - 1])
  }

  /** Every sequence of operations after a build keeps the three lists in step and loses no entry. */
  lemma {:induction false} OpsConsistent(entries: seq<Item>, ops: seq<Op>)
    ensures Consistent(AfterOps(entries, ops))
    ensures ops != [] && ops[|ops| - 1].InsertOp? ==> |AfterOps(entries, ops).all| <= MAX_ENTRIES
  {
    if ops == [] {
      RetainNothingGone(entries);
    } else {
      OpsConsistent(entries, ops[..|ops| - 1]);
      var s := AfterOps(entries, ops[..|ops| - 1]);
      match ops[|ops| - 1]
      case InsertOp(e) => InsertConsistent(s, e);
      case RemoveOp(id) => RemoveConsistent(s, id);
      case RebuildOp => RebuildConsistent(s);
    }
  }

  // ----- search ---------------------------------------------------------

  function ItemIds(es: seq<Item>): set<string> {
    set i | 0 <= i < |es| :: es[i].id
  }

  /** The oracle's hits that are still valid. */
  function Live(hits: seq<Hit>, valid: set<string>): seq<Hit> {
    if hits == [] then []
    else
      var init, last := Live(hits[..|hits| - 1], valid), hits[|hits| - 1];
      if last.id in valid then init + [last] else init
  }

  /** The scan stops after the push that reaches `2k`, so it keeps at least one. */
  function ScanCap(k: nat): nat {
    if k == 0 then 1 else 2 * k
  }

  function Pool(s: IndexState, query: Vector, k: nat, oracle: seq<Hit>): seq<Hit> {
    Truncate(Live(oracle, ItemIds(s.all)), ScanCap(k)) + SortByDistance(HitsOf(query, s.overflow))
  }

  function Search(s: IndexState, query: Vector, k: nat, oracle: seq<Hit>): seq<Hit> {
    Truncate(SortByDistance(Dedup(Pool(s, query, k, oracle))), k)
  }

  /** `oracle` answers from snapshot positions `at`, no position twice, nearest first. */
  ghost predicate Answers(oracle: seq<Hit>, at: seq<nat>, snapshot: seq<Item>, query: Vector) {
    && |at| == |oracle| && Ascending(oracle)
    && (forall i :: 0 <= i < |at| ==> at[i] < |snapshot| && oracle[i] == HitOf(query, snapshot[at[i]]))
    && (forall i, j :: 0 <= i < j < |at| ==> at[i] != at[j])
  }

  /** The oracle leaves out no snapshot position. */
  ghost predicate Exact(at: seq<nat>, snapshot: seq<Item>) {
    forall p :: 0 <= p < |snapshot| ==> p in at
  }

  ghost predicate UniqueIds(es: seq<Item>) {
    forall i, j :: 0 <= i < j < |es| ==> es[i].id != es[j].id
  }

  /** Live ids are unique and no overflow id also sits in the built snapshot. */
  ghost predicate Fresh(s: IndexState) {
    UniqueIds(s.all) && ItemIds(s.overflow) !! ItemIds(s.snapshot)
  }

  /** No live id sits at two positions of the snapshot. */
  ghost predicate OnePerId(s: IndexState) {
    forall p, q :: 0 <= p < q < |s.snapshot| && s.snapshot[p].id in ItemIds(s.all) ==>
      s.snapshot[p].id != s.snapshot[q].id
  }

  /** An overflow entry is as far from the query as what the snapshot still has under its id. */
  ghost predicate Current(s: IndexState, query: Vector) {
    forall e, f :: e in s.overflow && f in s.snapshot && e.id == f.id ==>
      Distance(query, e.emb) == Distance(query, f.emb)
  }

  lemma {:induction false} LiveMembers(hits: seq<Hit>, valid: set<string>)
    ensures forall h :: h in Live(hits, valid) <==> h in hits && h.id in valid
    ensures Ascending(hits) ==> Ascending(Live(hits, valid))
  {
    if hits != [] {
      var init, last := hits[..|hits| - 1], hits[|hits| - 1];
      assert hits == init + [last];
      LiveMembers(init, valid);
      if Ascending(hits) {
        LastIsFarthest(init, last);
        AscendingSnoc(Live(init, valid), last);
      }
    }
  }

  lemma LastIsFarthest(init: seq<Hit>, last: Hit)
    requires Ascending(init + [last])
    ensures Ascending(init) && forall h :: h in init ==> h.distance <= last.distance
  {
    var all := init + [last];
    assert forall i :: 0 <= i < |init| ==> init[i] == all[i];
    assert all[|init|] == last;
  }

  lemma AscendingSnoc(hs: seq<Hit>, h: Hit)
    requires Ascending(hs)
    ensures (forall g :: g in hs ==> g.distance <= h.distance) ==> Ascending(hs + [h])
  {
  }

  /**
   Whatever part of the snapshot the oracle returns: every hit is live, no id
   comes twice, distances ascend and there are at most k.
   */
  lemma SearchSound(s: IndexState, query: Vector, k: nat, oracle: seq<Hit>)
    requires Consistent(s)
    ensures var r := Search(s, query, k, oracle);
            |r| <= k && Ascending(r) && DistinctIds(r) && forall h :: h in r ==> h.id in ItemIds(s.all)
  {
    var pool := Pool(s, query, k, oracle);
    DedupKeepsIds(pool);
    SortedCutIsNearest(Dedup(pool), k);
    forall h | h in pool ensures h.id in ItemIds(s.all) { PooledIdIsLive(s, query, k, oracle, h); }
  }

  lemma PooledIdIsLive(s: IndexState, query: Vector, k: nat, oracle: seq<Hit>, h: Hit)
    requires Consistent(s) && h in Pool(s, query, k, oracle)
    ensures h.id in ItemIds(s.all)
  {
    LiveMembers(oracle, ItemIds(s.all));
    SortKeeps(HitsOf(query, s.overflow));
    if h !in Live(oracle, ItemIds(s.all)) {
      var i :| 0 <= i < |s.overflow| && HitOf(query, s.overflow[i]) == h;
      assert s.all[|s.all| - |s.overflow| + i] == s.overflow[i];
    }
  }

  // ----- search against a linear scan -----------------------------------

  lemma MemberHasId(es: seq<Item>)
    ensures forall e :: e in es ==> e.id in ItemIds(es)
    ensures forall id :: id in ItemIds(es) ==> exists e :: e in es && e.id == id
  {
  }

  lemma LiveEntryHit(s: IndexState, query: Vector, e: Item)
    requires e in s.all
    ensures HitOf(query, e) in HitsOf(query, s.all)
  {
    var j :| 0 <= j < |s.all| && s.all[j] == e;
    assert HitsOf(query, s.all)[j] == HitOf(query, e);
  }

  /** A snapshot entry whose id is valid, removed since or not, measures like a live entry. */
  lemma ValidSnapshotHitIsLive(s: IndexState, query: Vector, e: Item)
    requires Consistent(s) && Current(s, query) && e in s.snapshot && e.id in ItemIds(s.all)
    ensures HitOf(query, e) in HitsOf(query, s.all)
  {
    RetainMembers(s.snapshot, s.gone, e);
    if e.id !in s.gone {
      LiveEntryHit(s, query, e);
    } else {
      MemberHasId(s.all);
      var f :| f in s.all && f.id == e.id;
      RetainMembers(s.snapshot, s.gone, f);
      assert f in s.overflow;
      LiveEntryHit(s, query, f);
    }
  }

  /** Every pool hit measures a live entry. */
  lemma PoolIsLive(s: IndexState, query: Vector, k: nat, oracle: seq<Hit>, at: seq<nat>, h: Hit)
    requires Consistent(s) && Current(s, query) && Answers(oracle, at, s.snapshot, query)
    requires h in Pool(s, query, k, oracle)
    ensures h in HitsOf(query, s.all)
  {
    LiveMembers(oracle, ItemIds(s.all));
    SortKeeps(HitsOf(query, s.overflow));
    if h in Live(oracle, ItemIds(s.all)) {
      var i :| 0 <= i < |oracle| && oracle[i] == h;
      ValidSnapshotHitIsLive(s, query, s.snapshot[at[i]]);
    } else {
      var j :| 0 <= j < |s.overflow| && HitsOf(query, s.overflow)[j] == h;
      assert s.overflow[j] in s.all;
      LiveEntryHit(s, query, s.overflow[j]);
    }
  }

  lemma LiveHitsDistinct(all: seq<Item>, query: Vector)
    requires UniqueIds(all)
    ensures DistinctIds(HitsOf(query, all)) && HitIds(HitsOf(query, all)) == ItemIds(all)
  {
  }

  /** De-duplication drops no hit, only repetitions. */
  lemma PoolHitKept(s: IndexState, query: Vector, k: nat, oracle: seq<Hit>, at: seq<nat>, h: Hit)
    requires Consistent(s) && UniqueIds(s.all) && Current(s, query) && Answers(oracle, at, s.snapshot, query)
    requires h in Pool(s, query, k, oracle)
    ensures h in Dedup(Pool(s, query, k, oracle))
  {
    var pool := Pool(s, query, k, oracle);
    DedupKeepsIds(pool);
    assert h.id in HitIds(pool);
    var i :| 0 <= i < |Dedup(pool)| && Dedup(pool)[i].id == h.id;
    PoolIsLive(s, query, k, oracle, at, h);
    PoolIsLive(s, query, k, oracle, at, Dedup(pool)[i]);
    LiveHitsDistinct(s.all, query);
  }

  /**
   An overflow entry left out of the result is beaten or tied by k returned
   hits, however little of the snapshot the oracle returned.
   */
  lemma OverflowNeverLost(s: IndexState, query: Vector, k: nat, oracle: seq<Hit>, at: seq<nat>, e: Item)
    requires Consistent(s) && UniqueIds(s.all) && Current(s, query) && Answers(oracle, at, s.snapshot, query)
    requires e in s.overflow
    ensures var r := Search(s, query, k, oracle);
            HitOf(query, e) in r ||
            (|r| == k && forall i :: 0 <= i < |r| ==> r[i].distance <= Distance(query, e.emb))
  {
    var pool := Pool(s, query, k, oracle);
    var j :| 0 <= j < |s.overflow| && s.overflow[j] == e;
    assert HitsOf(query, s.overflow)[j] == HitOf(query, e);
    SortKeeps(HitsOf(query, s.overflow));
    PoolHitKept(s, query, k, oracle, at, HitOf(query, e));
    DedupKeepsIds(pool);
    SortedCutIsNearest(Dedup(pool), k);
  }

  /** Live oracle hits have distinct ids. */
  lemma {:induction false} LiveDistinct(s: IndexState, query: Vector, oracle: seq<Hit>, at: seq<nat>, n: nat)
    requires OnePerId(s) && Answers(oracle, at, s.snapshot, query) && n <= |oracle|
    ensures DistinctIds(Live(oracle[..n], ItemIds(s.all)))
  {
    if n > 0 {
      LiveDistinct(s, query, oracle, at, n - 1);
      assert oracle[..n][..n - 1] == oracle[..n - 1];
      if oracle[n - 1].id in ItemIds(s.all) {
        forall h | h in Live(oracle[..n - 1], ItemIds(s.all)) ensures h.id != oracle[n - 1].id {
          LiveMembers(oracle[..n - 1], ItemIds(s.all));
          var i :| 0 <= i < n - 1 && oracle[..n - 1][i] == h;
          assert at[i] < at[n - 1] || at[n - 1] < at[i];
        }
      }
    }
  }

  lemma AllLiveDistinct(s: IndexState, query: Vector, oracle: seq<Hit>, at: seq<nat>)
    requires OnePerId(s) && Answers(oracle, at, s.snapshot, query)
    ensures DistinctIds(Live(oracle, ItemIds(s.all)))
  {
    LiveDistinct(s, query, oracle, at, |oracle|);
    assert oracle[..|oracle|] == oracle;
  }

  /** The reference: measure every live entry, sort, cut. */
  function LinearScan(all: seq<Item>, query: Vector, k: nat): seq<Hit> {
    Truncate(SortByDistance(HitsOf(query, all)), k)
  }

  /** An exact oracle finds every live entry that is not in the overflow list. */
  lemma OracleFindsLive(s: IndexState, query: Vector, oracle: seq<Hit>, at: seq<nat>, e: Item)
    requires Consistent(s) && Answers(oracle, at, s.snapshot, query) && Exact(at, s.snapshot)
    requires e in s.snapshot && e.id in ItemIds(s.all)
    ensures HitOf(query, e) in Live(oracle, ItemIds(s.all))
  {
    LiveMembers(oracle, ItemIds(s.all));
    var p :| 0 <= p < |s.snapshot| && s.snapshot[p] == e;
    assert p in at;
    var i :| 0 <= i < |at| && at[i] == p;
    assert oracle[i] == HitOf(query, e);
  }

  lemma CutOrNearer(live: seq<Hit>, cap: nat, h: Hit)
    requires Ascending(live) && h in live
    ensures h in Truncate(live, cap) || (|live| > cap && forall i :: 0 <= i < cap ==> live[i].distance <= h.distance)
  {
  }

  /** With an exact oracle a live entry is in the pool, or the scan stopped on nearer ones. */
  lemma LiveIsPooled(s: IndexState, query: Vector, k: nat, oracle: seq<Hit>, at: seq<nat>, h: Hit)
    requires Consistent(s) && Answers(oracle, at, s.snapshot, query) && Exact(at, s.snapshot)
    requires h in HitsOf(query, s.all)
    ensures var live := Live(oracle, ItemIds(s.all));
            h in Pool(s, query, k, oracle) ||
            (|live| > ScanCap(k) && forall i :: 0 <= i < ScanCap(k) ==> live[i].distance <= h.distance)
  {
    var j :| 0 <= j < |s.all| && HitsOf(query, s.all)[j] == h;
    var e := s.all[j];
    if e in s.overflow {
      var i :| 0 <= i < |s.overflow| && s.overflow[i] == e;
      assert HitsOf(query, s.overflow)[i] == h;
      SortKeeps(HitsOf(query, s.overflow));
    } else {
      RetainMembers(s.snapshot, s.gone, e);
      OracleFindsLive(s, query, oracle, at, e);
      LiveMembers(oracle, ItemIds(s.all));
      CutOrNearer(Live(oracle, ItemIds(s.all)), ScanCap(k), h);
    }
  }

  /** Enough kept hits within a bound put the whole result within it. */
  lemma NearerHitsLead(kept: seq<Hit>, near: seq<Hit>, k: nat, i: nat, d: real)
    requires DistinctIds(kept) && DistinctIds(near) && k <= |near|
    requires forall h :: h in near ==> h in kept && h.distance <= d
    requires i < |Truncate(SortByDistance(kept), k)|
    ensures Truncate(SortByDistance(kept), k)[i].distance <= d
  {
    SortSorts(kept);
    SortKeeps(kept);
    FirstWithin(SortByDistance(kept), near, k, i, d);
  }

  lemma LeftOutIsFarther(s: IndexState, query: Vector, k: nat, oracle: seq<Hit>, at: seq<nat>, h: Hit, i: nat)
    requires Consistent(s) && UniqueIds(s.all) && OnePerId(s) && Current(s, query)
    requires Answers(oracle, at, s.snapshot, query) && Exact(at, s.snapshot)
    requires h in HitsOf(query, s.all) && h !in Search(s, query, k, oracle) && i < |Search(s, query, k, oracle)|
    ensures Search(s, query, k, oracle)[i].distance <= h.distance
  {
    var pool := Pool(s, query, k, oracle);
    DedupKeepsIds(pool);
    if h in pool {
      PoolHitKept(s, query, k, oracle, at, h);
      SortedCutIsNearest(Dedup(pool), k);
    } else {
      LiveIsPooled(s, query, k, oracle, at, h);
      var near := Truncate(Live(oracle, ItemIds(s.all)), ScanCap(k));
      AllLiveDistinct(s, query, oracle, at);
      DedupKeepsFront(near, SortByDistance(HitsOf(query, s.overflow)));
      NearerHitsLead(Dedup(pool), near, k, i, h.distance);
    }
  }

  /** The kept hits carry live ids only, all of them unless the scan stopped early, and then enough. */
  lemma SearchSize(s: IndexState, query: Vector, k: nat, oracle: seq<Hit>, at: seq<nat>)
    requires Consistent(s) && UniqueIds(s.all) && OnePerId(s)
    requires Answers(oracle, at, s.snapshot, query) && Exact(at, s.snapshot)
    ensures |Dedup(Pool(s, query, k, oracle))| <= |s.all|
    ensures |Search(s, query, k, oracle)| == if |s.all| <= k then |s.all| else k
  {
    var pool, live := Pool(s, query, k, oracle), HitsOf(query, s.all);
    DedupKeepsIds(pool);
    SortKeeps(Dedup(pool));
    LiveHitsDistinct(s.all, query);
    DistinctIffCounted(Dedup(pool));
    DistinctIffCounted(live);
    PoolIdsAreLive(s, query, k, oracle);
    SubsetSize(HitIds(pool), HitIds(live));
    var near := Truncate(Live(oracle, ItemIds(s.all)), ScanCap(k));
    if |Live(oracle, ItemIds(s.all))| <= ScanCap(k) {
      LiveIdsArePooled(s, query, k, oracle, at);
      assert HitIds(live) == HitIds(pool);
    } else {
      AllLiveDistinct(s, query, oracle, at);
      DistinctIffCounted(near);
      FrontIds(near, SortByDistance(HitsOf(query, s.overflow)));
      SubsetSize(HitIds(near), HitIds(pool));
    }
  }

  lemma FrontIds(front: seq<Hit>, rest: seq<Hit>)
    ensures HitIds(front) <= HitIds(front + rest)
  {
    forall x | x in HitIds(front) ensures x in HitIds(front + rest) {
      var i :| 0 <= i < |front| && front[i].id == x;
      assert (front + rest)[i].id == x;
    }
  }

  lemma PoolIdsAreLive(s: IndexState, query: Vector, k: nat, oracle: seq<Hit>)
    requires Consistent(s)
    ensures HitIds(Pool(s, query, k, oracle)) <= ItemIds(s.all)
  {
    var pool := Pool(s, query, k, oracle);
    forall x | x in HitIds(pool) ensures x in ItemIds(s.all) {
      var i :| 0 <= i < |pool| && pool[i].id == x;
      PooledIdIsLive(s, query, k, oracle, pool[i]);
    }
  }

  lemma LiveIdsArePooled(s: IndexState, query: Vector, k: nat, oracle: seq<Hit>, at: seq<nat>)
    requires Consistent(s) && Answers(oracle, at, s.snapshot, query) && Exact(at, s.snapshot)
    requires |Live(oracle, ItemIds(s.all))| <= ScanCap(k)
    ensures HitIds(HitsOf(query, s.all)) <= HitIds(Pool(s, query, k, oracle))
  {
    var pool, live := Pool(s, query, k, oracle), HitsOf(query, s.all);
    forall x | x in HitIds(live) ensures x in HitIds(pool) {
      var i :| 0 <= i < |live| && live[i].id == x;
      LiveIsPooled(s, query, k, oracle, at, live[i]);
      var j :| 0 <= j < |pool| && pool[j] == live[i];
    }
  }

  /**
   The index refines the linear scan. With an exact oracle, and where no
   re-inserted id has changed its distance to the query, the result is k nearest
   of the live entries, nearest first, and its distances are those of the linear
   scan, in spite of the cut at 2k, the filter, the merge and the de-duplication.
   */
  lemma SearchIsLinearScan(s: IndexState, query: Vector, k: nat, oracle: seq<Hit>, at: seq<nat>)
    requires Consistent(s) && UniqueIds(s.all) && OnePerId(s) && Current(s, query)
    requires Answers(oracle, at, s.snapshot, query) && Exact(at, s.snapshot)
    ensures Nearest(Search(s, query, k, oracle), HitsOf(query, s.all), k)
    ensures var r, t := Search(s, query, k, oracle), LinearScan(s.all, query, k);
            |r| == |t| && forall i :: 0 <= i < |r| ==> r[i].distance == t[i].distance
  {
    var pool, live := Pool(s, query, k, oracle), HitsOf(query, s.all);
    var r := Search(s, query, k, oracle);
    DedupKeepsIds(pool);
    SortedCutIsNearest(Dedup(pool), k);
    LiveHitsDistinct(s.all, query);
    SearchSize(s, query, k, oracle, at);
    forall h | h in r ensures h in live { PoolIsLive(s, query, k, oracle, at, h); }
    forall h, i | h in live && h !in r && 0 <= i < |r| ensures r[i].distance <= h.distance {
      LeftOutIsFarther(s, query, k, oracle, at, h, i);
    }
    SortedCutIsNearest(live, k);
    NearestIsUnique(r, LinearScan(s.all, query, k), live, k);
  }

  /** Asked for everything, search reports what the snapshot has under a valid id, current or not. */
  lemma SnapshotHitIsReported(s: IndexState, query: Vector, oracle: seq<Hit>, at: seq<nat>, f: Item)
    requires Consistent(s) && UniqueIds(s.all) && OnePerId(s)
    requires Answers(oracle, at, s.snapshot, query) && Exact(at, s.snapshot)
    requires f in s.snapshot && f.id in ItemIds(s.all)
    ensures HitOf(query, f) in Search(s, query, |s.all|, oracle)
  {
    var k, live := |s.all|, Live(oracle, ItemIds(s.all));
    var pool := Pool(s, query, k, oracle);
    OracleFindsLive(s, query, oracle, at, f);
    AllLiveDistinct(s, query, oracle, at);
    LiveFits(s, query, oracle, at);
    DedupKeepsFront(live, SortByDistance(HitsOf(query, s.overflow)));
    SearchSize(s, query, k, oracle, at);
    SortKeeps(Dedup(pool));
  }

  lemma LiveFits(s: IndexState, query: Vector, oracle: seq<Hit>, at: seq<nat>)
    requires UniqueIds(s.all) && OnePerId(s) && Answers(oracle, at, s.snapshot, query)
    ensures |Live(oracle, ItemIds(s.all))| <= |s.all|
  {
    var live := Live(oracle, ItemIds(s.all));
    AllLiveDistinct(s, query, oracle, at);
    DistinctIffCounted(live);
    LiveMembers(oracle, ItemIds(s.all));
    assert forall i :: 0 <= i < |live| ==> live[i] in live;
    LiveHitsDistinct(s.all, query);
    DistinctIffCounted(HitsOf(query, s.all));
    SubsetSize(HitIds(live), ItemIds(s.all));
  }

  /**
   The condition is exact: with an exact oracle, the search for all entries
   agrees with the linear scan if and only if no re-inserted id has changed its
   distance to the query.
   */
  lemma SearchIsLinearScanIff(s: IndexState, query: Vector, oracle: seq<Hit>, at: seq<nat>)
    requires Consistent(s) && UniqueIds(s.all) && OnePerId(s)
    requires Answers(oracle, at, s.snapshot, query) && Exact(at, s.snapshot)
    ensures Nearest(Search(s, query, |s.all|, oracle), HitsOf(query, s.all), |s.all|) <==> Current(s, query)
  {
    if Current(s, query) { SearchIsLinearScan(s, query, |s.all|, oracle, at); }
    if Nearest(Search(s, query, |s.all|, oracle), HitsOf(query, s.all), |s.all|) {
      forall e, f | e in s.overflow && f in s.snapshot && e.id == f.id
        ensures Distance(query, e.emb) == Distance(query, f.emb)
      {
        assert e in s.all;
        MemberHasId(s.all);
        SnapshotHitIsReported(s, query, oracle, at, f);
        LiveEntryHit(s, query, e);
        LiveHitsDistinct(s.all, query);
        assert HitOf(query, f) in HitsOf(query, s.all);
      }
    }
  }

  // ----- freshness --------------------------------------------------------

  /** Without re-inserted ids the conditions hold for every query. */
  lemma FreshIsCurrent(s: IndexState, query: Vector)
    requires Consistent(s) && Fresh(s)
    ensures UniqueIds(s.all) && OnePerId(s) && Current(s, query)
  {
    MemberHasId(s.overflow);
    MemberHasId(s.snapshot);
    forall p, q | 0 <= p < q < |s.snapshot| && s.snapshot[p].id in ItemIds(s.all)
      ensures s.snapshot[p].id != s.snapshot[q].id
    {
      FreshPositionIsKept(s, s.snapshot[p]);
      var kept := Retain(s.snapshot, s.gone);
      assert forall i :: 0 <= i < |kept| ==> s.all[i] == kept[i];
      if s.snapshot[q].id !in s.gone { KeptUnique(s.snapshot, s.gone, p, q); }
    }
  }

  lemma FreshPositionIsKept(s: IndexState, e: Item)
    requires Consistent(s) && Fresh(s) && e in s.snapshot && e.id in ItemIds(s.all)
    ensures e.id !in s.gone
  {
    MemberHasId(s.snapshot);
    MemberHasId(s.overflow);
    MemberHasId(s.all);
    var f :| f in s.all && f.id == e.id;
    assert f !in s.overflow;
    RetainMembers(s.snapshot, s.gone, f);
  }

  lemma {:induction false} KeptUnique(es: seq<Item>, gone: set<string>, p: nat, q: nat)
    requires p < q < |es| && UniqueIds(Retain(es, gone)) && es[p].id !in gone && es[q].id !in gone
    ensures es[p].id != es[q].id
  {
    var init, last := es[..|es| - 1], es[|es| - 1];
    var kept, before := Retain(es, gone), Retain(init, gone);
    assert forall i :: 0 <= i < |before| ==> kept[i] == before[i];
    if q < |init| {
      KeptUnique(init, gone, p, q);
    } else {
      RetainMembers(init, gone, es[p]);
      assert init[p] == es[p];
      var i :| 0 <= i < |before| && before[i] == es[p];
      assert kept[|before|] == last;
    }
  }

  /** The index after building with one vector, removing its id and inserting it with another. */
  lemma ReinsertedState(id: string, before: Vector, after: Vector)
    ensures var s := AfterOps([Item(id, before)], [RemoveOp(id), InsertOp(Item(id, after))]);
            s.snapshot == [Item(id, before)] && s.overflow == [Item(id, after)] && s.all == [Item(id, after)]
  {
    var first, second := Item(id, before), Item(id, after);
    var ops := [RemoveOp(id), InsertOp(second)];
    assert ops[..1] == [RemoveOp(id)] && ops[..1][..0] == [];
    assert AfterOps([first], ops[..1]) == Remove(Build([first]), id);
    assert Retain([first], {id}) == [] by { assert [first][..0] == []; }
  }

  /** In that state search is wrong for every query that the two vectors are not equally far from. */
  lemma StaleDistance(id: string, before: Vector, after: Vector, query: Vector)
    requires Distance(query, before) != Distance(query, after)
    ensures var s := AfterOps([Item(id, before)], [RemoveOp(id), InsertOp(Item(id, after))]);
            var oracle := [HitOf(query, Item(id, before))];
            && Answers(oracle, [0], s.snapshot, query) && Exact([0], s.snapshot)
            && !Nearest(Search(s, query, 1, oracle), HitsOf(query, s.all), 1)
  {
    var ops := [RemoveOp(id), InsertOp(Item(id, after))];
    var s := AfterOps([Item(id, before)], ops);
    ReinsertedState(id, before, after);
    OpsConsistent([Item(id, before)], ops);
    var oracle := [HitOf(query, Item(id, before))];
    assert Exact([0], s.snapshot);
    SearchIsLinearScanIff(s, query, oracle, [0]);
    assert Item(id, after) in s.overflow && Item(id, before) in s.snapshot;
  }
}
