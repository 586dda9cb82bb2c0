/** One daemon and one peer, cycle after cycle: progress, convergence and the stall. */
module SyncConvergence {
  import opened Basics
  import opened SyncStore
  import opened SyncProtocol
  import opened SyncTheorems

  /** Rows one push request may carry; a larger request is refused whole. */
  const MAX_BULK_SIZE := 1000
  /** Rows one pull answer may carry. */
  const MAX_SINCE_LIMIT := 10000

  /**
   The daemon's store, its peer's store, and the daemon's two watermarks for that
   peer. They sit in one row, which has a pull mark once it exists at all.
   */
  datatype Pair = Pair(local: Store, peer: Store, pulled: Mark, pushed: Mark)

  datatype Fate =
    | PullFailed   // the cycle ends before anything is merged
    | PushFailed   // the peer never applied the push
    | ReplyLost    // the peer applied the push, the daemon saw an error
    | Completed

  /** `now` is the daemon's clock when it records the push. */
  datatype Cycle = Cycle(fate: Fate, pull: seq<Entry>, push: seq<Entry>, now: int)

  function PullLimit(limit: nat): nat {
    if limit <= MAX_SINCE_LIMIT then limit else MAX_SINCE_LIMIT
  }

  function AfterPull(p: Pair, page: seq<Entry>): Pair {
    p.(local := MergePage(p.local, page), pulled := MarkAfter(p.pulled, page))
  }

  /** The pull mark after a push was recorded: creating the row fills it with the current time. */
  function PulledAfterRecord(pulled: Mark, page: seq<Entry>, now: int): Mark {
    if page != [] && pulled.None? then Some(now) else pulled
  }

  function AfterPush(p: Pair, page: seq<Entry>, recorded: bool, now: int): Pair {
    if |page| > MAX_BULK_SIZE then p
    else if !recorded then p.(peer := MergePage(p.peer, page))
    else p.(peer := MergePage(p.peer, page), pushed := MarkAfter(p.pushed, page),
            pulled := PulledAfterRecord(p.pulled, page, now))
  }

  function CycleEnd(p: Pair, c: Cycle): Pair {
    match c.fate
    case PullFailed => p
    case PushFailed => AfterPull(p, c.pull)
    case ReplyLost => AfterPush(AfterPull(p, c.pull), c.push, false, c.now)
    case Completed => AfterPush(AfterPull(p, c.pull), c.push, true, c.now)
  }

  /** The pages of the cycle are answers the two stores may give. */
  ghost predicate IsCycle(p: Pair, limit: nat, c: Cycle) {
    c.fate != PullFailed ==>
      && IsPage(c.pull, p.peer, p.pulled, PullLimit(limit))
      && IsPage(c.push, AfterPull(p, c.pull).local, p.pushed, limit)
  }

  ghost predicate Chain(ps: seq<Pair>, cs: seq<Cycle>, limit: nat) {
    && |ps| == |cs| + 1
    && forall i :: 0 <= i < |cs| ==> IsCycle(ps[i], limit, cs[i]) && ps[i + 1] == CycleEnd(ps[i], cs[i])
  }

  ghost predicate PairInv(log: History, p: Pair) {
    && AuthenticStore(log, p.local) && AuthenticStore(log, p.peer)
    && Safe(p.peer, p.local, p.pulled) && Safe(p.local, p.peer, p.pushed)
  }

  /** Every state of every two-node run gives the two laws a daemon's cycles start from. */
  lemma RunGivesPairInv(ws: seq<World>, steps: seq<Step>, a: Node, b: Node, pull: LinkId, push: LinkId, i: nat)
    requires IsRun(ws, steps) && Init(ws[0]) && TwoNodes(ws[0], a, b) && i < |ws|
    requires pull in ws[0].links && ws[0].links[pull].src == b && ws[0].links[pull].dst == a
    requires push in ws[0].links && ws[0].links[push].src == a && ws[0].links[push].dst == b
    requires forall j :: 0 <= j < i ==> CoveredStep(ws[j], steps[j], pull) && CoveredStep(ws[j], steps[j], push)
    ensures a in ws[i].stores && b in ws[i].stores && pull in ws[i].links && push in ws[i].links
    ensures PairInv(ws[i].log, Pair(ws[i].stores[a], ws[i].stores[b], ws[i].links[pull].mark, ws[i].links[push].mark))
  {
    RunStaysFed(ws, steps, pull, i);
    RunStaysFed(ws, steps, push, i);
    RunKeepsLink(ws, steps, pull, i);
    RunKeepsLink(ws, steps, push, i);
  }

  // ----- the cycle is a run of the protocol --------------------------------

  /** Daemon node `a` and peer `b`, between transfers; recording a push can create the pull mark. */
  ghost predicate DaemonWorld(w: World, a: Node, b: Node, pull: LinkId, push: LinkId) {
    && a != b && a in w.stores && b in w.stores && pull != push && pull in w.links && push in w.links
    && w.links[pull].src == b && w.links[pull].dst == a && w.links[pull].twin.None? && w.links[pull].flight.None?
    && w.links[push].src == a && w.links[push].dst == b && w.links[push].twin == Some(pull)
    && w.links[push].flight.None?
  }

  ghost function PairIn(w: World, a: Node, b: Node, pull: LinkId, push: LinkId): Pair
    requires DaemonWorld(w, a, b, pull, push)
  {
    Pair(w.stores[a], w.stores[b], w.links[pull].mark, w.links[push].mark)
  }

  /** The pull half as a run. */
  lemma PullIsRun(w: World, a: Node, b: Node, pull: LinkId, push: LinkId, limit: nat, page: seq<Entry>)
    returns (ws: seq<World>, steps: seq<Step>)
    requires DaemonWorld(w, a, b, pull, push)
    requires IsPage(page, w.stores[b], w.links[pull].mark, PullLimit(limit))
    ensures IsRun(ws, steps) && ws[0] == w && DaemonWorld(ws[|ws| - 1], a, b, pull, push)
    ensures PairIn(ws[|ws| - 1], a, b, pull, push) == AfterPull(PairIn(w, a, b, pull, push), page)
  {
    ws, steps := TransferRun(w, pull, page, PullLimit(limit), 0);
  }

  /** The push half as a run: applied and recorded, applied and not recorded, or refused for its size. */
  lemma PushIsRun(w: World, a: Node, b: Node, pull: LinkId, push: LinkId, limit: nat, page: seq<Entry>,
                  recorded: bool, now: int)
    returns (ws: seq<World>, steps: seq<Step>)
    requires DaemonWorld(w, a, b, pull, push)
    requires IsPage(page, w.stores[a], w.links[push].mark, limit)
    ensures IsRun(ws, steps) && ws[0] == w && DaemonWorld(ws[|ws| - 1], a, b, pull, push)
    ensures PairIn(ws[|ws| - 1], a, b, pull, push) == AfterPush(PairIn(w, a, b, pull, push), page, recorded, now)
  {
    if |page| > MAX_BULK_SIZE {
      ws, steps := [w], [];
    } else if recorded {
      ws, steps := TransferRun(w, push, page, limit, now);
    } else {
      ws, steps := MergeRun(w, push, page, limit, |page|);
      assert page[..|page|] == page;
      ws, steps := RunExtend(ws, steps, Fail(push));
    }
  }

  /**
   Every cycle of every fate is a run of the protocol between the two worlds, so
   the watermark law covers the daemon.
   */
  lemma CycleIsRun(w: World, a: Node, b: Node, pull: LinkId, push: LinkId, limit: nat, c: Cycle)
    returns (ws: seq<World>, steps: seq<Step>)
    requires DaemonWorld(w, a, b, pull, push) && IsCycle(PairIn(w, a, b, pull, push), limit, c)
    ensures IsRun(ws, steps) && ws[0] == w && DaemonWorld(ws[|ws| - 1], a, b, pull, push)
    ensures PairIn(ws[|ws| - 1], a, b, pull, push) == CycleEnd(PairIn(w, a, b, pull, push), c)
  {
    if c.fate == PullFailed {
      ws, steps := [w], [];
    } else {
      ws, steps := PullIsRun(w, a, b, pull, push, limit, c.pull);
      if c.fate != PushFailed {
        var vs, more := PushIsRun(ws[|ws| - 1], a, b, pull, push, limit, c.push, c.fate == Completed, c.now);
        RunsCompose(ws, steps, vs, more);
        ws, steps := ws + vs[1..], steps + more;
      }
    }
  }

  /** And so is every chain of cycles. */
  lemma {:induction false} ChainIsRun(w: World, a: Node, b: Node, pull: LinkId, push: LinkId, limit: nat,
                                      ps: seq<Pair>, cs: seq<Cycle>)
    returns (ws: seq<World>, steps: seq<Step>)
    requires DaemonWorld(w, a, b, pull, push) && Chain(ps, cs, limit) && ps[0] == PairIn(w, a, b, pull, push)
    ensures IsRun(ws, steps) && ws[0] == w && DaemonWorld(ws[|ws| - 1], a, b, pull, push)
    ensures PairIn(ws[|ws| - 1], a, b, pull, push) == ps[|cs|]
    decreases |cs|
  {
    if cs == [] {
      ws, steps := [w], [];
    } else {
      var n := |cs| - 1;
      ws, steps := ChainIsRun(w, a, b, pull, push, limit, ps[..n + 1], cs[..n]);
      var vs, more := CycleIsRun(ws[|ws| - 1], a, b, pull, push, limit, cs[n]);
      RunsCompose(ws, steps, vs, more);
      ws, steps := ws + vs[1..], steps + more;
    }
  }

  // ----- every cycle, failed or not, keeps both watermark laws ----------

  lemma PageIsAuthentic(log: History, s: Store, mark: Mark, limit: nat, page: seq<Entry>)
    requires AuthenticStore(log, s) && IsPage(page, s, mark, limit)
    ensures AuthenticPage(log, page)
  {
  }

  /** What a transfer does to the opposite watermark: rows entering `src` came from `dst`. */
  lemma FeedKeepsSafe(src: Store, dst: Store, mark: Mark, page: seq<Entry>)
    requires Safe(src, dst, mark)
    requires forall i :: 0 <= i < |page| ==> Held(dst, page[i].key, page[i].row.at)
    ensures Safe(MergePage(src, page), dst, mark)
  {
  }

  /**
   One half of a cycle: `dst` merges a page of `src`, and the mark may or may not
   be recorded. A recorded non-empty page moves the mark strictly up.
   */
  lemma TransferKeeps(log: History, src: Store, dst: Store, mark: Mark, back: Mark, limit: nat, page: seq<Entry>)
    requires AuthenticStore(log, src) && AuthenticStore(log, dst)
    requires IsPage(page, src, mark, limit)
    requires Safe(src, dst, mark) && Safe(dst, src, back)
    ensures AuthenticStore(log, MergePage(dst, page))
    ensures Safe(src, MergePage(dst, page), MarkAfter(mark, page))
    ensures page != [] ==> MarkAfter(mark, page).Some? && Above(mark, MarkAfter(mark, page).value)
    ensures Safe(src, MergePage(dst, page), mark)
    ensures Safe(MergePage(dst, page), src, back)
  {
    PageIsAuthentic(log, src, mark, limit, page);
    MergePageAuthentic(log, dst, page);
    MergePageGrows(dst, page);
    if page != [] { PageCarriesSafety(log, src, dst, mark, limit, page); }
    FeedKeepsSafe(dst, src, back, page);
  }

  /** A daemon without a mark that gets an empty page for an answer has an empty peer. */
  lemma EmptyAnswerMeansEmptyPeer(p: Pair, limit: nat, c: Cycle)
    requires IsCycle(p, limit, c) && c.fate != PullFailed
    requires p.pulled.None? && c.pull == [] && c.push != []
    ensures p.peer == map[]
  {
    assert forall k :: k !in p.peer;
  }

  /** The pull mark that recording a first push makes up is safe, as nobody wrote since the pull. */
  lemma FirstRecordIsSafe(log: History, p: Pair, limit: nat, c: Cycle)
    requires PairInv(log, p) && IsCycle(p, limit, c) && c.fate != PullFailed
    ensures var q := AfterPull(p, c.pull);
            Safe(MergePage(q.peer, c.push), q.local, PulledAfterRecord(q.pulled, c.push, c.now))
  {
    var q := AfterPull(p, c.pull);
    TransferKeeps(log, p.peer, p.local, p.pulled, p.pushed, PullLimit(limit), c.pull);
    if c.push != [] && q.pulled.None? {
      EmptyAnswerMeansEmptyPeer(p, limit, c);
      TransferKeeps(log, q.local, q.peer, q.pushed, Some(c.now), limit, c.push);
    } else {
      TransferKeeps(log, q.local, q.peer, q.pushed, q.pulled, limit, c.push);
    }
  }

  /** Every cycle without a write in its midst keeps both laws, however it fails and whenever it records. */
  lemma CycleKeepsInv(log: History, p: Pair, limit: nat, c: Cycle)
    requires PairInv(log, p) && IsCycle(p, limit, c)
    ensures PairInv(log, CycleEnd(p, c))
    ensures c.fate != PullFailed ==> PairInv(log, AfterPull(p, c.pull))
  {
    if c.fate != PullFailed {
      TransferKeeps(log, p.peer, p.local, p.pulled, p.pushed, PullLimit(limit), c.pull);
      var q := AfterPull(p, c.pull);
      TransferKeeps(log, q.local, q.peer, q.pushed, q.pulled, limit, c.push);
      FirstRecordIsSafe(log, p, limit, c);
    }
  }

  // ----- the backlog ----------------------------------------------------

  ghost function Times(s: Store): set<int> {
    set k | k in s :: s[k].at
  }

  ghost function Later(all: set<int>, mark: Mark): set<int> {
    set t | t in all && Above(mark, t)
  }

  /** The version times, in either store, above a watermark. */
  ghost function TimesAbove(p: Pair, mark: Mark): set<int> {
    Later(Times(p.local) + Times(p.peer), mark)
  }

  ghost function Backlog(p: Pair): nat {
    |TimesAbove(p, p.pulled)| + |TimesAbove(p, p.pushed)|
  }

  /** Neither side has a row above the watermark it is read with. */
  ghost predicate Quiet(p: Pair) {
    && (forall k :: k in p.peer ==> !Above(p.pulled, p.peer[k].at))
    && (forall k :: k in p.local ==> !Above(p.pushed, p.local[k].at))
  }

  ghost function PageTimes(page: seq<Entry>): set<int> {
    set i | 0 <= i < |page| :: page[i].row.at
  }

  lemma {:induction false} PageTimesCount(log: History, page: seq<Entry>)
    requires AuthenticPage(log, page)
    requires forall i, j :: 0 <= i < j < |page| ==> page[i].key != page[j].key
    ensures |PageTimes(page)| == |page|
  {
    if page != [] {
      var init, last := page[..|page| - 1], page[|page| - 1];
      forall i | 0 <= i < |init| ensures Authentic(log, init[i].key, init[i].row) {
        assert Authentic(log, page[i].key, page[i].row);
      }
      PageTimesCount(log, init);
      assert Authentic(log, last.key, last.row);
      assert last.row.at !in PageTimes(init);
      assert PageTimes(page) == PageTimes(init) + {last.row.at} by {
        forall t | t in PageTimes(page) ensures t in PageTimes(init) + {last.row.at} {
          var i :| 0 <= i < |page| && page[i].row.at == t;
          if i < |init| { assert init[i].row.at == t; }
        }
        forall t | t in PageTimes(init) ensures t in PageTimes(page) {
          var i :| 0 <= i < |init| && init[i].row.at == t;
          assert page[i].row.at == t;
        }
      }
    }
  }

  /** A merge introduces no version time. */
  lemma MergeKeepsTimes(dst: Store, page: seq<Entry>)
    ensures Times(MergePage(dst, page)) <= Times(dst) + PageTimes(page)
  {
    forall t | t in Times(MergePage(dst, page)) ensures t in Times(dst) + PageTimes(page) {
      var k :| k in MergePage(dst, page) && MergePage(dst, page)[k].at == t;
      MergePageOrigin(dst, page, k);
    }
  }

  lemma PageTimesFromSource(src: Store, mark: Mark, limit: nat, page: seq<Entry>)
    requires IsPage(page, src, mark, limit)
    ensures PageTimes(page) <= Times(src)
    ensures forall t :: t in PageTimes(page) ==> Above(mark, t) && !Above(MarkAfter(mark, page), t)
  {
  }

  /** A recorded transfer shortens its own backlog by at least the rows it moved. */
  lemma TransferShrinks(log: History, src: Store, dst: Store, mark: Mark, limit: nat, page: seq<Entry>,
                        all: set<int>, all': set<int>)
    requires AuthenticStore(log, src) && IsPage(page, src, mark, limit)
    requires Times(src) <= all && all' <= all
    ensures |Later(all', MarkAfter(mark, page))| + |page| <= |Later(all, mark)|
  {
    PageIsAuthentic(log, src, mark, limit, page);
    PageTimesCount(log, page);
    PageTimesFromSource(src, mark, limit, page);
    var before, after := Later(all, mark), Later(all', MarkAfter(mark, page));
    var moved := PageTimes(page);
    assert after !! moved;
    assert |after + moved| == |after| + |moved|;
    forall t | t in after + moved ensures t in before {}
    SubsetSize(after + moved, before);
  }

  lemma NoNewTimes(p: Pair, limit: nat, c: Cycle)
    requires IsCycle(p, limit, c) && c.fate != PullFailed
    ensures var q, r := AfterPull(p, c.pull), CycleEnd(p, c);
            && Times(q.local) + Times(q.peer) <= Times(p.local) + Times(p.peer)
            && Times(r.local) + Times(r.peer) <= Times(q.local) + Times(q.peer)
  {
    var q := AfterPull(p, c.pull);
    MergeKeepsTimes(p.local, c.pull);
    PageTimesFromSource(p.peer, p.pulled, PullLimit(limit), c.pull);
    MergeKeepsTimes(q.peer, c.push);
    PageTimesFromSource(q.local, q.pushed, limit, c.push);
  }

  /** No cycle lengthens either half of the backlog; a completed one shortens each by the rows it moved. */
  lemma CycleShrinksHalves(log: History, p: Pair, limit: nat, c: Cycle)
    requires PairInv(log, p) && IsCycle(p, limit, c)
    ensures var r := CycleEnd(p, c);
            && |TimesAbove(r, r.pulled)| <= |TimesAbove(p, p.pulled)|
            && |TimesAbove(r, r.pushed)| <= |TimesAbove(p, p.pushed)|
            && (c.fate == Completed && |c.push| <= MAX_BULK_SIZE ==>
                  && |TimesAbove(r, r.pulled)| + |c.pull| <= |TimesAbove(p, p.pulled)|
                  && |TimesAbove(r, r.pushed)| + |c.push| <= |TimesAbove(p, p.pushed)|)
  {
    if c.fate != PullFailed {
      var q, r := AfterPull(p, c.pull), CycleEnd(p, c);
      CycleKeepsInv(log, p, limit, c);
      var all0 := Times(p.local) + Times(p.peer);
      var all1 := Times(q.local) + Times(q.peer);
      var all2 := Times(r.local) + Times(r.peer);
      NoNewTimes(p, limit, c);
      TransferShrinks(log, p.peer, p.local, p.pulled, PullLimit(limit), c.pull, all0, all2);
      TransferShrinks(log, q.local, q.peer, q.pushed, limit, c.push, all1, all2);
      LaterShrinks(all0, all1, p.pushed, p.pushed);
      LaterShrinks(all1, all2, p.pushed, p.pushed);
      if r.pulled != q.pulled { LaterShrinks(all2, all2, None, r.pulled); }
    }
  }

  /** A cycle never lengthens the backlog; a completed one shortens it by every row it moved. */
  lemma CycleShrinksBacklog(log: History, p: Pair, limit: nat, c: Cycle)
    requires PairInv(log, p) && IsCycle(p, limit, c)
    ensures Backlog(CycleEnd(p, c)) <= Backlog(p)
    ensures c.fate == Completed && |c.push| <= MAX_BULK_SIZE ==>
              Backlog(CycleEnd(p, c)) + |c.pull| + |c.push| <= Backlog(p)
  {
    CycleShrinksHalves(log, p, limit, c);
  }

  lemma LaterShrinks(all: set<int>, all': set<int>, mark: Mark, mark': Mark)
    requires all' <= all && (mark' == mark || mark.None?)
    ensures |Later(all', mark')| <= |Later(all, mark)|
  {
    SubsetSize(Later(all', mark'), Later(all, mark));
  }

  /** Unless both sides are quiet, a cycle that reaches its pages moves a row. */
  lemma BusyCycleMoves(p: Pair, limit: nat, c: Cycle)
    requires limit >= 1 && IsCycle(p, limit, c) && c.fate != PullFailed && !Quiet(p)
    ensures c.pull != [] || c.push != []
  {
  }

  lemma QuietStaysQuiet(p: Pair, limit: nat, c: Cycle)
    requires Quiet(p) && IsCycle(p, limit, c)
    ensures CycleEnd(p, c) == p
  {
  }

  /** Quiet nodes hold the same rows. */
  lemma QuietMeansAgree(log: History, p: Pair)
    requires PairInv(log, p) && Quiet(p)
    ensures Agree(p.local, p.peer)
  {
    forall k | k in p.local ensures Held(p.peer, k, p.local[k].at) {
      assert !Above(p.pushed, p.local[k].at);
    }
    forall k | k in p.peer ensures Held(p.local, k, p.peer[k].at) {
      assert !Above(p.pulled, p.peer[k].at);
    }
    forall k | k in p.local ensures p.local[k].at == p.peer[k].at && p.local[k].content == p.peer[k].content {
      assert Held(p.peer, k, p.local[k].at) && Held(p.local, k, p.peer[k].at);
      assert Authentic(log, k, p.local[k]) && Authentic(log, k, p.peer[k]);
    }
  }

  lemma EmptyBacklogIsQuiet(p: Pair)
    requires Backlog(p) == 0
    ensures Quiet(p)
  {
    forall k | k in p.peer ensures !Above(p.pulled, p.peer[k].at) {
      assert p.peer[k].at in Times(p.peer);
      assert p.peer[k].at !in TimesAbove(p, p.pulled);
    }
    forall k | k in p.local ensures !Above(p.pushed, p.local[k].at) {
      assert p.local[k].at in Times(p.local);
      assert p.local[k].at !in TimesAbove(p, p.pushed);
    }
  }

  // ----- convergence ----------------------------------------------------

  function CompletedCount(cs: seq<Cycle>): nat {
    if cs == [] then 0
    else CompletedCount(cs[..|cs| - 1]) + if cs[|cs| - 1].fate == Completed then 1 else 0
  }

  /** No completed cycle of the chain had its push refused for its size. */
  ghost predicate PushesFit(cs: seq<Cycle>) {
    forall i :: 0 <= i < |cs| && cs[i].fate == Completed ==> |cs[i].push| <= MAX_BULK_SIZE
  }

  lemma {:induction false} ChainProgress(log: History, ps: seq<Pair>, cs: seq<Cycle>, limit: nat)
    requires limit >= 1 && PushesFit(cs)
    requires Chain(ps, cs, limit) && PairInv(log, ps[0])
    ensures PairInv(log, ps[|cs|])
    ensures Quiet(ps[|cs|]) || Backlog(ps[|cs|]) + CompletedCount(cs) <= Backlog(ps[0])
  {
    if cs != [] {
      var n := |cs| - 1;
      assert Chain(ps[..n + 1], cs[..n], limit);
      ChainProgress(log, ps[..n + 1], cs[..n], limit);
      var p, c := ps[n], cs[n];
      CycleKeepsInv(log, p, limit, c);
      if Quiet(p) {
        QuietStaysQuiet(p, limit, c);
      } else {
        CycleShrinksBacklog(log, p, limit, c);
        if c.fate == Completed { BusyCycleMoves(p, limit, c); }
      }
    }
  }

  /**
   Once writes stop, any chain of cycles, of which at least as many complete as
   there were version times above the two watermarks, leaves both stores equal,
   however many other cycles failed half-way in between, if no push was refused
   for its size. A batch size of at most 1000 ensures that.
   */
  lemma Converges(log: History, ps: seq<Pair>, cs: seq<Cycle>, limit: nat)
    requires limit >= 1 && (limit <= MAX_BULK_SIZE || PushesFit(cs))
    requires Chain(ps, cs, limit) && PairInv(log, ps[0])
    requires CompletedCount(cs) >= Backlog(ps[0])
    ensures Agree(ps[|cs|].local, ps[|cs|].peer)
  {
    ChainProgress(log, ps, cs, limit);
    if !Quiet(ps[|cs|]) { EmptyBacklogIsQuiet(ps[|cs|]); }
    QuietMeansAgree(log, ps[|cs|]);
  }

  /** A push that was applied but not recorded is sent again; applying it again changes nothing. */
  lemma RepeatedPushIsIdle(log: History, p: Pair, limit: nat, page: seq<Entry>, now: int)
    requires PairInv(log, p) && IsPage(page, p.local, p.pushed, limit) && |page| <= MAX_BULK_SIZE
    ensures var q := AfterPush(p, page, false, now);
            && IsPage(page, q.local, q.pushed, limit)
            && Agree(AfterPush(q, page, true, now).peer, q.peer)
  {
    PageIsAuthentic(log, p.local, p.pushed, limit, page);
    MergePageAuthentic(log, p.peer, page);
    MergePageGrows(p.peer, page);
    MergeHeldPageIsIdle(log, MergePage(p.peer, page), page);
  }

  // ----- the stall ------------------------------------------------------

  ghost function KeysAbove(s: Store, mark: Mark): set<Key> {
    set k | k in s && Above(mark, s[k].at)
  }

  function PageKeys(page: seq<Entry>): (ks: set<Key>)
    ensures |ks| <= |page|
    ensures forall e :: e in page ==> e.key in ks
  {
    if page == [] then {} else PageKeys(page[..|page| - 1]) + {page[|page| - 1].key}
  }

  /** A page carries all that waits, or as much as its limit lets it. */
  lemma PageSize(s: Store, mark: Mark, limit: nat, page: seq<Entry>)
    requires IsPage(page, s, mark, limit)
    ensures |page| == if |KeysAbove(s, mark)| <= limit then |KeysAbove(s, mark)| else limit
  {
    DistinctPageKeys(page);
    forall k | k in PageKeys(page) ensures k in KeysAbove(s, mark) {
      var i :| 0 <= i < |page| && page[i].key == k;
      assert s[page[i].key] == page[i].row;
    }
    SubsetSize(PageKeys(page), KeysAbove(s, mark));
    if |page| < limit {
      forall k | k in KeysAbove(s, mark) ensures k in PageKeys(page) { assert Entry(k, s[k]) in page; }
      SubsetSize(KeysAbove(s, mark), PageKeys(page));
    }
  }

  lemma {:induction false} DistinctPageKeys(page: seq<Entry>)
    requires forall i, j :: 0 <= i < j < |page| ==> page[i].key != page[j].key
    ensures |PageKeys(page)| == |page|
    ensures forall k :: k in PageKeys(page) <==> exists i :: 0 <= i < |page| && page[i].key == k
  {
    if page != [] {
      var init, last := page[..|page| - 1], page[|page| - 1];
      DistinctPageKeys(init);
      assert last.key !in PageKeys(init);
      forall k ensures k in PageKeys(page) <==> exists i :: 0 <= i < |page| && page[i].key == k {
        if k in PageKeys(init) {
          var i :| 0 <= i < |init| && init[i].key == k;
          assert page[i].key == k;
        }
        if i :| 0 <= i < |page| && page[i].key == k {
          if i < |init| { assert init[i].key == k; }
        }
      }
    }
  }

  /** The rows that wait for the push half of the cycle. */
  ghost function Waiting(p: Pair, c: Cycle): set<Key> {
    KeysAbove(AfterPull(p, c.pull).local, p.pushed)
  }

  /**
   A cycle the network completes moves the push mark exactly when rows wait and
   they, or the batch size, fit one request.
   */
  lemma PushMovesIff(p: Pair, limit: nat, c: Cycle)
    requires limit >= 1 && IsCycle(p, limit, c) && c.fate == Completed
    ensures CycleEnd(p, c).pushed != p.pushed <==>
            Waiting(p, c) != {} && (limit <= MAX_BULK_SIZE || |Waiting(p, c)| <= MAX_BULK_SIZE)
  {
    var q := AfterPull(p, c.pull);
    PageSize(q.local, q.pushed, limit, c.push);
    assert |Waiting(p, c)| == 0 <==> Waiting(p, c) == {};
    if c.push != [] { assert Above(q.pushed, c.push[|c.push| - 1].row.at); }
  }

  // ----- convergence counted in pages --------------------------------------

  /** A page that has room for all that waits has all that waits. */
  lemma WholePage(s: Store, mark: Mark, limit: nat, page: seq<Entry>)
    requires IsPage(page, s, mark, limit) && |KeysAbove(s, mark)| <= limit
    ensures forall k :: k in s && Above(mark, s[k].at) ==> Entry(k, s[k]) in page
  {
    forall k | k in s && Above(mark, s[k].at) ensures Entry(k, s[k]) in page {
      if Entry(k, s[k]) !in page {
        DistinctPageKeys(page);
        assert k !in PageKeys(page) by { NotOnPage(page, s, mark, limit, k); }
        forall x | x in PageKeys(page) + {k} ensures x in KeysAbove(s, mark) {
          if x in PageKeys(page) {
            var i :| 0 <= i < |page| && page[i].key == x;
            assert s[page[i].key] == page[i].row;
          }
        }
        SubsetSize(PageKeys(page) + {k}, KeysAbove(s, mark));
      }
    }
  }

  lemma NotOnPage(page: seq<Entry>, s: Store, mark: Mark, limit: nat, k: Key)
    requires IsPage(page, s, mark, limit) && k in s && Entry(k, s[k]) !in page
    ensures forall i :: 0 <= i < |page| ==> page[i].key != k
    ensures k !in PageKeys(page)
  {
    forall i | 0 <= i < |page| ensures page[i].key != k { assert page[i] in page && s[page[i].key] == page[i].row; }
    DistinctPageKeys(page);
  }

  /** After a transfer of all that waits the destination holds all the source has. */
  lemma WholeTransferHoldsAll(src: Store, dst: Store, mark: Mark, limit: nat, page: seq<Entry>)
    requires IsPage(page, src, mark, limit) && |KeysAbove(src, mark)| <= limit && Safe(src, dst, mark)
    ensures HoldsAll(MergePage(dst, page), src)
  {
    WholePage(src, mark, limit, page);
    MergePageGrows(dst, page);
    forall k | k in src ensures Held(MergePage(dst, page), k, src[k].at) {
      if Above(mark, src[k].at) {
        var i :| 0 <= i < |page| && page[i] == Entry(k, src[k]);
        assert Held(MergePage(dst, page), page[i].key, page[i].row.at);
      } else {
        assert Held(dst, k, src[k].at);
      }
    }
  }

  lemma MutualHoldingAgrees(log: History, s: Store, t: Store)
    requires AuthenticStore(log, s) && AuthenticStore(log, t) && HoldsAll(s, t) && HoldsAll(t, s)
    ensures Agree(s, t)
  {
    forall k | k in s ensures k in t && s[k].at == t[k].at && s[k].content == t[k].content {
      assert Held(t, k, s[k].at) && Held(s, k, t[k].at);
      assert Authentic(log, k, s[k]) && Authentic(log, k, t[k]);
    }
    forall k | k in t ensures k in s { assert Held(s, k, t[k].at); }
  }

  /** One completed cycle is enough when all that waits fits one pull page and one push request. */
  lemma ExhaustiveCycleAgrees(log: History, p: Pair, limit: nat, c: Cycle)
    requires PairInv(log, p) && IsCycle(p, limit, c) && c.fate == Completed && |c.push| <= MAX_BULK_SIZE
    requires |KeysAbove(p.peer, p.pulled)| <= PullLimit(limit) && |Waiting(p, c)| <= limit
    ensures Agree(CycleEnd(p, c).local, CycleEnd(p, c).peer)
  {
    var q, r := AfterPull(p, c.pull), CycleEnd(p, c);
    CycleKeepsInv(log, p, limit, c);
    WholeTransferHoldsAll(p.peer, p.local, p.pulled, PullLimit(limit), c.pull);
    WholeTransferHoldsAll(q.local, q.peer, q.pushed, limit, c.push);
    MergedIsStillHeld(q.peer, q.local, q.pushed, limit, c.push);
    MutualHoldingAgrees(log, r.local, r.peer);
  }

  /** Merging rows of a store that holds everything leaves it holding everything. */
  lemma MergedIsStillHeld(dst: Store, src: Store, mark: Mark, limit: nat, page: seq<Entry>)
    requires HoldsAll(src, dst) && IsPage(page, src, mark, limit)
    ensures HoldsAll(src, MergePage(dst, page))
  {
    forall k | k in MergePage(dst, page) ensures Held(src, k, MergePage(dst, page)[k].at) {
      MergePageOrigin(dst, page, k);
      if k in dst && dst[k].at == MergePage(dst, page)[k].at {
        assert Held(src, k, dst[k].at);
      } else {
        var i :| 0 <= i < |page| && page[i].key == k && page[i].row.at == MergePage(dst, page)[k].at;
        assert src[page[i].key] == page[i].row;
      }
    }
  }

  /** Equal stores stay equal, whatever a cycle sends back and forth. */
  lemma AgreeStays(log: History, p: Pair, limit: nat, c: Cycle)
    requires PairInv(log, p) && IsCycle(p, limit, c) && Agree(p.local, p.peer)
    ensures Agree(CycleEnd(p, c).local, CycleEnd(p, c).peer)
  {
    if c.fate != PullFailed {
      var q := AfterPull(p, c.pull);
      CycleKeepsInv(log, p, limit, c);
      HeldTransferIsIdle(log, p.peer, p.local, p.pulled, PullLimit(limit), c.pull);
      HeldTransferIsIdle(log, q.local, q.peer, q.pushed, limit, c.push);
    }
  }

  lemma HeldTransferIsIdle(log: History, src: Store, dst: Store, mark: Mark, limit: nat, page: seq<Entry>)
    requires AuthenticStore(log, src) && AuthenticStore(log, dst) && IsPage(page, src, mark, limit) && Agree(src, dst)
    ensures Agree(MergePage(dst, page), dst)
  {
    PageIsAuthentic(log, src, mark, limit, page);
    forall i | 0 <= i < |page| ensures Held(dst, page[i].key, page[i].row.at) {
      assert src[page[i].key] == page[i].row;
    }
    MergeHeldPageIsIdle(log, dst, page);
  }

  /** A completed cycle that does not make the stores equal fills its pull page or its push request. */
  lemma ShortCycleAgrees(log: History, p: Pair, limit: nat, c: Cycle)
    requires PairInv(log, p) && IsCycle(p, limit, c) && c.fate == Completed && |c.push| <= MAX_BULK_SIZE
    ensures |c.pull| == PullLimit(limit) || |c.push| == limit || Agree(CycleEnd(p, c).local, CycleEnd(p, c).peer)
  {
    PageSize(p.peer, p.pulled, PullLimit(limit), c.pull);
    PageSize(AfterPull(p, c.pull).local, p.pushed, limit, c.push);
    if |c.pull| < PullLimit(limit) && |c.push| < limit { ExhaustiveCycleAgrees(log, p, limit, c); }
  }

  /** How many full pages of a size a count makes. */
  function FullPages(count: nat, size: nat): (n: nat)
    requires size > 0
    ensures n <= count && (n == 0 <==> count < size)
  {
    if count < size then 0 else 1 + FullPages(count - size, size)
  }

  lemma {:induction false} FullPagesRise(a: nat, b: nat, size: nat)
    requires size > 0 && a <= b
    ensures FullPages(a, size) <= FullPages(b, size)
  {
    if a >= size { FullPagesRise(a - size, b - size, size); }
  }

  /** A page less, or nothing gained. */
  lemma PageLess(after: nat, before: nat, moved: nat, size: nat)
    requires size > 0 && after + moved <= before
    ensures FullPages(after, size) <= FullPages(before, size)
    ensures moved == size ==> FullPages(after, size) + 1 <= FullPages(before, size)
  {
    FullPagesRise(after, before, size);
    if moved == size { FullPagesRise(after, before - size, size); }
  }

  /** The full pages of either kind that the backlog makes. */
  ghost function PagesWaiting(p: Pair, limit: nat): nat
    requires limit >= 1
  {
    FullPages(|TimesAbove(p, p.pulled)|, PullLimit(limit)) + FullPages(|TimesAbove(p, p.pushed)|, limit)
  }

  /** One more cycle: a full page of either kind if it completes, and none gained if it does not. */
  lemma CycleSendsPage(log: History, p: Pair, limit: nat, c: Cycle)
    requires limit >= 1 && PairInv(log, p) && IsCycle(p, limit, c)
    requires c.fate == Completed ==> |c.push| <= MAX_BULK_SIZE
    ensures Agree(CycleEnd(p, c).local, CycleEnd(p, c).peer) ||
            PagesWaiting(CycleEnd(p, c), limit) + (if c.fate == Completed then 1 else 0) <= PagesWaiting(p, limit)
  {
    var r := CycleEnd(p, c);
    var pulled, pushed := if c.fate == Completed then |c.pull| else 0, if c.fate == Completed then |c.push| else 0;
    CycleShrinksHalves(log, p, limit, c);
    PageLess(|TimesAbove(r, r.pulled)|, |TimesAbove(p, p.pulled)|, pulled, PullLimit(limit));
    PageLess(|TimesAbove(r, r.pushed)|, |TimesAbove(p, p.pushed)|, pushed, limit);
    if c.fate == Completed { ShortCycleAgrees(log, p, limit, c); }
  }

  lemma {:induction false} ChainSendsPages(log: History, ps: seq<Pair>, cs: seq<Cycle>, limit: nat)
    requires limit >= 1 && PushesFit(cs) && Chain(ps, cs, limit) && PairInv(log, ps[0])
    ensures PairInv(log, ps[|cs|])
    ensures Agree(ps[|cs|].local, ps[|cs|].peer) ||
            PagesWaiting(ps[|cs|], limit) + CompletedCount(cs) <= PagesWaiting(ps[0], limit)
  {
    if cs != [] {
      var n := |cs| - 1;
      assert Chain(ps[..n + 1], cs[..n], limit);
      ChainSendsPages(log, ps[..n + 1], cs[..n], limit);
      CycleKeepsInv(log, ps[n], limit, cs[n]);
      if Agree(ps[n].local, ps[n].peer) {
        AgreeStays(log, ps[n], limit, cs[n]);
      } else {
        CycleSendsPage(log, ps[n], limit, cs[n]);
      }
    }
  }

  /**
   Convergence counted in pages: once writes stop, the stores are equal after one
   completed cycle more than full pull pages and full push requests go into the
   backlogs above the two marks, with any failed cycles in between.
   */
  lemma ConvergesInPages(log: History, ps: seq<Pair>, cs: seq<Cycle>, limit: nat)
    requires limit >= 1 && (limit <= MAX_BULK_SIZE || PushesFit(cs))
    requires Chain(ps, cs, limit) && PairInv(log, ps[0])
    requires CompletedCount(cs) > PagesWaiting(ps[0], limit)
    ensures Agree(ps[|cs|].local, ps[|cs|].peer)
  {
    ChainSendsPages(log, ps, cs, limit);
  }

  /**
   With a batch size over the push limit the daemon can stop for ever: once more
   rows wait than a push may carry, no later cycle changes the peer or the push mark.
   */
  lemma {:induction false} OversizeBatchStalls(ps: seq<Pair>, cs: seq<Cycle>, limit: nat)
    requires Chain(ps, cs, limit) && limit > MAX_BULK_SIZE
    requires |KeysAbove(ps[0].local, ps[0].pushed)| > MAX_BULK_SIZE
    ensures ps[|cs|].peer == ps[0].peer && ps[|cs|].pushed == ps[0].pushed
    ensures |KeysAbove(ps[|cs|].local, ps[|cs|].pushed)| > MAX_BULK_SIZE
  {
    if cs != [] {
      var n := |cs| - 1;
      OversizeBatchStalls(ps[..n + 1], cs[..n], limit);
      var p, c := ps[n], cs[n];
      if c.fate != PullFailed {
        var q := AfterPull(p, c.pull);
        MergePageGrows(p.local, c.pull);
        forall k | k in KeysAbove(p.local, p.pushed) ensures k in KeysAbove(q.local, q.pushed) {
          assert Held(p.local, k, p.local[k].at);
          assert Held(q.local, k, p.local[k].at);
        }
        SubsetSize(KeysAbove(p.local, p.pushed), KeysAbove(q.local, q.pushed));
        PageSize(q.local, q.pushed, limit, c.push);
      }
    }
  }
}
