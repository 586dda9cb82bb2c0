/** Safety of the sync protocol over every run, and the runs that show its hypotheses are needed. */
module SyncTheorems {
  import opened Basics
  import opened SyncStore
  import opened SyncProtocol

  /** Nodes and links stay, and where the links lead. */
  lemma StepKeepsShape(w: World, s: Step)
    requires WellFormed(w) && Enabled(w, s)
    ensures WellFormed(Apply(w, s))
    ensures Apply(w, s).stores.Keys == w.stores.Keys && Apply(w, s).links.Keys == w.links.Keys
    ensures forall l :: l in w.links ==> SameEnds(w.links[l], Apply(w, s).links[l])
  {
    var w' := Apply(w, s);
    forall l | l in w.links ensures l in w'.links && SameEnds(w.links[l], w'.links[l]) {}
    assert w'.stores.Keys == w.stores.Keys && w'.links.Keys == w.links.Keys;
    forall l | l in w'.links && w'.links[l].twin.Some?
      ensures w'.links[l].twin.value in w'.links
           && SameEnds(w.links[w'.links[l].twin.value], w'.links[w'.links[l].twin.value]) {}
  }

  predicate SameEnds(link: Link, link': Link) {
    link'.src == link.src && link'.dst == link.dst && link'.twin == link.twin
  }

  lemma StepKeepsGenuine(w: World, s: Step)
    requires Genuine(w) && Enabled(w, s)
    ensures Genuine(Apply(w, s))
  {
    var w' := Apply(w, s);
    StepKeepsShape(w, s);
    forall n | n in w'.stores ensures AuthenticStore(w'.log, w'.stores[n]) {
      StoreStaysAuthentic(w, s, n);
    }
    forall l | l in w'.links ensures LinkGenuine(w'.log, w'.stores[w'.links[l].src], w'.links[l]) {
      LinkStaysGenuine(w, s, l);
    }
  }

  lemma StoreStaysAuthentic(w: World, s: Step, n: Node)
    requires Genuine(w) && Enabled(w, s) && n in w.stores
    ensures n in Apply(w, s).stores && AuthenticStore(Apply(w, s).log, Apply(w, s).stores[n])
  {
  }

  /** Stores only move to newer versions. */
  lemma StoresGrow(w: World, s: Step, n: Node, k: Key, t: int)
    requires Enabled(w, s) && n in w.stores && Held(w.stores[n], k, t)
    ensures n in Apply(w, s).stores && Held(Apply(w, s).stores[n], k, t)
  {
  }

  lemma LinkStaysGenuine(w: World, s: Step, l: LinkId)
    requires Genuine(w) && Enabled(w, s) && l in w.links
    ensures var w' := Apply(w, s);
            l in w'.links && w'.links[l].src in w'.stores
            && LinkGenuine(w'.log, w'.stores[w'.links[l].src], w'.links[l])
  {
    var w' := Apply(w, s);
    var src := w.links[l].src;
    assert LinkGenuine(w.log, w.stores[src], w.links[l]);
    forall e | Sourced(w.log, w.stores[src], e) ensures Sourced(w'.log, w'.stores[src], e) {
      StoresGrow(w, s, src, e.key, e.row.at);
    }
    if s.Open? && s.l == l {
      assert AuthenticStore(w.log, w.stores[src]);
      forall i | 0 <= i < |s.page| ensures Sourced(w'.log, w'.stores[src], s.page[i]) {
        assert Authentic(w.log, s.page[i].key, w.stores[src][s.page[i].key]);
      }
    }
  }

  /** The link's law in a whole world. */
  ghost predicate LinkOkIn(w: World, l: LinkId) {
    && l in w.links && w.links[l].src in w.stores && w.links[l].dst in w.stores
    && LinkOk(w.stores[w.links[l].src], w.stores[w.links[l].dst], w.links[l])
  }

  lemma WriteKeepsLink(w: World, s: Step, l: LinkId)
    requires Genuine(w) && Enabled(w, s) && s.Write? && l in w.links && SoleFeed(w, l) && LinkOkIn(w, l)
    ensures LinkOkIn(Apply(w, s), l)
  {
    var link := w.links[l];
    assert LinkGenuine(w.log, w.stores[link.src], link);
    if s.n == link.src {
      LinkOkWriteAtSource(w.log, w.stores[link.src], w.stores[link.dst], link, s.key, s.id, s.content, s.t);
    } else if s.n == link.dst {
      LinkOkDestinationGrows(w.stores[link.src], w.stores[link.dst], Apply(w, s).stores[link.dst], link);
    }
  }

  lemma OwnTransferKeepsLink(w: World, s: Step, l: LinkId)
    requires Genuine(w) && Enabled(w, s) && !s.Write? && !s.Late? && s.l == l
    requires l in w.links && SoleFeed(w, l) && LinkOkIn(w, l)
    ensures LinkOkIn(Apply(w, s), l)
  {
    var link := w.links[l];
    var src, dst := w.stores[link.src], w.stores[link.dst];
    assert LinkGenuine(w.log, src, link) && AuthenticStore(w.log, src);
    match s
    case Open(_, page, limit) => LinkOkOpen(w.log, src, dst, link, page, limit);
    case MergeNext(_) => LinkOkMergeNext(src, dst, link);
    case Commit(_, _) => LinkOkCommit(w.log, src, dst, link);
    case Fail(_) =>
  }

  /** If the step creates the link's mark, then at a time up to which the destination holds everything. */
  ghost predicate CoveredStep(w: World, s: Step, l: LinkId) {
    s.Commit? && Creates(w, s.l, l) && w.links[l].src in w.stores && w.links[l].dst in w.stores ==>
      Covered(w.stores[w.links[l].src], w.stores[w.links[l].dst], s.now)
  }

  /** One step keeps the watermark law of a link whose source is fed only by its destination. */
  lemma StepKeepsLink(w: World, s: Step, l: LinkId)
    requires Genuine(w) && Enabled(w, s) && l in w.links && SoleFeed(w, l) && LinkOkIn(w, l)
    requires CoveredStep(w, s, l)
    ensures LinkOkIn(Apply(w, s), l)
  {
    if s.Write? {
      WriteKeepsLink(w, s, l);
    } else if s.l == l && !s.Late? {
      OwnTransferKeepsLink(w, s, l);
    } else if s.MergeNext? || s.Late? {
      var e := ArrivingRow(w, s);
      ArrivalKeepsLink(w, l, s.l, e);
    } else if s.Commit? && Creates(w, s.l, l) {
      LinkOkStamp(w.stores[w.links[l].src], w.stores[w.links[l].dst], w.links[l], s.now);
    }
  }

  lemma ArrivalKeepsLink(w: World, l: LinkId, m: LinkId, e: Entry)
    requires Genuine(w) && l in w.links && m in w.links && SoleFeed(w, l)
    requires LinkOkIn(w, l)
    requires Held(w.stores[w.links[m].src], e.key, e.row.at)
    ensures var at := w.links[m].dst;
            var stores' := w.stores[at := InsertIfNewer(w.stores[at], e)];
            LinkOk(stores'[w.links[l].src], stores'[w.links[l].dst], w.links[l])
  {
    var link := w.links[l];
    if w.links[m].dst == link.src {
      LinkOkFedByDestination(w.stores[link.src], w.stores[link.dst], link, e);
    } else if w.links[m].dst == link.dst {
      InsertGrows(w.stores[link.dst], e);
      LinkOkDestinationGrows(w.stores[link.src], w.stores[link.dst], InsertIfNewer(w.stores[link.dst], e), link);
    }
  }

  lemma StepKeepsFeed(w: World, s: Step, l: LinkId)
    requires Enabled(w, s) && l in w.links && SoleFeed(w, l)
    ensures var w' := Apply(w, s);
            && l in w'.links && SoleFeed(w', l)
            && w'.links[l].src == w.links[l].src && w'.links[l].dst == w.links[l].dst
  {
  }

  lemma {:induction false} RunStaysFed(ws: seq<World>, steps: seq<Step>, l: LinkId, i: nat)
    requires IsRun(ws, steps) && Init(ws[0]) && l in ws[0].links && SoleFeed(ws[0], l)
    requires i < |ws|
    ensures Genuine(ws[i]) && l in ws[i].links && SoleFeed(ws[i], l)
    ensures ws[i].links[l].src == ws[0].links[l].src && ws[i].links[l].dst == ws[0].links[l].dst
  {
    if i > 0 {
      RunStaysFed(ws, steps, l, i - 1);
      StepKeepsGenuine(ws[i - 1], steps[i - 1]);
      StepKeepsFeed(ws[i - 1], steps[i - 1], l);
      assert ws[i] == Apply(ws[i - 1], steps[i - 1]);
    }
  }

  lemma {:induction false} RunKeepsLink(ws: seq<World>, steps: seq<Step>, l: LinkId, i: nat)
    requires IsRun(ws, steps) && Init(ws[0]) && l in ws[0].links && SoleFeed(ws[0], l)
    requires i < |ws| && forall j :: 0 <= j < i ==> CoveredStep(ws[j], steps[j], l)
    ensures LinkOkIn(ws[i], l)
  {
    if i > 0 {
      RunKeepsLink(ws, steps, l, i - 1);
      RunStaysFed(ws, steps, l, i - 1);
      assert CoveredStep(ws[i - 1], steps[i - 1], l);
      StepKeepsLink(ws[i - 1], steps[i - 1], l);
      assert ws[i] == Apply(ws[i - 1], steps[i - 1]);
    }
  }

  ghost predicate SafeIn(w: World, l: LinkId) {
    && l in w.links && w.links[l].src in w.stores && w.links[l].dst in w.stores
    && Safe(w.stores[w.links[l].src], w.stores[w.links[l].dst], w.links[l].mark)
  }

  /**
   The watermark law, over every run and every topology: on a link whose source
   receives foreign rows only from the link's own destination, every source row
   dated at or below the watermark is held by the destination at that version or
   newer, in all states of the run. This is so exactly when no recorded push
   created the mark at a time that some row of the source, not held, is not after.
   */
  lemma WatermarkSafety(ws: seq<World>, steps: seq<Step>, l: LinkId)
    requires IsRun(ws, steps) && Init(ws[0]) && l in ws[0].links && SoleFeed(ws[0], l)
    ensures (forall i :: 0 <= i < |ws| ==> SafeIn(ws[i], l)) <==>
            (forall j :: 0 <= j < |steps| ==> CoveredStep(ws[j], steps[j], l))
  {
    if forall j :: 0 <= j < |steps| ==> CoveredStep(ws[j], steps[j], l) {
      forall i | 0 <= i < |ws| ensures SafeIn(ws[i], l) { RunKeepsLink(ws, steps, l, i); }
    }
    if forall i :: 0 <= i < |ws| ==> SafeIn(ws[i], l) {
      forall j | 0 <= j < |steps| ensures CoveredStep(ws[j], steps[j], l) {
        assert SafeIn(ws[j + 1], l) && ws[j + 1] == Apply(ws[j], steps[j]);
        RunStaysFed(ws, steps, l, j);
        StampedSafeIff(ws[j], steps[j], l);
      }
    }
  }

  /** Creating the mark of a link leaves the law true exactly when everything up to that time is held. */
  lemma StampedSafeIff(w: World, s: Step, l: LinkId)
    requires Enabled(w, s) && WellFormed(w) && l in w.links
    ensures s.Commit? && Creates(w, s.l, l) ==> (SafeIn(Apply(w, s), l) <==> CoveredStep(w, s, l))
  {
    if s.Commit? && Creates(w, s.l, l) {
      var src, dst, w' := w.stores[w.links[l].src], w.stores[w.links[l].dst], Apply(w, s);
      assert w'.links[l].mark == Some(s.now) && w'.links[l].src == w.links[l].src && w'.links[l].dst == w.links[l].dst;
      assert Safe(src, dst, Some(s.now)) <==> Covered(src, dst, s.now) by {
        if Safe(src, dst, Some(s.now)) {
          forall k | k in src && src[k].at <= s.now ensures Held(dst, k, src[k].at) {
            assert !Above(Some(s.now), src[k].at);
          }
        }
      }
    }
  }

  /** The destination holds all the source has. */
  ghost predicate AllHeld(w: World, l: LinkId) {
    && l in w.links && w.links[l].src in w.stores && w.links[l].dst in w.stores
    && HoldsAll(w.stores[w.links[l].dst], w.stores[w.links[l].src])
  }

  ghost predicate HoldsAll(dst: Store, src: Store) {
    forall k :: k in src ==> Held(dst, k, src[k].at)
  }

  lemma StillHoldsAll(dst: Store, src: Store, e: Entry)
    requires HoldsAll(dst, src)
    ensures Held(dst, e.key, e.row.at) ==> HoldsAll(dst, InsertIfNewer(src, e))
  {
  }

  /** The node does not write in these steps. */
  ghost predicate Silent(steps: seq<Step>, node: Node, i: nat, j: nat) {
    forall x :: i <= x < j && x < |steps| ==> !(steps[x].Write? && steps[x].n == node)
  }

  /**
   When recording is harmless: from a state in which the daemon holds all its peer
   has, such as a peer that answered an empty page to a daemon without a mark,
   until the peer's own next write, everything stays held, up to any time.
   */
  lemma SilentSourceIsCovered(ws: seq<World>, steps: seq<Step>, l: LinkId, i: nat, j: nat)
    requires IsRun(ws, steps) && Init(ws[0]) && l in ws[0].links && SoleFeed(ws[0], l)
    requires i <= j < |steps| && AllHeld(ws[i], l)
    requires Silent(steps, ws[0].links[l].src, i, j)
    ensures CoveredStep(ws[j], steps[j], l)
  {
    SilentSourceStaysHeld(ws, steps, l, i, j);
  }

  lemma {:induction false} SilentSourceStaysHeld(ws: seq<World>, steps: seq<Step>, l: LinkId, i: nat, j: nat)
    requires IsRun(ws, steps) && Init(ws[0]) && l in ws[0].links && SoleFeed(ws[0], l)
    requires i <= j < |ws| && AllHeld(ws[i], l)
    requires Silent(steps, ws[0].links[l].src, i, j)
    ensures AllHeld(ws[j], l)
  {
    if j > i {
      SilentSourceStaysHeld(ws, steps, l, i, j - 1);
      SilentRunStep(ws, steps, l, j - 1);
    }
  }

  lemma SilentRunStep(ws: seq<World>, steps: seq<Step>, l: LinkId, j: nat)
    requires IsRun(ws, steps) && Init(ws[0]) && l in ws[0].links && SoleFeed(ws[0], l)
    requires j < |steps| && AllHeld(ws[j], l) && Silent(steps, ws[0].links[l].src, j, j + 1)
    ensures AllHeld(ws[j + 1], l)
  {
    RunStaysFed(ws, steps, l, j);
    SilentStepKeepsHeld(ws[j], steps[j], l);
  }

  lemma SilentStepKeepsHeld(w: World, s: Step, l: LinkId)
    requires Genuine(w) && Enabled(w, s) && l in w.links && SoleFeed(w, l) && AllHeld(w, l)
    requires s.Write? ==> s.n != w.links[l].src
    ensures AllHeld(Apply(w, s), l)
  {
    var w', link := Apply(w, s), w.links[l];
    var src, dst := w.stores[link.src], w.stores[link.dst];
    StepKeepsShape(w, s);
    if (s.MergeNext? || s.Late?) && w.links[s.l].dst == link.src {
      var e := ArrivingRow(w, s);
      StillHoldsAll(dst, src, e);
      assert w'.stores[link.dst] == dst && w'.stores[link.src] == InsertIfNewer(src, e);
    } else {
      assert w'.stores[link.src] == src;
      forall k | k in src ensures Held(w'.stores[link.dst], k, src[k].at) { StoresGrow(w, s, link.dst, k, src[k].at); }
    }
  }

  /** What a merge or a late arrival brings, its sender holds. */
  lemma ArrivingRow(w: World, s: Step) returns (e: Entry)
    requires Genuine(w) && Enabled(w, s) && (s.MergeNext? || s.Late?)
    ensures Held(w.stores[w.links[s.l].src], e.key, e.row.at)
    ensures Apply(w, s).stores == w.stores[w.links[s.l].dst := InsertIfNewer(w.stores[w.links[s.l].dst], e)]
  {
    var feed := w.links[s.l];
    assert LinkGenuine(w.log, w.stores[feed.src], feed);
    e := if s.Late? then s.e else feed.flight.value.page[feed.flight.value.merged];
    assert Sourced(w.log, w.stores[feed.src], e);
  }

  /** Two nodes, any number of links (so daemons) between them. */
  ghost predicate TwoNodes(w: World, a: Node, b: Node) {
    && a != b
    && forall l :: l in w.links ==>
         (w.links[l].src == a && w.links[l].dst == b) || (w.links[l].src == b && w.links[l].dst == a)
  }

  /** With two nodes this covers every pull and every push watermark, whoever runs the daemon. */
  lemma TwoNodeSafety(ws: seq<World>, steps: seq<Step>, a: Node, b: Node)
    requires IsRun(ws, steps) && Init(ws[0]) && TwoNodes(ws[0], a, b)
    ensures (forall i, l :: 0 <= i < |ws| && l in ws[0].links ==> SafeIn(ws[i], l)) <==>
            (forall j, l :: 0 <= j < |steps| && l in ws[0].links ==> CoveredStep(ws[j], steps[j], l))
  {
    forall l | l in ws[0].links
      ensures (forall i :: 0 <= i < |ws| ==> SafeIn(ws[i], l)) <==>
              (forall j :: 0 <= j < |steps| ==> CoveredStep(ws[j], steps[j], l))
    {
      WatermarkSafety(ws, steps, l);
    }
  }

  // ----- the hypotheses are needed --------------------------------------

  /** A transfer under way: the page is open and its first `k` rows are merged. */
  ghost function Merging(w: World, l: LinkId, page: seq<Entry>, k: nat): World
    requires l in w.links && w.links[l].dst in w.stores && k <= |page|
  {
    var link := w.links[l];
    w.(stores := w.stores[link.dst := MergePage(w.stores[link.dst], page[..k])],
       links := w.links[l := link.(flight := Some(Flight(page, k)))])
  }

  ghost function Transferred(w: World, l: LinkId, page: seq<Entry>, now: int): World
    requires l in w.links && w.links[l].dst in w.stores
  {
    var link := w.links[l];
    var links := w.links[l := link.(flight := None, mark := MarkAfter(link.mark, page))];
    w.(stores := w.stores[link.dst := MergePage(w.stores[link.dst], page)],
       links := if page != [] && link.twin.Some? && link.twin.value != l && link.twin.value in links
                   && links[link.twin.value].mark.None? then Stamped(links, link.twin.value, now) else links)
  }

  ghost predicate CanTransfer(w: World, l: LinkId, page: seq<Entry>, limit: nat) {
    && l in w.links && w.links[l].flight.None? && w.links[l].src in w.stores && w.links[l].dst in w.stores
    && IsPage(page, w.stores[w.links[l].src], w.links[l].mark, limit)
  }

  lemma MergeStep(w: World, l: LinkId, page: seq<Entry>, k: nat)
    requires l in w.links && w.links[l].dst in w.stores && 0 < k <= |page|
    ensures Enabled(Merging(w, l, page, k - 1), MergeNext(l))
    ensures Apply(Merging(w, l, page, k - 1), MergeNext(l)) == Merging(w, l, page, k)
  {
    assert page[..k][..k - 1] == page[..k - 1];
  }

  lemma {:induction false} MergeRun(w: World, l: LinkId, page: seq<Entry>, limit: nat, k: nat)
    returns (ws: seq<World>, steps: seq<Step>)
    requires CanTransfer(w, l, page, limit) && k <= |page|
    ensures IsRun(ws, steps) && ws[0] == w && ws[|ws| - 1] == Merging(w, l, page, k)
  {
    if k == 0 {
      ws, steps := [w, Merging(w, l, page, 0)], [Open(l, page, limit)];
      assert Apply(w, steps[0]) == ws[1] by {
        assert page[..0] == [];
        assert Apply(w, steps[0]).stores == ws[1].stores;
      }
    } else {
      ws, steps := MergeRun(w, l, page, limit, k - 1);
      MergeStep(w, l, page, k);
      ws, steps := RunExtend(ws, steps, MergeNext(l));
    }
  }

  lemma RunExtend(ws: seq<World>, steps: seq<Step>, s: Step) returns (vs: seq<World>, more: seq<Step>)
    requires IsRun(ws, steps) && Enabled(ws[|ws| - 1], s)
    ensures IsRun(vs, more) && vs[0] == ws[0] && vs[|vs| - 1] == Apply(ws[|ws| - 1], s)
  {
    var last := ws[|ws| - 1];
    vs, more := ws + [Apply(last, s)], steps + [s];
    RunsCompose(ws, steps, [last, Apply(last, s)], [s]);
    assert vs == ws + [last, Apply(last, s)][1..];
  }

  /** A half of the daemon's cycle, merging a whole page and recording its mark, is a run of the protocol. */
  lemma TransferRun(w: World, l: LinkId, page: seq<Entry>, limit: nat, now: int)
    returns (ws: seq<World>, steps: seq<Step>)
    requires CanTransfer(w, l, page, limit)
    ensures IsRun(ws, steps) && ws[0] == w && ws[|ws| - 1] == Transferred(w, l, page, now)
  {
    ws, steps := MergeRun(w, l, page, limit, |page|);
    var open_ := Merging(w, l, page, |page|);
    assert page[..|page|] == page;
    assert Apply(open_, Commit(l, now)).links == Transferred(w, l, page, now).links;
    ws, steps := RunExtend(ws, steps, Commit(l, now));
  }

  lemma RunsCompose(ws: seq<World>, steps: seq<Step>, vs: seq<World>, more: seq<Step>)
    requires IsRun(ws, steps) && IsRun(vs, more) && ws[|ws| - 1] == vs[0]
    ensures IsRun(ws + vs[1..], steps + more)
  {
    var all, acts := ws + vs[1..], steps + more;
    forall i | 0 <= i < |acts| ensures Enabled(all[i], acts[i]) && all[i + 1] == Apply(all[i], acts[i]) {
      if i < |steps| {
        assert Enabled(ws[i], steps[i]) && ws[i + 1] == Apply(ws[i], steps[i]);
      } else {
        var j := i - |steps|;
        assert all[i] == vs[j] && all[i + 1] == vs[j + 1] && acts[i] == more[j];
        assert Enabled(vs[j], more[j]) && vs[j + 1] == Apply(vs[j], more[j]);
      }
    }
  }

  /** Nodes 0 and 2 both talk to node 1: link 0 is node 0's pull, link 1 is node 2's push. */
  function RelayStart(ex: Entry, ey: Entry): World {
    World(map[0 := map[], 1 := map[ex.key := ex.row], 2 := map[ey.key := ey.row]],
          map[ex.row.at := (ex.key, ex.row.content), ey.row.at := (ey.key, ey.row.content)],
          map[0 := Link(1, 0, None, None, None, None, {}), 1 := Link(2, 1, None, None, None, None, {})])
  }

  /**
   A third node relaying an old row breaks the law: node 0 pulls the newer row
   from node 1, then node 2 pushes an older row to node 1, and node 0 will never
   ask for it again.
   */
  lemma RelayBreaksSafety(ex: Entry, ey: Entry) returns (ws: seq<World>, steps: seq<Step>)
    requires ex.key != ey.key && ey.row.at < ex.row.at
    ensures IsRun(ws, steps) && ws[0] == RelayStart(ex, ey) && Init(ws[0])
    ensures WellFormed(ws[|ws| - 1]) && !SafeIn(ws[|ws| - 1], 0)
  {
    RelayStarts(ex, ey);
    ws, steps := RelayRun(ex, ey);
    RelayUnsafe(ex, ey);
  }

  ghost function RelayEnd(ex: Entry, ey: Entry): World {
    Transferred(Transferred(RelayStart(ex, ey), 0, [ex], 0), 1, [ey], 0)
  }

  lemma RelayStarts(ex: Entry, ey: Entry)
    requires ey.row.at < ex.row.at
    ensures Init(RelayStart(ex, ey))
  {
  }

  lemma RelayRun(ex: Entry, ey: Entry) returns (ws: seq<World>, steps: seq<Step>)
    ensures IsRun(ws, steps) && ws[0] == RelayStart(ex, ey) && ws[|ws| - 1] == RelayEnd(ex, ey)
  {
    var w := RelayStart(ex, ey);
    LoneRowPage(ex);
    var us, first := TransferRun(w, 0, [ex], 1, 0);
    var w' := Transferred(w, 0, [ex], 0);
    LoneRowPage(ey);
    var vs, second := TransferRun(w', 1, [ey], 1, 0);
    RunsCompose(us, first, vs, second);
    ws, steps := us + vs[1..], first + second;
  }

  lemma LoneRowPage(e: Entry)
    ensures IsPage([e], map[e.key := e.row], None, 1)
  {
  }

  lemma LoneRowMerge(s: Store, e: Entry)
    ensures MergePage(s, [e]) == InsertIfNewer(s, e)
  {
    assert [e][..0] == [];
    assert MergePage(s, [e][..0]) == s;
  }

  lemma RelayUnsafe(ex: Entry, ey: Entry)
    requires ex.key != ey.key && ey.row.at < ex.row.at
    ensures WellFormed(RelayEnd(ex, ey)) && !SafeIn(RelayEnd(ex, ey), 0)
  {
    var end := RelayEnd(ex, ey);
    assert end.links[0] == Link(1, 0, None, Some(ex.row.at), None, None, {});
    LoneRowMerge(map[ex.key := ex.row], ey);
    LoneRowMerge(map[], ex);
    assert end.stores[1] == InsertIfNewer(map[ex.key := ex.row], ey);
    assert end.stores[0] == InsertIfNewer(map[], ex);
    assert ey.key in end.stores[1] && end.stores[1][ey.key] == ey.row;
    assert !Held(end.stores[0], ey.key, ey.row.at);
  }

  /**
   A write keeps a quiet link's law exactly when the watermark is not already at
   or past its time, or the destination happens to hold such a version: the
   watermark is what a clock behind its peer's can undercut.
   */
  lemma WriteSafeIffAboveMark(src: Store, dst: Store, mark: Mark, key: Key, id: int, content: string, t: int)
    requires Safe(src, dst, mark)
    ensures Safe(WriteRow(src, key, id, content, t), dst, mark) <==> Above(mark, t) || Held(dst, key, t)
  {
    var after := WriteRow(src, key, id, content, t);
    assert after[key].at == t;
    if Above(mark, t) || Held(dst, key, t) {
      forall k | k in after && !Above(mark, after[k].at) ensures Held(dst, k, after[k].at) {
        if k != key { assert after[k] == src[k]; }
      }
    }
  }

  /**
   A foreign row arriving at the source, from wherever, keeps the law exactly when
   it is above the mark, or the destination holds it, or the source had it already.
   */
  lemma ArrivalSafeIff(src: Store, dst: Store, mark: Mark, e: Entry)
    requires Safe(src, dst, mark)
    ensures Safe(InsertIfNewer(src, e), dst, mark) <==>
            Above(mark, e.row.at) || Held(dst, e.key, e.row.at) || Held(src, e.key, e.row.at)
  {
    var after := InsertIfNewer(src, e);
    assert Held(src, e.key, e.row.at) ==> after[e.key].at == src[e.key].at;
    assert !Held(src, e.key, e.row.at) ==> after[e.key].at == e.row.at;
    if Above(mark, e.row.at) || Held(dst, e.key, e.row.at) || Held(src, e.key, e.row.at) {
      forall k | k in after && !Above(mark, after[k].at) ensures Held(dst, k, after[k].at) {
        if k != e.key { assert after[k] == src[k]; }
      }
    }
  }

  /** Two nodes whose clocks disagree: `b` writes time 5 after `a`'s row of time 9 came back as the pull mark. */
  lemma ClockSkewBreaksSafety()
    ensures exists src: Store, dst: Store, mark: Mark ::
              && Safe(src, dst, mark) && Agree(src, dst)
              && !Safe(WriteRow(src, Key("y", "n"), 2, "late", 5), dst, mark)
  {
    var x := Key("x", "n");
    var s: Store := map[x := Row(1, 9, "a's")];
    assert Safe(s, s, Some(9)) && Agree(s, s);
    WriteSafeIffAboveMark(s, s, Some(9), Key("y", "n"), 2, "late", 5);
  }

  // ----- the first recorded push ----------------------------------------

  /** A daemon on node 0 with a row, its new peer node 1 without: link 0 is the pull, link 1 the push. */
  function FirstContact(ex: Entry): World {
    World(map[0 := map[ex.key := ex.row], 1 := map[]],
          map[ex.row.at := (ex.key, ex.row.content)],
          map[0 := Link(1, 0, None, None, None, None, {}), 1 := Link(0, 1, Some(0), None, None, None, {})])
  }

  /** The peer has written `ey` after answering the pull with an empty page. */
  ghost function PeerWrote(ex: Entry, ey: Entry): World {
    var w := FirstContact(ex);
    w.(stores := w.stores[1 := map[ey.key := ey.row]], log := w.log[ey.row.at := (ey.key, ey.row.content)])
  }

  lemma EmptyPullRun(ex: Entry, ey: Entry) returns (ws: seq<World>, steps: seq<Step>)
    requires ey.row.at != ex.row.at
    ensures IsRun(ws, steps) && ws[0] == FirstContact(ex) && ws[|ws| - 1] == PeerWrote(ex, ey)
  {
    var w := FirstContact(ex);
    ws, steps := TransferRun(w, 0, [], 1, 0);
    assert Transferred(w, 0, [], 0) == w by {
      assert Transferred(w, 0, [], 0).stores == w.stores;
      assert Transferred(w, 0, [], 0).links == w.links;
    }
    var s := Write(1, ey.key, ey.row.id, ey.row.content, ey.row.at);
    ws, steps := RunExtend(ws, steps, s);
    assert Apply(w, s).stores == PeerWrote(ex, ey).stores;
  }

  /**
   Two nodes, no failure, clocks in order: the peer answers the first pull with an
   empty page, writes a row, and takes the first push. Recording that push, at any
   time not before the row's, sets the pull mark past the row.
   */
  lemma FirstPushLosesRow(ex: Entry, ey: Entry, now: int) returns (ws: seq<World>, steps: seq<Step>)
    requires ex.key != ey.key && ex.row.at < ey.row.at <= now
    ensures IsRun(ws, steps) && Init(ws[0]) && TwoNodes(ws[0], 0, 1) && ws[0] == FirstContact(ex)
    ensures WellFormed(ws[|ws| - 1]) && !SafeIn(ws[|ws| - 1], 0)
  {
    FirstContactStarts(ex);
    ws, steps := FirstPushRun(ex, ey, now);
    FirstPushUnsafe(ex, ey, now);
  }

  lemma FirstContactStarts(ex: Entry)
    ensures Init(FirstContact(ex)) && TwoNodes(FirstContact(ex), 0, 1)
  {
  }

  lemma FirstPushRun(ex: Entry, ey: Entry, now: int) returns (ws: seq<World>, steps: seq<Step>)
    requires ey.row.at != ex.row.at
    ensures IsRun(ws, steps) && ws[0] == FirstContact(ex)
    ensures ws[|ws| - 1] == Transferred(PeerWrote(ex, ey), 1, [ex], now)
  {
    var us, first := EmptyPullRun(ex, ey);
    LoneRowPage(ex);
    var vs, more := TransferRun(PeerWrote(ex, ey), 1, [ex], 1, now);
    RunsCompose(us, first, vs, more);
    ws, steps := us + vs[1..], first + more;
  }

  lemma FirstPushUnsafe(ex: Entry, ey: Entry, now: int)
    requires ex.key != ey.key && ex.row.at < ey.row.at <= now
    ensures var w := Transferred(PeerWrote(ex, ey), 1, [ex], now); WellFormed(w) && !SafeIn(w, 0)
  {
    var w := Transferred(PeerWrote(ex, ey), 1, [ex], now);
    LoneRowMerge(map[ey.key := ey.row], ex);
    assert w.links[0] == Link(1, 0, None, Some(now), Some(now), None, {});
    assert w.stores[1] == InsertIfNewer(map[ey.key := ey.row], ex) && w.stores[1][ey.key] == ey.row;
    assert !Held(w.stores[0], ey.key, ey.row.at);
  }
}
