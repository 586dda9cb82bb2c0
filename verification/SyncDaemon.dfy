/** `sync_cycle_once` and the daemon loop, step by step on two nodes' state. */
module SyncDaemon {
  import opened Basics
  import opened SyncStore
  import opened SyncProtocol
  import opened SyncConvergence

  /** A row of `sync_state`: the pull mark is never null, the push mark may be. */
  datatype SyncState = SyncState(lastSeen: int, lastPushed: Mark)

  /** A node's database: its memories and one `sync_state` row per peer. */
  class SyncNode {
    var memories: Store
    var syncState: map<string, SyncState>

    constructor ()
      ensures memories == map[] && syncState == map[]
    {
      memories, syncState := map[], map[];
    }

    function Pulled(peer: string): Mark
      reads this
    {
      if peer in syncState then Some(syncState[peer].lastSeen) else None
    }

    function Pushed(peer: string): Mark
      reads this
    {
      if peer in syncState then syncState[peer].lastPushed else None
    }

    /** `sync_state_observe`: a new row, or a pull mark that never goes back. */
    method Observe(peer: string, at: int)
      modifies this`syncState
      ensures Pulled(peer) == if old(Pulled(peer)).None? || at > old(Pulled(peer)).value then Some(at)
                              else old(Pulled(peer))
      ensures Pushed(peer) == old(Pushed(peer))
      ensures forall u :: u != peer ==> Pulled(u) == old(Pulled(u)) && Pushed(u) == old(Pushed(u))
    {
      if peer !in syncState {
        syncState := syncState[peer := SyncState(at, None)];
      } else if at > syncState[peer].lastSeen {
        syncState := syncState[peer := syncState[peer].(lastSeen := at)];
      }
    }

    /** `sync_state_record_push`: a push mark that never goes back; a new row gets the current time as its pull mark. */
    method RecordPush(peer: string, at: int, now: int)
      modifies this`syncState
      ensures Pushed(peer) == if old(Pushed(peer)).None? || at > old(Pushed(peer)).value then Some(at)
                              else old(Pushed(peer))
      ensures Pulled(peer) == if old(Pulled(peer)).None? then Some(now) else old(Pulled(peer))
      ensures forall u :: u != peer ==> Pulled(u) == old(Pulled(u)) && Pushed(u) == old(Pushed(u))
    {
      if peer !in syncState {
        syncState := syncState[peer := SyncState(now, Some(at))];
      } else if syncState[peer].lastPushed.None? || at > syncState[peer].lastPushed.value {
        syncState := syncState[peer := syncState[peer].(lastPushed := Some(at))];
      }
    }
  }

  ghost function PairOf(local: SyncNode, peer: SyncNode, url: string): Pair
    reads local, peer
  {
    Pair(local.memories, peer.memories, local.Pulled(url), local.Pushed(url))
  }

  /** The rows above the mark, oldest first, at most `limit` of them. */
  method MemoriesUpdatedSince(s: Store, since: Mark, limit: nat) returns (page: seq<Entry>)
    ensures IsPage(page, s, since, limit)
  {
    page := [];
    var rest := set k | k in s && Above(since, s[k].at);
    while rest != {} && |page| < limit
      invariant |page| <= limit
      invariant forall k :: k in rest ==> k in s && Above(since, s[k].at)
      invariant forall i :: 0 <= i < |page| ==>
                  && page[i].key in s && s[page[i].key] == page[i].row && Above(since, page[i].row.at)
                  && page[i].key !in rest
      invariant forall i, j :: 0 <= i < j < |page| ==>
                  page[i].key != page[j].key && page[i].row.at <= page[j].row.at
      invariant forall i, k :: 0 <= i < |page| && k in rest ==> page[i].row.at <= s[k].at
      invariant forall k :: k in s && Above(since, s[k].at) && k !in rest ==> Entry(k, s[k]) in page
      decreases rest
    {
      var k := Oldest(s, rest);
      page := page + [Entry(k, s[k])];
      rest := rest - {k};
    }
  }

  method Oldest(s: Store, keys: set<Key>) returns (oldest: Key)
    requires keys != {} && forall k :: k in keys ==> k in s
    ensures oldest in keys && forall k :: k in keys ==> s[oldest].at <= s[k].at
  {
    oldest :| oldest in keys;
    var rest := keys - {oldest};
    while rest != {}
      invariant rest <= keys && oldest in keys
      invariant forall k :: k in keys - rest ==> s[oldest].at <= s[k].at
      decreases rest
    {
      var k :| k in rest;
      if s[k].at < s[oldest].at { oldest := k; }
      rest := rest - {k};
    }
  }

  method MergeInto(node: SyncNode, page: seq<Entry>)
    modifies node`memories
    ensures node.memories == MergePage(old(node.memories), page)
  {
    for i := 0 to |page|
      invariant node.memories == MergePage(old(node.memories), page[..i])
    {
      assert page[..i + 1][..i] == page[..i];
      node.memories := InsertIfNewer(node.memories, page[i]);
    }
    assert page[..|page|] == page;
  }

  /** The pull half: ask for the rows above the mark, merge them, observe the last time. */
  method PullOnce(local: SyncNode, peer: SyncNode, url: string, batchSize: nat) returns (pulled: seq<Entry>)
    requires local != peer
    modifies local`memories, local`syncState
    ensures IsPage(pulled, peer.memories, old(local.Pulled(url)), PullLimit(batchSize))
    ensures local.memories == MergePage(old(local.memories), pulled)
    ensures local.Pulled(url) == MarkAfter(old(local.Pulled(url)), pulled)
    ensures local.Pushed(url) == old(local.Pushed(url))
    ensures forall u :: u != url ==> local.Pulled(u) == old(local.Pulled(u)) && local.Pushed(u) == old(local.Pushed(u))
  {
    pulled := MemoriesUpdatedSince(peer.memories, local.Pulled(url), PullLimit(batchSize));
    MergeInto(local, pulled);
    if pulled != [] { local.Observe(url, pulled[|pulled| - 1].row.at); }
  }

  /** The push half: send the rows above the mark, and record their last time if the peer says yes. */
  method PushOnce(local: SyncNode, peer: SyncNode, url: string, batchSize: nat, fate: Fate, now: int)
    returns (ok: bool, outgoing: seq<Entry>)
    requires local != peer && fate != PullFailed
    modifies local`syncState, peer`memories
    ensures IsPage(outgoing, local.memories, old(local.Pushed(url)), batchSize)
    ensures peer.memories == if |outgoing| > 1000 || fate == PushFailed then old(peer.memories)
                             else MergePage(old(peer.memories), outgoing)
    ensures local.Pushed(url) == if |outgoing| > 1000 || fate != Completed then old(local.Pushed(url))
                                 else MarkAfter(old(local.Pushed(url)), outgoing)
    ensures local.Pulled(url) == if |outgoing| > 1000 || fate != Completed then old(local.Pulled(url))
                                 else PulledAfterRecord(old(local.Pulled(url)), outgoing, now)
    ensures ok <==> outgoing == [] || (fate == Completed && |outgoing| <= 1000)
    ensures forall u :: u != url ==> local.Pulled(u) == old(local.Pulled(u)) && local.Pushed(u) == old(local.Pushed(u))
  {
    outgoing := MemoriesUpdatedSince(local.memories, local.Pushed(url), batchSize);
    if outgoing == [] { return true, outgoing; }
    if fate == PushFailed || |outgoing| > MAX_BULK_SIZE { return false, outgoing; }
    MergeInto(peer, outgoing);
    if fate == ReplyLost { return false, outgoing; }
    local.RecordPush(url, outgoing[|outgoing| - 1].row.at, now);
    ok := true;
  }

  /**
   One pull and one push. `fate` says where the network lets the cycle down;
   `c` is the record of what was transferred.
   */
  method SyncCycleOnce(local: SyncNode, peer: SyncNode, url: string, batchSize: nat, fate: Fate, now: int)
    returns (ok: bool, ghost c: Cycle)
    requires local != peer
    modifies local, peer`memories
    ensures c.fate == fate && c.now == now && IsCycle(old(PairOf(local, peer, url)), batchSize, c)
    ensures PairOf(local, peer, url) == CycleEnd(old(PairOf(local, peer, url)), c)
    ensures ok <==> fate != PullFailed && (c.push == [] || (fate == Completed && |c.push| <= MAX_BULK_SIZE))
    ensures forall u :: u != url ==> local.Pulled(u) == old(local.Pulled(u)) && local.Pushed(u) == old(local.Pushed(u))
  {
    c := Cycle(fate, [], [], now);
    if fate == PullFailed { return false, c; }
    var pulled := PullOnce(local, peer, url, batchSize);
    assert PairOf(local, peer, url) == AfterPull(old(PairOf(local, peer, url)), pulled);
    var outgoing;
    ok, outgoing := PushOnce(local, peer, url, batchSize, fate, now);
    c := Cycle(fate, pulled, outgoing, now);
  }

  /** The pages are as full as can be: all that waits, or as much as the batch and the server let through. */
  ghost predicate FullPagesOf(p: Pair, c: Cycle, batch: nat) {
    && |c.pull| == Least(|KeysAbove(p.peer, p.pulled)|, Least(batch, 10000))
    && |c.push| == Least(|Waiting(p, c)|, batch)
  }

  function Least(a: nat, b: nat): nat {
    if a <= b then a else b
  }

  /**
   The daemon loop for one peer, until shutdown after `|fates|` cycles; `clock`
   are the times at which it records. Failed cycles are logged and dropped. Every
   cycle that reaches the peer carries full pages of the batch size, at least one.
   If no push is refused for its size, the nodes are equal after one completed
   cycle more than full pages go into the backlogs, and after as many as there
   were times above the watermarks. `ps` are the states the loop goes through.
   */
  method RunSyncDaemon(local: SyncNode, peer: SyncNode, url: string, batchSize: nat, fates: seq<Fate>, clock: seq<int>,
                       ghost log: History)
    returns (ghost ps: seq<Pair>, ghost cs: seq<Cycle>)
    requires local != peer && |clock| == |fates|
    requires PairInv(log, PairOf(local, peer, url))
    modifies local, peer`memories
    ensures |cs| == |fates| && forall i :: 0 <= i < |fates| ==> cs[i].fate == fates[i]
    ensures |ps| == |fates| + 1 && ps[0] == old(PairOf(local, peer, url)) && ps[|fates|] == PairOf(local, peer, url)
    ensures Chain(ps, cs, if batchSize < 1 then 1 else batchSize)
    ensures forall i :: 0 <= i < |fates| && fates[i] != PullFailed ==>
              FullPagesOf(ps[i], cs[i], if batchSize < 1 then 1 else batchSize)
    ensures PairInv(log, PairOf(local, peer, url))
    ensures (batchSize <= MAX_BULK_SIZE || PushesFit(cs))
            && CompletedCount(cs) > PagesWaiting(ps[0], if batchSize < 1 then 1 else batchSize) ==>
              Agree(local.memories, peer.memories)
    ensures (batchSize <= MAX_BULK_SIZE || PushesFit(cs))
            && CompletedCount(cs) >= old(Backlog(PairOf(local, peer, url))) ==>
              Agree(local.memories, peer.memories)
  {
    var batch := if batchSize < 1 then 1 else batchSize;
    cs, ps := [], [PairOf(local, peer, url)];
    for i := 0 to |fates|
      invariant |cs| == i && forall j :: 0 <= j < i ==> cs[j].fate == fates[j]
      invariant Chain(ps, cs, batch)
      invariant ps[0] == old(PairOf(local, peer, url)) && ps[i] == PairOf(local, peer, url)
      invariant PairInv(log, PairOf(local, peer, url))
    {
      ghost var p := PairOf(local, peer, url);
      var _, c := SyncCycleOnce(local, peer, url, batch, fates[i], clock[i]);
      CycleKeepsInv(log, p, batch, c);
      ChainGrows(ps, cs, batch, c, PairOf(local, peer, url));
      cs, ps := cs + [c], ps + [PairOf(local, peer, url)];
    }
    ChainFillsPages(ps, cs, batch);
    if batchSize <= MAX_BULK_SIZE || PushesFit(cs) {
      if CompletedCount(cs) >= Backlog(ps[0]) { Converges(log, ps, cs, batch); }
      if CompletedCount(cs) > PagesWaiting(ps[0], batch) { ConvergesInPages(log, ps, cs, batch); }
    }
  }

  lemma ChainFillsPages(ps: seq<Pair>, cs: seq<Cycle>, batch: nat)
    requires Chain(ps, cs, batch)
    ensures forall i :: 0 <= i < |cs| && cs[i].fate != PullFailed ==> FullPagesOf(ps[i], cs[i], batch)
  {
    forall i | 0 <= i < |cs| && cs[i].fate != PullFailed ensures FullPagesOf(ps[i], cs[i], batch) {
      assert IsCycle(ps[i], batch, cs[i]);
      PageSize(ps[i].peer, ps[i].pulled, PullLimit(batch), cs[i].pull);
      PageSize(AfterPull(ps[i], cs[i].pull).local, ps[i].pushed, batch, cs[i].push);
    }
  }

  lemma ChainGrows(ps: seq<Pair>, cs: seq<Cycle>, limit: nat, c: Cycle, p: Pair)
    requires Chain(ps, cs, limit) && IsCycle(ps[|cs|], limit, c) && p == CycleEnd(ps[|cs|], c)
    ensures Chain(ps + [p], cs + [c], limit)
  {
  }
}
