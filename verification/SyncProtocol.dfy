/**
 The sync protocol as a state machine. Any number of nodes hold a store; a link
 carries rows from a source to a destination under one watermark. A node's pull
 is a link from its peer, its push a link to its peer. A cycle opens a page,
 merges it row by row and commits the watermark; it can fail at any point, and
 the rows of a failed transfer may still arrive later, any number of times.

 A daemon keeps both watermarks for a peer in one `sync_state` row. Recording the
 first push of a peer without such a row creates it, and fills in the current
 time as the pull watermark: the push link's `twin` is the pull link it does this to.
 */
module SyncProtocol {
  import opened Basics
  import opened SyncStore

  type Node = nat
  type LinkId = nat

  datatype Flight = Flight(page: seq<Entry>, merged: nat)

  /** `stamp` is the time a recorded push put into the mark, if one did. */
  datatype Link = Link(src: Node, dst: Node, twin: Option<LinkId>, mark: Mark, stamp: Mark,
                       flight: Option<Flight>, strays: set<Entry>)

  datatype World = World(stores: map<Node, Store>, log: History, links: map<LinkId, Link>)

  datatype Step =
    | Write(n: Node, key: Key, id: int, content: string, t: int)
    | Open(l: LinkId, page: seq<Entry>, limit: nat)
    | MergeNext(l: LinkId)
    | Commit(l: LinkId, now: int)
    | Fail(l: LinkId)
    | Late(l: LinkId, e: Entry)

  ghost predicate WellFormed(w: World) {
    forall l :: l in w.links ==>
      && w.links[l].src in w.stores && w.links[l].dst in w.stores
      && (w.links[l].twin.Some? ==>
            && w.links[l].twin.value in w.links
            && w.links[w.links[l].twin.value].src == w.links[l].dst
            && w.links[w.links[l].twin.value].dst == w.links[l].src)
  }

  /**
   A write's time is new, later than every time in the writer's own store, and
   later than the time at which anybody stamped a mark for reading that store.
   */
  ghost predicate FreshTime(w: World, n: Node, t: int)
    requires n in w.stores
  {
    && t !in w.log && (forall k :: k in w.stores[n] ==> w.stores[n][k].at < t)
    && forall l :: l in w.links && w.links[l].src == n ==> Above(w.links[l].stamp, t)
  }

  ghost predicate Enabled(w: World, s: Step) {
    match s
    case Write(n, _, _, _, t) => n in w.stores && FreshTime(w, n, t)
    case Open(l, page, limit) =>
      && l in w.links && w.links[l].flight.None? && w.links[l].src in w.stores
      && IsPage(page, w.stores[w.links[l].src], w.links[l].mark, limit)
    case MergeNext(l) =>
      && l in w.links && w.links[l].dst in w.stores && w.links[l].flight.Some?
      && w.links[l].flight.value.merged < |w.links[l].flight.value.page|
    case Commit(l, _) =>
      && l in w.links && w.links[l].flight.Some?
      && w.links[l].flight.value.merged == |w.links[l].flight.value.page|
    case Fail(l) => l in w.links && w.links[l].flight.Some?
    case Late(l, e) => l in w.links && w.links[l].dst in w.stores && e in w.links[l].strays
  }

  function WriteRow(s: Store, key: Key, id: int, content: string, t: int): Store {
    s[key := Row(if key in s then s[key].id else id, t, content)]
  }

  /** A local write: the title keeps its row id, the row its new content and time, every other row stays. */
  lemma WriteRowLaws(s: Store, key: Key, id: int, content: string, t: int)
    ensures var after := WriteRow(s, key, id, content, t);
            && after.Keys == s.Keys + {key} && after[key].content == content && after[key].at == t
            && after[key].id == (if key in s then s[key].id else id)
            && forall k :: k in s && k != key ==> after[k] == s[k]
  {
  }

  function MarkAfter(mark: Mark, page: seq<Entry>): Mark {
    if page == [] then mark else Advance(mark, page[|page| - 1].row.at)
  }

  /** The transfer is over and its mark recorded. */
  function Committed(link: Link): Link
    requires link.flight.Some?
  {
    link.(flight := None, mark := MarkAfter(link.mark, link.flight.value.page))
  }

  /** Recording link `l` creates the row that also holds the mark of `m`. */
  predicate Creates(w: World, l: LinkId, m: LinkId) {
    && l in w.links && w.links[l].flight.Some? && w.links[l].flight.value.page != []
    && m != l && w.links[l].twin == Some(m) && m in w.links && w.links[m].mark.None?
  }

  function Stamped(links: map<LinkId, Link>, m: LinkId, now: int): map<LinkId, Link>
    requires m in links
  {
    links[m := links[m].(mark := Some(now), stamp := Some(now))]
  }

  ghost function Apply(w: World, s: Step): World
    requires Enabled(w, s)
  {
    match s
    case Write(n, key, id, content, t) =>
      w.(stores := w.stores[n := WriteRow(w.stores[n], key, id, content, t)],
         log := w.log[t := (key, content)])
    case Open(l, page, _) =>
      w.(links := w.links[l := w.links[l].(flight := Some(Flight(page, 0)))])
    case MergeNext(l) =>
      var link := w.links[l];
      var f := link.flight.value;
      w.(stores := w.stores[link.dst := InsertIfNewer(w.stores[link.dst], f.page[f.merged])],
         links := w.links[l := link.(flight := Some(f.(merged := f.merged + 1)))])
    case Commit(l, now) =>
      var links := w.links[l := Committed(w.links[l])];
      var twin := w.links[l].twin;
      w.(links := if twin.Some? && Creates(w, l, twin.value) then Stamped(links, twin.value, now) else links)
    case Fail(l) =>
      var link := w.links[l];
      var page := link.flight.value.page;
      w.(links := w.links[l := link.(flight := None, strays := link.strays + (set e | e in page))])
    case Late(l, e) =>
      var dst := w.links[l].dst;
      w.(stores := w.stores[dst := InsertIfNewer(w.stores[dst], e)])
  }

  /** A run: the state before each step, and the last state. */
  ghost predicate IsRun(ws: seq<World>, steps: seq<Step>) {
    && |ws| == |steps| + 1
    && forall i :: 0 <= i < |steps| ==> Enabled(ws[i], steps[i]) && ws[i + 1] == Apply(ws[i], steps[i])
  }

  /** Nothing has been transferred yet; the stores may already hold rows. */
  ghost predicate Init(w: World) {
    && WellFormed(w)
    && (forall n :: n in w.stores ==> AuthenticStore(w.log, w.stores[n]))
    && (forall l :: l in w.links ==>
          w.links[l].mark.None? && w.links[l].stamp.None? && w.links[l].flight.None? && w.links[l].strays == {})
  }

  /** Rows reach the link's source only by its own writes or from the link's destination. */
  ghost predicate SoleFeed(w: World, l: LinkId)
    requires l in w.links
  {
    && w.links[l].src != w.links[l].dst
    && forall m :: m in w.links && w.links[m].dst == w.links[l].src ==> w.links[m].src == w.links[l].dst
  }

  // ----- what every reachable state satisfies ---------------------------

  /** Rows on their way are genuine, and their source still holds them or newer. */
  ghost predicate Sourced(log: History, src: Store, e: Entry) {
    Authentic(log, e.key, e.row) && Held(src, e.key, e.row.at)
  }

  ghost predicate LinkGenuine(log: History, src: Store, link: Link) {
    && (forall e :: e in link.strays ==> Sourced(log, src, e))
    && (link.flight.Some? ==>
          && link.flight.value.merged <= |link.flight.value.page|
          && forall i :: 0 <= i < |link.flight.value.page| ==> Sourced(log, src, link.flight.value.page[i]))
  }

  ghost predicate Genuine(w: World) {
    && WellFormed(w)
    && (forall n :: n in w.stores ==> AuthenticStore(w.log, w.stores[n]))
    && (forall l :: l in w.links ==> LinkGenuine(w.log, w.stores[w.links[l].src], w.links[l]))
  }

  ghost predicate Reached(src: Store, t: int) {
    exists k :: k in src && src[k].at >= t
  }

  /** The row still waits in the page behind the merge position. */
  ghost predicate Pending(f: Flight, k: Key, at: int) {
    exists j :: f.merged <= j < |f.page| && f.page[j].key == k && f.page[j].row.at == at
  }

  /** The watermark law together with what a transfer under way has to keep for it. */
  ghost predicate LinkOk(src: Store, dst: Store, link: Link) {
    && Safe(src, dst, link.mark)
    && (link.mark.Some? ==> Reached(src, link.mark.value) || link.stamp == link.mark)
    && (link.flight.Some? && link.flight.value.page != [] ==>
          var f := link.flight.value;
          forall k :: k in src && src[k].at <= f.page[|f.page| - 1].row.at ==>
            Held(dst, k, src[k].at) || Pending(f, k, src[k].at))
  }

  lemma LinkOkWriteAtSource(log: History, src: Store, dst: Store, link: Link,
                            key: Key, id: int, content: string, t: int)
    requires LinkOk(src, dst, link) && LinkGenuine(log, src, link)
    requires Above(link.stamp, t) && forall k :: k in src ==> src[k].at < t
    ensures LinkOk(WriteRow(src, key, id, content, t), dst, link)
  {
    var src' := WriteRow(src, key, id, content, t);
    if link.mark.Some? && link.stamp != link.mark {
      var k :| k in src && src[k].at >= link.mark.value;
      assert src'[k].at >= link.mark.value;
    }
    if link.flight.Some? && link.flight.value.page != [] {
      var f := link.flight.value;
      assert Sourced(log, src, f.page[|f.page| - 1]);
    }
  }

  lemma LinkOkDestinationGrows(src: Store, dst: Store, dst': Store, link: Link)
    requires LinkOk(src, dst, link)
    requires forall k, t :: Held(dst, k, t) ==> Held(dst', k, t)
    ensures LinkOk(src, dst', link)
  {
  }

  /** A row arriving at the source is harmless when the destination already holds it. */
  lemma LinkOkFedByDestination(src: Store, dst: Store, link: Link, e: Entry)
    requires LinkOk(src, dst, link) && Held(dst, e.key, e.row.at)
    ensures LinkOk(InsertIfNewer(src, e), dst, link)
  {
    var src' := InsertIfNewer(src, e);
    if link.mark.Some? && link.stamp != link.mark {
      var k :| k in src && src[k].at >= link.mark.value;
      assert src'[k].at >= link.mark.value;
    }
  }

  lemma LinkOkOpen(log: History, src: Store, dst: Store, link: Link, page: seq<Entry>, limit: nat)
    requires AuthenticStore(log, src)
    requires LinkOk(src, dst, link) && IsPage(page, src, link.mark, limit)
    ensures LinkOk(src, dst, link.(flight := Some(Flight(page, 0))))
  {
  }

  lemma LinkOkMergeNext(src: Store, dst: Store, link: Link)
    requires LinkOk(src, dst, link) && link.flight.Some?
    requires link.flight.value.merged < |link.flight.value.page|
    ensures var f := link.flight.value;
            LinkOk(src, InsertIfNewer(dst, f.page[f.merged]), link.(flight := Some(f.(merged := f.merged + 1))))
  {
  }

  lemma LinkOkCommit(log: History, src: Store, dst: Store, link: Link)
    requires LinkOk(src, dst, link) && LinkGenuine(log, src, link) && link.flight.Some?
    requires link.flight.value.merged == |link.flight.value.page|
    ensures LinkOk(src, dst, Committed(link))
  {
    var page := link.flight.value.page;
    if page != [] { assert Sourced(log, src, page[|page| - 1]); }
  }

  /** The destination holds every row of the source dated up to `now`. */
  ghost predicate Covered(src: Store, dst: Store, now: int) {
    forall k :: k in src && src[k].at <= now ==> Held(dst, k, src[k].at)
  }

  lemma LinkOkStamp(src: Store, dst: Store, link: Link, now: int)
    requires LinkOk(src, dst, link) && Covered(src, dst, now)
    ensures LinkOk(src, dst, link.(mark := Some(now), stamp := Some(now)))
  {
  }
}
