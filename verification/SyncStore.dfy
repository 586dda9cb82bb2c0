/**
 The memory table as the sync daemon sees it: one row per (title, namespace),
 the newer-wins merge, the page query and the monotone watermarks.
 */
module SyncStore {
  import opened Basics

  datatype Key = Key(title: string, namespace: string)

  /** `at` is `updated_at`; times and ids are compared by their order only. */
  datatype Row = Row(id: int, at: int, content: string)

  datatype Entry = Entry(key: Key, row: Row)

  type Store = map<Key, Row>

  type Mark = Option<int>

  predicate Above(mark: Mark, t: int) {
    mark.None? || t > mark.value
  }

  /** The watermark update: an older observation never overwrites a newer one. */
  function Advance(mark: Mark, t: int): Mark {
    if Above(mark, t) then Some(t) else mark
  }

  /** The mark is the latest time observed. */
  lemma AdvanceIsLatest(mark: Mark, t: int)
    ensures Advance(mark, t).Some? && Advance(mark, t).value >= t
    ensures Advance(mark, t) == Some(t) || Advance(mark, t) == mark
    ensures forall u :: Above(Advance(mark, t), u) <==> Above(mark, u) && u > t
  {
  }

  /** Incoming beats stored: newer, or equally old with the larger id. */
  predicate Wins(incoming: Row, stored: Row) {
    incoming.at > stored.at || (incoming.at == stored.at && incoming.id > stored.id)
  }

  /** On conflict the stored id stays, the time is the maximum, the winner's content is kept. */
  function MergeRow(stored: Row, incoming: Row): Row {
    Row(stored.id,
        if incoming.at > stored.at then incoming.at else stored.at,
        if Wins(incoming, stored) then incoming.content else stored.content)
  }

  function InsertIfNewer(s: Store, e: Entry): Store {
    s[e.key := if e.key in s then MergeRow(s[e.key], e.row) else e.row]
  }

  function MergePage(s: Store, page: seq<Entry>): Store {
    if page == [] then s
    else InsertIfNewer(MergePage(s, page[..|page| - 1]), page[|page| - 1])
  }

  /** The store has this version of the row, or a newer one. */
  predicate Held(s: Store, key: Key, at: int) {
    key in s && s[key].at >= at
  }

  /** `page` is what `ORDER BY updated_at ASC LIMIT limit` may return above `mark`. */
  ghost predicate IsPage(page: seq<Entry>, s: Store, mark: Mark, limit: nat) {
    && |page| <= limit
    && (forall i :: 0 <= i < |page| ==>
          page[i].key in s && s[page[i].key] == page[i].row && Above(mark, page[i].row.at))
    && (forall i, j :: 0 <= i < j < |page| ==>
          page[i].key != page[j].key && page[i].row.at <= page[j].row.at)
    && (forall k :: k in s && Above(mark, s[k].at) && Entry(k, s[k]) !in page ==>
          |page| == limit && forall i :: 0 <= i < |page| ==> page[i].row.at <= s[k].at)
  }

  /** Every version at or below the mark in `src` is held by `dst`, at that version or newer. */
  ghost predicate Safe(src: Store, dst: Store, mark: Mark) {
    forall k :: k in src && !Above(mark, src[k].at) ==> Held(dst, k, src[k].at)
  }

  /** All writes so far: the time of a write fixes its key and its content. */
  type History = map<int, (Key, string)>

  predicate Authentic(log: History, k: Key, r: Row) {
    r.at in log && log[r.at] == (k, r.content)
  }

  ghost predicate AuthenticStore(log: History, s: Store) {
    forall k :: k in s ==> Authentic(log, k, s[k])
  }

  ghost predicate AuthenticPage(log: History, page: seq<Entry>) {
    forall i :: 0 <= i < |page| ==> Authentic(log, page[i].key, page[i].row)
  }

  /** Same rows up to the node-local row ids. */
  ghost predicate Agree(s: Store, t: Store) {
    s.Keys == t.Keys && forall k :: k in s ==> s[k].at == t[k].at && s[k].content == t[k].content
  }

  // ----- the merge ------------------------------------------------------

  /** The merge loses nothing already held and ends up holding the incoming version. */
  lemma InsertGrows(s: Store, e: Entry)
    ensures Held(InsertIfNewer(s, e), e.key, e.row.at)
    ensures forall k, t :: Held(s, k, t) ==> Held(InsertIfNewer(s, e), k, t)
  {
  }

  lemma {:induction false} MergePageGrows(s: Store, page: seq<Entry>)
    ensures forall i :: 0 <= i < |page| ==> Held(MergePage(s, page), page[i].key, page[i].row.at)
    ensures forall k, t :: Held(s, k, t) ==> Held(MergePage(s, page), k, t)
  {
    if page != [] {
      var init, last := page[..|page| - 1], page[|page| - 1];
      MergePageGrows(s, init);
      InsertGrows(MergePage(s, init), last);
      forall i | 0 <= i < |page| ensures Held(MergePage(s, page), page[i].key, page[i].row.at) {
        if i < |init| {
          assert page[i] == init[i];
          assert Held(MergePage(s, init), init[i].key, init[i].row.at);
        }
      }
    }
  }

  /** Where a merged row got its version from. */
  lemma {:induction false} MergePageOrigin(s: Store, page: seq<Entry>, k: Key)
    requires k in MergePage(s, page)
    ensures (k in s && s[k].at == MergePage(s, page)[k].at)
         || (exists i :: 0 <= i < |page| && page[i].key == k && page[i].row.at == MergePage(s, page)[k].at)
  {
    if page != [] {
      var init, last := page[..|page| - 1], page[|page| - 1];
      if k in MergePage(s, init) && MergePage(s, init)[k].at == MergePage(s, page)[k].at {
        MergePageOrigin(s, init, k);
        if !(k in s && s[k].at == MergePage(s, page)[k].at) {
          var i :| 0 <= i < |init| && init[i].key == k && init[i].row.at == MergePage(s, page)[k].at;
          assert page[i] == init[i];
        }
      } else {
        assert page[|page| - 1].key == k;
      }
    }
  }

  lemma {:induction false} MergePageAuthentic(log: History, s: Store, page: seq<Entry>)
    requires AuthenticStore(log, s) && AuthenticPage(log, page)
    ensures AuthenticStore(log, MergePage(s, page))
  {
    if page != [] {
      var init, last := page[..|page| - 1], page[|page| - 1];
      MergePageAuthentic(log, s, init);
      assert Authentic(log, last.key, last.row);
    }
  }

  /** Re-merging a page that was already merged changes no time and no content. */
  lemma {:induction false} MergeHeldPageIsIdle(log: History, s: Store, page: seq<Entry>)
    requires AuthenticStore(log, s) && AuthenticPage(log, page)
    requires forall i :: 0 <= i < |page| ==> Held(s, page[i].key, page[i].row.at)
    ensures Agree(MergePage(s, page), s)
  {
    if page != [] {
      var init, last := page[..|page| - 1], page[|page| - 1];
      forall i | 0 <= i < |init| ensures Held(s, init[i].key, init[i].row.at) {
        assert init[i] == page[i];
      }
      MergeHeldPageIsIdle(log, s, init);
      MergePageAuthentic(log, s, init);
      var m := MergePage(s, init);
      assert Authentic(log, last.key, last.row) && Authentic(log, last.key, m[last.key]);
      assert Agree(m, s);
      assert Held(s, page[|page| - 1].key, page[|page| - 1].row.at);
      assert m[last.key].at >= last.row.at;
    }
  }

  // ----- the tie-break --------------------------------------------------

  function MergeRows(stored: Row, incoming: seq<Row>): Row {
    if incoming == [] then stored
    else MergeRow(MergeRows(stored, incoming[..|incoming| - 1]), incoming[|incoming| - 1])
  }

  /** The last of the rows whose id beats the stored one. */
  ghost predicate LastAbove(rs: seq<Row>, id: int, j: nat) {
    j < |rs| && rs[j].id > id && forall i :: j < i < |rs| ==> rs[i].id <= id
  }

  /** Among rows of one instant the stored id is compared and never replaced, so the last one to beat it wins. */
  lemma {:induction false} TieWinner(stored: Row, rs: seq<Row>)
    requires forall i :: 0 <= i < |rs| ==> rs[i].at == stored.at
    ensures MergeRows(stored, rs).id == stored.id && MergeRows(stored, rs).at == stored.at
    ensures forall j: nat :: LastAbove(rs, stored.id, j) ==> MergeRows(stored, rs).content == rs[j].content
    ensures (forall i :: 0 <= i < |rs| ==> rs[i].id <= stored.id) ==> MergeRows(stored, rs).content == stored.content
  {
    if rs != [] {
      var init, last := rs[..|rs| - 1], rs[|rs| - 1];
      TieWinner(stored, init);
      forall j: nat | LastAbove(rs, stored.id, j) ensures MergeRows(stored, rs).content == rs[j].content {
        if j < |init| { assert LastAbove(init, stored.id, j); }
      }
    }
  }

  /**
   The comment on the tie-break promises one winner on every peer. For three rows
   of one instant, whichever is stored first, the order of the other two shows
   unless one of them loses to the stored id or they are alike.
   */
  lemma TieBreakOrderIff(s: Row, a: Row, b: Row)
    requires s.at == a.at == b.at
    ensures MergeRow(MergeRow(s, a), b).content == MergeRow(MergeRow(s, b), a).content <==>
            a.id <= s.id || b.id <= s.id || a.content == b.content
  {
  }

  /** Every order of the rows ends in one content. */
  ghost predicate OrderFree(stored: Row, rs: seq<Row>) {
    forall qs: seq<Row> :: multiset(qs) == multiset(rs) ==>
      MergeRows(stored, qs).content == MergeRows(stored, rs).content
  }

  ghost predicate WinnersAgree(stored: Row, rs: seq<Row>) {
    forall a, b :: a in rs && b in rs && a.id > stored.id && b.id > stored.id ==> a.content == b.content
  }

  /** Any number of rows of one instant: the order does not show exactly when all rows that beat the stored id agree. */
  lemma TieOrderIrrelevantIff(stored: Row, rs: seq<Row>)
    requires forall i :: 0 <= i < |rs| ==> rs[i].at == stored.at
    ensures OrderFree(stored, rs) <==> WinnersAgree(stored, rs)
  {
    if OrderFree(stored, rs) {
      forall a, b | a in rs && b in rs && a.id > stored.id && b.id > stored.id ensures a.content == b.content {
        var endsInA := OrderEndingIn(stored, rs, a);
        var endsInB := OrderEndingIn(stored, rs, b);
      }
    }
    if WinnersAgree(stored, rs) {
      forall qs: seq<Row> | multiset(qs) == multiset(rs)
        ensures MergeRows(stored, qs).content == MergeRows(stored, rs).content
      {
        SameRows(rs, qs);
        AgreeingWinners(stored, rs, qs);
      }
    }
  }

  /** Some order of the rows ends in `a`, which then wins. */
  lemma OrderEndingIn(stored: Row, rs: seq<Row>, a: Row) returns (qs: seq<Row>)
    requires forall i :: 0 <= i < |rs| ==> rs[i].at == stored.at
    requires a in rs && a.id > stored.id
    ensures multiset(qs) == multiset(rs) && MergeRows(stored, qs).content == a.content
  {
    var i :| 0 <= i < |rs| && rs[i] == a;
    qs := rs[..i] + rs[i + 1..] + [a];
    assert rs == rs[..i] + [a] + rs[i + 1..];
    forall j | 0 <= j < |qs| ensures qs[j].at == stored.at { assert qs[j] in multiset(rs); }
    TieWinner(stored, qs);
    assert LastAbove(qs, stored.id, |qs| - 1);
  }

  lemma FindLastAbove(rs: seq<Row>, id: int) returns (j: nat)
    requires exists i :: 0 <= i < |rs| && rs[i].id > id
    ensures LastAbove(rs, id, j)
  {
    j := |rs| - 1;
    while rs[j].id <= id
      invariant j < |rs| && forall i :: j < i < |rs| ==> rs[i].id <= id
      decreases j
    {
      j := j - 1;
    }
  }

  lemma AgreeingWinners(stored: Row, rs: seq<Row>, qs: seq<Row>)
    requires forall r :: r in rs ==> r.at == stored.at
    requires (forall r :: r in qs <==> r in rs) && WinnersAgree(stored, rs)
    ensures MergeRows(stored, qs).content == MergeRows(stored, rs).content
  {
    if r :| r in rs && r.id > stored.id {
      var a := SomeWinner(stored, rs, r);
      var b := SomeWinner(stored, qs, r);
    } else {
      NoWinner(stored, rs);
      NoWinner(stored, qs);
    }
  }

  lemma NoWinner(stored: Row, rs: seq<Row>)
    requires forall r :: r in rs ==> r.at == stored.at && r.id <= stored.id
    ensures MergeRows(stored, rs).content == stored.content
  {
    TieWinner(stored, rs);
  }

  lemma SameRows(rs: seq<Row>, qs: seq<Row>)
    requires multiset(qs) == multiset(rs)
    ensures forall r :: r in qs <==> r in rs
  {
    forall r ensures r in qs <==> r in rs { assert r in multiset(qs) <==> r in multiset(rs); }
  }

  lemma SomeWinner(stored: Row, rs: seq<Row>, r: Row) returns (w: Row)
    requires forall q :: q in rs ==> q.at == stored.at
    requires r in rs && r.id > stored.id
    ensures w in rs && w.id > stored.id && MergeRows(stored, rs).content == w.content
  {
    var i :| 0 <= i < |rs| && rs[i] == r;
    var j := FindLastAbove(rs, stored.id);
    TieWinner(stored, rs);
    w := rs[j];
  }

  // ----- pages and watermarks ------------------------------------------

  /**
   The mark moves to the page's last time even when rows of the page were not
   merged (they failed validation, or their insert failed), and whatever rows of
   that last time the page's limit cut off. That keeps the law exactly when the
   rows of the page and those cut off are held all the same.
   */
  lemma AdvanceSafeIff(src: Store, dst: Store, mark: Mark, limit: nat, page: seq<Entry>, merged: seq<Entry>)
    requires IsPage(page, src, mark, limit) && page != []
    requires Safe(src, dst, mark)
    ensures var dst', last := MergePage(dst, merged), page[|page| - 1].row.at;
            Safe(src, dst', Advance(mark, last)) <==>
              && (forall i :: 0 <= i < |page| ==> Held(dst', page[i].key, page[i].row.at))
              && (forall k :: k in src && src[k].at == last && Entry(k, src[k]) !in page ==> Held(dst', k, last))
  {
    var last := page[|page| - 1].row.at;
    var dst', mark' := MergePage(dst, merged), Advance(mark, last);
    MergePageGrows(dst, merged);
    if Safe(src, dst', mark') {
      forall i | 0 <= i < |page| ensures Held(dst', page[i].key, page[i].row.at) {
        assert page[i].row.at <= last;
        assert src[page[i].key] == page[i].row;
      }
    }
    if && (forall i :: 0 <= i < |page| ==> Held(dst', page[i].key, page[i].row.at))
       && (forall k :: k in src && src[k].at == last && Entry(k, src[k]) !in page ==> Held(dst', k, last))
    {
      forall k | k in src && !Above(mark', src[k].at) ensures Held(dst', k, src[k].at) {
        if !Above(mark, src[k].at) {
          assert Held(dst, k, src[k].at);
        } else if Entry(k, src[k]) in page {
          var i :| 0 <= i < |page| && page[i] == Entry(k, src[k]);
          assert Held(dst', page[i].key, page[i].row.at);
        }
      }
    }
  }

  /**
   A page merged whole makes its last time a safe mark exactly when the rows of
   that time it cut off were held before.
   */
  lemma TiesSafeIff(src: Store, dst: Store, mark: Mark, limit: nat, page: seq<Entry>)
    requires IsPage(page, src, mark, limit) && page != []
    requires Safe(src, dst, mark)
    ensures var last := page[|page| - 1].row.at;
            Safe(src, MergePage(dst, page), Advance(mark, last)) <==>
              forall k :: k in src && src[k].at == last && Entry(k, src[k]) !in page ==> Held(dst, k, last)
  {
    var dst', last := MergePage(dst, page), page[|page| - 1].row.at;
    AdvanceSafeIff(src, dst, mark, limit, page, page);
    MergePageGrows(dst, page);
    forall k | k in src && src[k].at == last && Entry(k, src[k]) !in page
      ensures Held(dst', k, last) <==> Held(dst, k, last)
    {
      if k in dst' {
        MergePageOrigin(dst, page, k);
        forall i | 0 <= i < |page| ensures page[i].key != k {
          assert page[i] in page && src[page[i].key] == page[i].row;
        }
      }
    }
  }

  /** With distinct write times nothing is cut off, so merging the whole page makes its last time a safe mark. */
  lemma PageCarriesSafety(log: History, src: Store, dst: Store, mark: Mark, limit: nat, page: seq<Entry>)
    requires AuthenticStore(log, src)
    requires IsPage(page, src, mark, limit) && page != []
    requires Safe(src, dst, mark)
    ensures Safe(src, MergePage(dst, page), Advance(mark, page[|page| - 1].row.at))
  {
    TiesSafeIff(src, dst, mark, limit, page);
    forall k | k in src && src[k].at == page[|page| - 1].row.at ensures Entry(k, src[k]) in page {
      PageCovers(log, src, mark, limit, page, k);
    }
  }

  /** A source row above the mark and not after the page's last row is in the page. */
  lemma PageCovers(log: History, src: Store, mark: Mark, limit: nat, page: seq<Entry>, k: Key)
    requires AuthenticStore(log, src)
    requires IsPage(page, src, mark, limit) && page != []
    requires k in src && Above(mark, src[k].at) && src[k].at <= page[|page| - 1].row.at
    ensures Entry(k, src[k]) in page
  {
    var last := page[|page| - 1];
    assert Authentic(log, last.key, last.row) && Authentic(log, k, src[k]);
  }

  /** Any two rows of one time and a limit of one: the second is never asked for again. */
  lemma TiesBreakSafety(x: Entry, y: Entry)
    requires x.key != y.key && x.row.at == y.row.at
    ensures var src: Store := map[x.key := x.row, y.key := y.row];
            && IsPage([x], src, None, 1) && Safe(src, map[], None)
            && !Safe(src, MergePage(map[], [x]), Advance(None, x.row.at))
  {
    var src: Store := map[x.key := x.row, y.key := y.row];
    assert IsPage([x], src, None, 1);
    TiesSafeIff(src, map[], None, 1, [x]);
    assert y.key in src && Entry(y.key, src[y.key]) !in [x];
  }

  // ----- rows that the receiver drops -----------------------------------

  /** The primary key as well: a row of a new title whose id is already used is an error, which the caller ignores. */
  function InsertOrDrop(s: Store, e: Entry): Store {
    if e.key !in s && (exists k :: k in s && s[k].id == e.row.id) then s else InsertIfNewer(s, e)
  }

  /** Such a row is held afterwards exactly when its title is known or its id is new. */
  lemma DroppedIff(s: Store, e: Entry)
    ensures Held(InsertOrDrop(s, e), e.key, e.row.at) <==> e.key in s || forall k :: k in s ==> s[k].id != e.row.id
    ensures Held(InsertOrDrop(s, e), e.key, e.row.at) ==> InsertOrDrop(s, e) == InsertIfNewer(s, e)
  {
  }

  /** A row renamed at the source keeps its id: the receiver drops it, the mark moves on, the law is broken. */
  lemma RenamedRowIsLost(before: Entry, renamed: Entry, mark: Mark)
    requires before.row.id == renamed.row.id && before.key != renamed.key && Above(mark, renamed.row.at)
    ensures var src: Store, dst: Store := map[renamed.key := renamed.row], map[before.key := before.row];
            && IsPage([renamed], src, mark, 1) && Safe(src, dst, mark)
            && InsertOrDrop(dst, renamed) == dst && !Safe(src, dst, Advance(mark, renamed.row.at))
  {
    var src: Store, dst: Store := map[renamed.key := renamed.row], map[before.key := before.row];
    assert before.key in dst && dst[before.key].id == renamed.row.id;
    assert !Held(dst, renamed.key, src[renamed.key].at);
  }
}
