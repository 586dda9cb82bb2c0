/** Lists of search hits: stable sorting by distance, de-duplication by id, the k nearest. */
module HitLists {
  import opened Basics
  import opened Vectors

  datatype Item = Item(id: string, emb: Vector)

  datatype Hit = Hit(id: string, distance: real)

  function HitOf(query: Vector, e: Item): Hit {
    Hit(e.id, Distance(query, e.emb))
  }

  function HitsOf(query: Vector, es: seq<Item>): (hs: seq<Hit>)
    ensures |hs| == |es| && forall i :: 0 <= i < |es| ==> hs[i] == HitOf(query, es[i])
  {
    seq(|es|, i requires 0 <= i < |es| => HitOf(query, es[i]))
  }

  // ----- ids ------------------------------------------------------------

  function HitIds(hs: seq<Hit>): set<string> {
    set i | 0 <= i < |hs| :: hs[i].id
  }

  ghost predicate DistinctIds(hs: seq<Hit>) {
    forall i, j :: 0 <= i < j < |hs| ==> hs[i].id != hs[j].id
  }

  lemma HitIdsSnoc(hs: seq<Hit>, h: Hit)
    ensures HitIds(hs + [h]) == HitIds(hs) + {h.id}
  {
    var all := hs + [h];
    assert all[|hs|] == h;
    forall x | x in HitIds(hs) ensures x in HitIds(all) {
      var i :| 0 <= i < |hs| && hs[i].id == x;
      assert all[i].id == x;
    }
    forall x | x in HitIds(all) ensures x in HitIds(hs) + {h.id} {
      var i :| 0 <= i < |all| && all[i].id == x;
      if i < |hs| { assert hs[i].id == x; }
    }
  }

  /** Ids are distinct exactly when there are as many of them as hits. */
  lemma {:induction false} DistinctIffCounted(hs: seq<Hit>)
    ensures |HitIds(hs)| <= |hs|
    ensures DistinctIds(hs) <==> |HitIds(hs)| == |hs|
  {
    if hs != [] {
      var init, last := hs[..|hs| - 1], hs[|hs| - 1];
      assert hs == init + [last];
      HitIdsSnoc(init, last);
      DistinctIffCounted(init);
      assert DistinctIds(hs) <==> DistinctIds(init) && last.id !in HitIds(init);
    }
  }

  // ----- stable insertion sort ------------------------------------------

  ghost predicate Ascending(hs: seq<Hit>) {
    forall i, j :: 0 <= i < j < |hs| ==> hs[i].distance <= hs[j].distance
  }

  function InsertByDistance(h: Hit, hs: seq<Hit>): seq<Hit> {
    if hs == [] || h.distance <= hs[0].distance then [h] + hs
    else [hs[0]] + InsertByDistance(h, hs[1..])
  }

  /** `sort_by` on the distance: stable, so equal distances keep their order. */
  function SortByDistance(hs: seq<Hit>): seq<Hit> {
    if hs == [] then [] else InsertByDistance(hs[0], SortByDistance(hs[1..]))
  }

  lemma {:induction false} InsertKeeps(h: Hit, hs: seq<Hit>)
    ensures multiset(InsertByDistance(h, hs)) == multiset(hs) + multiset{h}
  {
    if hs != [] && h.distance > hs[0].distance {
      InsertKeeps(h, hs[1..]);
      assert hs == [hs[0]] + hs[1..];
    }
  }

  lemma {:induction false} InsertSorts(h: Hit, hs: seq<Hit>)
    requires Ascending(hs)
    ensures Ascending(InsertByDistance(h, hs))
    ensures hs == [] || InsertByDistance(h, hs)[0].distance == hs[0].distance || InsertByDistance(h, hs)[0] == h
  {
    if hs != [] && h.distance > hs[0].distance {
      InsertSorts(h, hs[1..]);
      AscendingCons(hs[0], InsertByDistance(h, hs[1..]));
    }
  }

  lemma AscendingCons(h: Hit, hs: seq<Hit>)
    requires Ascending(hs) && (hs == [] || h.distance <= hs[0].distance)
    ensures Ascending([h] + hs)
  {
  }

  lemma {:induction false} SortSorts(hs: seq<Hit>)
    ensures Ascending(SortByDistance(hs))
    ensures multiset(SortByDistance(hs)) == multiset(hs)
  {
    if hs != [] {
      SortSorts(hs[1..]);
      InsertSorts(hs[0], SortByDistance(hs[1..]));
      InsertKeeps(hs[0], SortByDistance(hs[1..]));
      assert hs == [hs[0]] + hs[1..];
    }
  }

  /** The hits at one distance, in order. */
  function AtDistance(hs: seq<Hit>, d: real): seq<Hit> {
    if hs == [] then [] else (if hs[0].distance == d then [hs[0]] else []) + AtDistance(hs[1..], d)
  }

  lemma {:induction false} InsertStable(h: Hit, hs: seq<Hit>, d: real)
    ensures AtDistance(InsertByDistance(h, hs), d) == (if h.distance == d then [h] else []) + AtDistance(hs, d)
  {
    if hs != [] && h.distance > hs[0].distance {
      InsertStable(h, hs[1..], d);
      AtDistanceCons(hs[0], InsertByDistance(h, hs[1..]), d);
      AtDistanceCons(hs[0], hs[1..], d);
      assert hs == [hs[0]] + hs[1..];
    } else {
      AtDistanceCons(h, hs, d);
    }
  }

  lemma AtDistanceCons(h: Hit, hs: seq<Hit>, d: real)
    ensures h.distance == d ==> AtDistance([h] + hs, d) == [h] + AtDistance(hs, d)
    ensures h.distance != d ==> AtDistance([h] + hs, d) == AtDistance(hs, d)
  {
    assert ([h] + hs)[1..] == hs;
  }

  /** Sorting is stable: hits at one distance keep their order. */
  lemma {:induction false} SortStable(hs: seq<Hit>, d: real)
    ensures AtDistance(SortByDistance(hs), d) == AtDistance(hs, d)
  {
    if hs != [] {
      SortStable(hs[1..], d);
      InsertStable(hs[0], SortByDistance(hs[1..]), d);
    }
  }

  /** Sorting keeps the hits, their number and their ids. */
  lemma SortKeeps(hs: seq<Hit>)
    ensures |SortByDistance(hs)| == |hs|
    ensures forall h :: h in SortByDistance(hs) <==> h in hs
    ensures HitIds(SortByDistance(hs)) == HitIds(hs)
    ensures DistinctIds(SortByDistance(hs)) <==> DistinctIds(hs)
  {
    var sorted := SortByDistance(hs);
    SortSorts(hs);
    assert |sorted| == |multiset(sorted)| && |hs| == |multiset(hs)|;
    forall h ensures h in sorted <==> h in hs {
      assert h in sorted <==> h in multiset(sorted);
      assert h in hs <==> h in multiset(hs);
    }
    SameHitsSameIds(sorted, hs);
    DistinctIffCounted(sorted);
    DistinctIffCounted(hs);
  }

  lemma SameHitsSameIds(a: seq<Hit>, b: seq<Hit>)
    requires forall h :: h in a <==> h in b
    ensures HitIds(a) == HitIds(b)
  {
    forall x | x in HitIds(a) ensures x in HitIds(b) {
      var i :| 0 <= i < |a| && a[i].id == x;
      assert a[i] in b;
    }
    forall x | x in HitIds(b) ensures x in HitIds(a) {
      var i :| 0 <= i < |b| && b[i].id == x;
      assert b[i] in a;
    }
  }

  // ----- de-duplication -------------------------------------------------

  /** The first hit of each id. */
  function Dedup(hs: seq<Hit>): seq<Hit> {
    if hs == [] then []
    else
      var init, last := Dedup(hs[..|hs| - 1]), hs[|hs| - 1];
      if last.id in HitIds(init) then init else init + [last]
  }

  lemma {:induction false} DedupKeepsIds(hs: seq<Hit>)
    ensures DistinctIds(Dedup(hs)) && HitIds(Dedup(hs)) == HitIds(hs)
    ensures forall h :: h in Dedup(hs) ==> h in hs
  {
    if hs != [] {
      var init, last := hs[..|hs| - 1], hs[|hs| - 1];
      assert hs == init + [last];
      DedupKeepsIds(init);
      HitIdsSnoc(init, last);
      HitIdsSnoc(Dedup(init), last);
    }
  }

  lemma {:induction false} DedupOfDistinct(hs: seq<Hit>)
    requires DistinctIds(hs)
    ensures Dedup(hs) == hs
  {
    if hs != [] {
      var init, last := hs[..|hs| - 1], hs[|hs| - 1];
      assert hs == init + [last];
      DedupOfDistinct(init);
      assert last.id !in HitIds(init);
    }
  }

  /** Hits at the front, of distinct ids, stay whatever follows. */
  lemma {:induction false} DedupKeepsFront(front: seq<Hit>, rest: seq<Hit>)
    requires DistinctIds(front)
    ensures forall h :: h in front ==> h in Dedup(front + rest)
  {
    if rest == [] {
      DedupOfDistinct(front);
      assert front + rest == front;
    } else {
      var n := |rest| - 1;
      assert (front + rest)[..|front + rest| - 1] == front + rest[..n];
      DedupKeepsFront(front, rest[..n]);
    }
  }

  // ----- the k nearest --------------------------------------------------

  function Truncate(hs: seq<Hit>, k: nat): seq<Hit> {
    if |hs| <= k then hs else hs[..k]
  }

  /** `r` lists k nearest of `pool` (all of it if shorter), nearest first. */
  ghost predicate Nearest(r: seq<Hit>, pool: seq<Hit>, k: nat) {
    && |r| == (if |pool| <= k then |pool| else k)
    && Ascending(r) && DistinctIds(r)
    && (forall h :: h in r ==> h in pool)
    && (forall h, i :: h in pool && h !in r && 0 <= i < |r| ==> r[i].distance <= h.distance)
  }

  /** Sorting and cutting yields k nearest; every pool hit that is cut is beaten or tied by k others. */
  lemma SortedCutIsNearest(hs: seq<Hit>, k: nat)
    requires DistinctIds(hs)
    ensures Nearest(Truncate(SortByDistance(hs), k), hs, k)
    ensures forall h :: h in hs && h !in Truncate(SortByDistance(hs), k) ==> |Truncate(SortByDistance(hs), k)| == k
  {
    var s := SortByDistance(hs);
    var r := Truncate(s, k);
    SortSorts(hs);
    SortKeeps(hs);
    assert forall j :: 0 <= j < |r| ==> r[j] == s[j] && s[j] in r;
    forall h, i | h in hs && h !in r && 0 <= i < |r| ensures r[i].distance <= h.distance {
      var j :| 0 <= j < |s| && s[j] == h;
      assert s[i].distance <= s[j].distance;
    }
  }

  /** In a sorted list, k hits within a bound leave the first k within it. */
  lemma FirstWithin(s: seq<Hit>, near: seq<Hit>, k: nat, i: nat, d: real)
    requires Ascending(s) && DistinctIds(s) && DistinctIds(near)
    requires k <= |near| && forall h :: h in near ==> h in s && h.distance <= d
    requires i < k && i < |s|
    ensures s[i].distance <= d
  {
    if s[i].distance > d {
      forall x | x in HitIds(near) ensures x in HitIds(s[..i]) {
        var a :| 0 <= a < |near| && near[a].id == x;
        assert near[a] in near;
        var b :| 0 <= b < |s| && s[b] == near[a];
        assert b < i;
        assert s[..i][b].id == x;
      }
      SubsetSize(HitIds(near), HitIds(s[..i]));
      DistinctIffCounted(near);
      DistinctIffCounted(s[..i]);
    }
  }

  /** Two ways of being the k nearest show the same distances. */
  lemma NearestIsUnique(r: seq<Hit>, t: seq<Hit>, pool: seq<Hit>, k: nat)
    requires DistinctIds(pool) && Nearest(r, pool, k) && Nearest(t, pool, k)
    ensures |r| == |t| && forall i :: 0 <= i < |r| ==> r[i].distance == t[i].distance
  {
    forall i | 0 <= i < |r| ensures r[i].distance == t[i].distance {
      NearestNoFarther(r, t, pool, k, i);
      NearestNoFarther(t, r, pool, k, i);
    }
  }

  lemma SharedFrontWithin(r: seq<Hit>, t: seq<Hit>, i: nat)
    requires Ascending(r) && DistinctIds(r) && Ascending(t) && DistinctIds(t) && i < |r| && i < |t|
    requires forall j :: 0 <= j <= i ==> r[j] in t
    ensures t[i].distance <= r[i].distance
  {
    var near := r[..i + 1];
    forall h | h in near ensures h in t && h.distance <= r[i].distance {
      var j :| 0 <= j <= i && near[j] == h;
      assert r[j] == h;
    }
    FirstWithin(t, near, i + 1, i, r[i].distance);
  }

  lemma NearestNoFarther(r: seq<Hit>, t: seq<Hit>, pool: seq<Hit>, k: nat, i: nat)
    requires DistinctIds(pool) && Nearest(r, pool, k) && Nearest(t, pool, k) && i < |r| == |t|
    ensures t[i].distance <= r[i].distance
  {
    if forall j :: 0 <= j <= i ==> r[j] in t {
      SharedFrontWithin(r, t, i);
    } else {
      var j :| 0 <= j <= i && r[j] !in t;
      assert r[j] in r;
      assert t[i].distance <= r[j].distance;
    }
  }
}
