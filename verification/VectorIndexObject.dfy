/** The index object: fields changed in place, `search` as its loops. */
module VectorIndexObject {
  import opened Basics
  import opened Vectors
  import opened HitLists
  import Spec = VectorIndex

  class VectorIndex {
    /** The entries the built graph was made from; none for an empty index. */
    var hnsw: Option<seq<Item>>
    var overflow: seq<Item>
    var allEntries: seq<Item>
    var evictionsTotal: nat
    ghost var gone: set<string>
    ghost var added: nat
    ghost var removed: nat

    ghost function State(): Spec.IndexState
      reads this
    {
      Spec.IndexState(if hnsw.Some? then hnsw.value else [], overflow, allEntries, evictionsTotal, gone, added, removed)
    }

    ghost predicate Valid()
      reads this
    {
      Spec.Consistent(State())
    }

    constructor (entries: seq<Item>)
      ensures State() == Spec.Build(entries) && Valid()
    {
      hnsw := BuildHnsw(entries);
      overflow, allEntries, evictionsTotal := [], entries, 0;
      gone, added, removed := {}, |entries|, 0;
      Spec.RetainNothingGone(entries);
    }

    static function BuildHnsw(entries: seq<Item>): Option<seq<Item>> {
      if entries == [] then None else Some(entries)
    }

    method Rebuild()
      requires Valid()
      modifies this
      ensures State() == Spec.Rebuild(old(State())) && Valid()
    {
      Spec.RebuildConsistent(State());
      hnsw := BuildHnsw(allEntries);
      overflow, gone := [], {};
    }

    /** Insert: what it leaves in full is `InsertLaws`; in short, the new entry is the last of at most 100000. */
    method Insert(id: string, embedding: Vector)
      requires Valid()
      modifies this
      ensures State() == Spec.Insert(old(State()), Item(id, embedding)) && Valid()
      ensures 1 <= |allEntries| <= 100000 && allEntries[|allEntries| - 1] == Item(id, embedding)
    {
      ghost var start := State();
      var e := Item(id, embedding);
      Append(e);
      EvictOldest();
      assert State() == Spec.Insert(start, e);
      Spec.InsertConsistent(start, e);
      Spec.InsertLaws(start, e);
    }

    /** The head of `insert`: both lists get the entry, and the 200th waiting one has the graph built anew. */
    method Append(e: Item)
      modifies this
      ensures State() == Spec.Push(old(State()), e)
    {
      allEntries := allEntries + [e];
      overflow := overflow + [e];
      added := added + 1;
      if |overflow| >= Spec.REBUILD_THRESHOLD {
        hnsw := BuildHnsw(allEntries);
        overflow, gone := [], {};
      }
    }

    /** The tail of `insert`: over the cap, the oldest entries go and the graph is built anew. */
    method EvictOldest()
      modifies this
      ensures State() == Spec.Evict(old(State()))
      ensures var excess := if old(|allEntries|) <= 100000 then 0 else old(|allEntries|) - 100000;
              allEntries == old(allEntries)[excess..] && evictionsTotal == old(evictionsTotal) + excess
    {
      if |allEntries| > Spec.MAX_ENTRIES {
        var excess := |allEntries| - Spec.MAX_ENTRIES;
        evictionsTotal := evictionsTotal + excess;
        allEntries := allEntries[excess..];
        hnsw := BuildHnsw(allEntries);
        overflow, gone := [], {};
      }
    }

    method Remove(id: string)
      requires Valid()
      modifies this
      ensures State() == Spec.Remove(old(State()), id) && Valid()
    {
      ghost var s := State();
      ghost var before := |allEntries|;
      Spec.RemoveFields(s, id);
      allEntries := RetainOthers(allEntries, id);
      overflow := RetainOthers(overflow, id);
      removed := removed + (before - |allEntries|);
      gone := gone + {id};
      assert State() == Spec.Remove(s, id);
      Spec.RemoveConsistent(s, id);
    }

    /** `candidates` is what the built graph yields for the query, nearest first. */
    method Search(query: Vector, k: nat, candidates: seq<Hit>) returns (results: seq<Hit>)
      requires Valid()
      ensures results == Spec.Search(State(), query, k, if hnsw.Some? then candidates else [])
    {
      results := [];
      var validIds := Spec.ItemIds(allEntries);
      if hnsw.Some? {
        results := ScanBuilt(candidates, validIds, k);
      }
      var overflowHits := SortByDistance(HitsOf(query, overflow));
      results := results + overflowHits;
      results := RetainFirst(results);
      results := Truncate(SortByDistance(results), k);
    }
  }

  method RetainOthers(es: seq<Item>, id: string) returns (kept: seq<Item>)
    ensures kept == Spec.Retain(es, {id})
  {
    kept := [];
    for i := 0 to |es|
      invariant kept == Spec.Retain(es[..i], {id})
    {
      assert es[..i + 1][..i] == es[..i];
      if es[i].id != id { kept := kept + [es[i]]; }
    }
    assert es[..|es|] == es;
  }

  /** Walk the graph's answers, skip removed ids, stop after `2k` kept ones. */
  method ScanBuilt(candidates: seq<Hit>, validIds: set<string>, k: nat) returns (kept: seq<Hit>)
    ensures kept == Truncate(Spec.Live(candidates, validIds), Spec.ScanCap(k))
    ensures k > 0 && |Spec.Live(candidates, validIds)| >= 2 * k ==> |kept| == 2 * k
    ensures k > 0 && |Spec.Live(candidates, validIds)| <= 2 * k ==> kept == Spec.Live(candidates, validIds)
  {
    kept := [];
    for i := 0 to |candidates|
      invariant kept == Spec.Live(candidates[..i], validIds) && |kept| < Spec.ScanCap(k)
    {
      assert candidates[..i + 1][..i] == candidates[..i];
      if candidates[i].id !in validIds { continue; }
      kept := kept + [candidates[i]];
      if |kept| >= k * 2 {
        LiveGrows(candidates, validIds, i + 1);
        return;
      }
    }
    assert candidates[..|candidates|] == candidates;
  }

  lemma {:induction false} LiveGrows(hits: seq<Hit>, valid: set<string>, n: nat)
    requires n <= |hits|
    ensures Spec.Live(hits[..n], valid) <= Spec.Live(hits, valid)
    decreases |hits|
  {
    if n == |hits| {
      assert hits[..n] == hits;
    } else {
      var init := hits[..|hits| - 1];
      LiveGrows(init, valid, n);
      assert init[..n] == hits[..n];
    }
  }

  method RetainFirst(hits: seq<Hit>) returns (kept: seq<Hit>)
    ensures kept == Dedup(hits)
  {
    kept := [];
    var seen := {};
    for i := 0 to |hits|
      invariant kept == Dedup(hits[..i]) && seen == HitIds(kept)
    {
      assert hits[..i + 1][..i] == hits[..i];
      if hits[i].id !in seen {
        HitIdsSnoc(kept, hits[i]);
        seen, kept := seen + {hits[i].id}, kept + [hits[i]];
      }
    }
    assert hits[..|hits|] == hits;
  }
}
