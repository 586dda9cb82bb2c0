/** Greedy, capped clustering of near-duplicate memories. */
module Clusters {
  import opened Basics
  import opened MemoryStore

  const JACCARD_THRESHOLD := 0.55
  const MAX_CLUSTER_SIZE := 8

  /** Splitting content into lower-cased words of three bytes or more is left to the caller. */
  type Tokenizer = string -> set<string>

  /** The shared fraction of two token sets; two empty sets share nothing. */
  function Jaccard(a: set<string>, b: set<string>): real {
    if a + b == {} then 0.0 else |a * b| as real / |a + b| as real
  }

  lemma Ratio(part: nat, whole: nat)
    requires part <= whole && whole > 0
    ensures 0.0 <= part as real / whole as real <= 1.0
    ensures part as real / whole as real == 1.0 <==> part == whole
    ensures part as real / whole as real == 0.0 <==> part == 0
  {
    RealRatio(part as real, whole as real);
  }

  lemma RealRatio(p: real, w: real)
    requires 0.0 <= p <= w && w > 0.0
    ensures 0.0 <= p / w <= 1.0
    ensures p / w == 1.0 <==> p == w
    ensures p / w == 0.0 <==> p == 0.0
  {
    var q := p / w;
    assert q * w == p;
    if q < 0.0 { TimesMonotone(q, 0.0, w); }
    if q > 0.0 { TimesMonotone(0.0, q, w); }
    if q < 1.0 { TimesMonotone(q, 1.0, w); }
    if q > 1.0 { TimesMonotone(1.0, q, w); }
  }

  lemma TimesMonotone(x: real, y: real, w: real)
    requires x < y && w > 0.0
    ensures x * w < y * w
  {
    assert (y - x) * w > 0.0;
    assert (y - x) * w == y * w - x * w;
  }

  lemma JaccardLaws(a: set<string>, b: set<string>)
    ensures Jaccard(a, b) == Jaccard(b, a)
    ensures 0.0 <= Jaccard(a, b) <= 1.0
    ensures Jaccard(a, b) == 1.0 <==> a == b && a != {}
    ensures Jaccard(a, b) == 0.0 <==> a !! b
    ensures Jaccard(a, b) * |a + b| as real == |a * b| as real
  {
    assert a * b == b * a && a + b == b + a;
    if a + b != {} {
      var only := (a + b) - (a * b);
      assert a + b == a * b + only;
      assert |a + b| == |a * b| + |only|;
      assert |only| == 0 <==> a == b by { assert only == {} <==> a == b; }
      Ratio(|a * b|, |a + b|);
    }
  }

  predicate Similar(tok: Tokenizer, a: Memory, b: Memory) {
    Jaccard(tok(a.content), tok(b.content)) >= JACCARD_THRESHOLD
  }

  /** In whole numbers: at least 55 of every 100 tokens are shared. */
  lemma SimilarIffShared(tok: Tokenizer, a: Memory, b: Memory)
    ensures var s, t := tok(a.content), tok(b.content);
            Similar(tok, a, b) <==> s + t != {} && 100 * |s * t| >= 55 * |s + t|
  {
    var s, t := tok(a.content), tok(b.content);
    if s + t != {} { AtLeast(Jaccard(s, t), |s * t| as real, |s + t| as real); }
  }

  lemma AtLeast(q: real, part: real, whole: real)
    requires whole > 0.0 && q == part / whole
    ensures q >= 0.55 <==> 100.0 * part >= 55.0 * whole
  {
    assert q * whole == part;
    if q < 0.55 { TimesMonotone(q, 0.55, whole); }
    if q > 0.55 { TimesMonotone(0.55, q, whole); }
  }

  lemma ReservedMeans(namespace: string)
    ensures Reserved(namespace) <==> "_" <= namespace
  {
  }

  predicate Reserved(namespace: string) {
    namespace != "" && namespace[0] == '_'
  }

  // ----- one namespace --------------------------------------------------

  /** Positions in `group` of a cluster: seed first, ascending, all similar to the seed. */
  ghost predicate ClusterOk(tok: Tokenizer, group: seq<Memory>, pick: seq<nat>) {
    && 2 <= |pick| <= MAX_CLUSTER_SIZE
    && (forall x :: 0 <= x < |pick| ==> pick[x] < |group|)
    && (forall x, y :: 0 <= x < y < |pick| ==> pick[x] < pick[y])
    && (forall x :: 1 <= x < |pick| ==> Similar(tok, group[pick[0]], group[pick[x]]))
  }

  ghost predicate Picked(picks: seq<seq<nat>>, p: nat) {
    exists c :: 0 <= c < |picks| && p in picks[c]
  }

  ghost predicate Disjoint(picks: seq<seq<nat>>) {
    forall c, d, p :: 0 <= c < d < |picks| && p in picks[c] ==> p !in picks[d]
  }

  /** A cluster under construction: seed `i`, members below `j`. */
  ghost predicate Growing(tok: Tokenizer, group: seq<Memory>, cluster: seq<nat>, i: nat, j: nat)
    requires i < j <= |group|
  {
    && 1 <= |cluster| <= MAX_CLUSTER_SIZE && cluster[0] == i
    && (forall x :: 0 <= x < |cluster| ==> cluster[x] < j)
    && (forall x, y :: 0 <= x < y < |cluster| ==> cluster[x] < cluster[y])
    && (forall x :: 1 <= x < |cluster| ==> Similar(tok, group[i], group[cluster[x]]))
  }

  lemma GrowingExtend(tok: Tokenizer, group: seq<Memory>, cluster: seq<nat>, i: nat, j: nat)
    requires i < j < |group| && Growing(tok, group, cluster, i, j)
    ensures Growing(tok, group, cluster, i, j + 1)
    ensures |cluster| < MAX_CLUSTER_SIZE && Similar(tok, group[i], group[j]) ==>
              Growing(tok, group, cluster + [j], i, j + 1)
  {
  }

  /** The marks are those of before and the members of the cluster, which had none. */
  ghost predicate Marked(was: seq<bool>, now: seq<bool>, cluster: seq<nat>) {
    && |was| == |now|
    && (forall p :: p in cluster ==> p < |was| && !was[p])
    && (forall p :: 0 <= p < |was| ==> (now[p] <==> was[p] || p in cluster))
  }

  lemma MarkOne(was: seq<bool>, now: seq<bool>, cluster: seq<nat>, j: nat)
    requires Marked(was, now, cluster) && j < |was| && !now[j]
    ensures Marked(was, now[j := true], cluster + [j])
  {
  }

  /**
   The cluster took all it could: a similar position it left out was marked before,
   or comes after the last of eight members.
   */
  ghost predicate TookAll(tok: Tokenizer, group: seq<Memory>, was: seq<bool>, cluster: seq<nat>, i: nat, j: nat)
    requires |was| == |group| && i < j <= |group|
  {
    forall q :: i < q < j && !was[q] && Similar(tok, group[i], group[q]) && q !in cluster ==>
      |cluster| == MAX_CLUSTER_SIZE && cluster[|cluster| - 1] < q
  }

  lemma TookOneMore(tok: Tokenizer, group: seq<Memory>, was: seq<bool>, cluster: seq<nat>, i: nat, j: nat)
    requires |was| == |group| && i < j < |group| && Growing(tok, group, cluster, i, j)
    requires TookAll(tok, group, was, cluster, i, j)
    ensures was[j] || !Similar(tok, group[i], group[j]) || |cluster| == MAX_CLUSTER_SIZE ==>
              TookAll(tok, group, was, cluster, i, j + 1)
    ensures |cluster| < MAX_CLUSTER_SIZE ==> TookAll(tok, group, was, cluster + [j], i, j + 1)
  {
  }

  lemma TookAllToEnd(tok: Tokenizer, group: seq<Memory>, was: seq<bool>, cluster: seq<nat>, i: nat, j: nat)
    requires |was| == |group| && i < j <= |group| && Growing(tok, group, cluster, i, j)
    requires TookAll(tok, group, was, cluster, i, j) && |cluster| == MAX_CLUSTER_SIZE
    ensures TookAll(tok, group, was, cluster, i, |group|)
  {
  }

  /** Grow the cluster of seed `i` over the later, unused positions. */
  method GrowCluster(tok: Tokenizer, group: seq<Memory>, used: array<bool>, i: nat) returns (cluster: seq<nat>)
    requires used.Length == |group| && i < |group| && !used[i]
    modifies used
    ensures Growing(tok, group, cluster, i, |group|)
    ensures forall p :: p in cluster ==> p < |group| && !old(used[p])
    ensures forall p :: 0 <= p < |group| ==> (used[p] <==> old(used[p]) || p in cluster)
    ensures TookAll(tok, group, old(used[..]), cluster, i, |group|)
  {
    ghost var was := used[..];
    cluster := [i];
    used[i] := true;
    assert used[..] == was[i := true];
    for j := i + 1 to |group|
      invariant Growing(tok, group, cluster, i, j)
      invariant Marked(was, used[..], cluster)
      invariant TookAll(tok, group, was, cluster, i, j)
    {
      GrowingExtend(tok, group, cluster, i, j);
      TookOneMore(tok, group, was, cluster, i, j);
      if used[j] { continue; }
      if |cluster| >= MAX_CLUSTER_SIZE {
        assert Growing(tok, group, cluster, i, |group|) by { GrowingAll(tok, group, cluster, i, j); }
        TookAllToEnd(tok, group, was, cluster, i, j);
        break;
      }
      if Similar(tok, group[i], group[j]) {
        ghost var now := used[..];
        MarkOne(was, now, cluster, j);
        cluster := cluster + [j];
        used[j] := true;
        assert used[..] == now[j := true];
      }
    }
  }

  lemma GrowingAll(tok: Tokenizer, group: seq<Memory>, cluster: seq<nat>, i: nat, j: nat)
    requires i < j <= |group| && Growing(tok, group, cluster, i, j)
    ensures Growing(tok, group, cluster, i, |group|)
  {
  }

  /**
   Each cluster took what it could: a position after its seed and similar to it is
   in it, or in an earlier cluster, or comes after the last of eight members.
   */
  ghost predicate Greedy(tok: Tokenizer, group: seq<Memory>, picks: seq<seq<nat>>)
  {
    forall c, q :: 0 <= c < |picks| && picks[c] != [] && picks[c][0] < q < |group|
                   && Similar(tok, group[picks[c][0]], group[q]) && q !in picks[c] && !Picked(picks[..c], q) ==>
      |picks[c]| == MAX_CLUSTER_SIZE && picks[c][|picks[c]| - 1] < q
  }

  /** Lawful clusters, their seeds rising and below `n`. */
  ghost predicate Seeded(tok: Tokenizer, group: seq<Memory>, picks: seq<seq<nat>>, n: nat) {
    && (forall c :: 0 <= c < |picks| ==> ClusterOk(tok, group, picks[c]) && picks[c][0] < n)
    && (forall c, d :: 0 <= c < d < |picks| ==> picks[c] != [] && picks[d] != [] && picks[c][0] < picks[d][0])
  }

  /** An unclustered position below `n` is like no later unclustered one. */
  ghost predicate Apart(tok: Tokenizer, group: seq<Memory>, picks: seq<seq<nat>>, n: nat) {
    forall p, q :: 0 <= p < n && p < q < |group| && !Picked(picks, p) && !Picked(picks, q) ==>
      !Similar(tok, group[p], group[q])
  }

  /** What the clustering of one group promises, after the seeds before `n`. */
  ghost predicate GroupLaw(tok: Tokenizer, group: seq<Memory>, picks: seq<seq<nat>>, n: nat) {
    Seeded(tok, group, picks, n) && Disjoint(picks) && Greedy(tok, group, picks) && Apart(tok, group, picks, n)
  }

  lemma GroupLawExtend(tok: Tokenizer, group: seq<Memory>, picks: seq<seq<nat>>, n: nat, cluster: seq<nat>)
    requires GroupLaw(tok, group, picks, n) && n < |group|
    requires ClusterOk(tok, group, cluster) && cluster[0] == n
    requires forall p :: p in cluster ==> !Picked(picks, p)
    requires forall q :: n < q < |group| && Similar(tok, group[n], group[q]) && q !in cluster && !Picked(picks, q) ==>
               |cluster| == MAX_CLUSTER_SIZE && cluster[|cluster| - 1] < q
    ensures GroupLaw(tok, group, picks + [cluster], n + 1)
    ensures forall p: nat :: Picked(picks + [cluster], p) <==> Picked(picks, p) || p in cluster
  {
    PickedSnoc(picks, cluster);
    DisjointExtend(picks, cluster);
    GreedyExtend(tok, group, picks, cluster);
    SeededExtend(tok, group, picks, n, cluster);
    ApartExtend(tok, group, picks, n, cluster);
  }

  lemma SeededExtend(tok: Tokenizer, group: seq<Memory>, picks: seq<seq<nat>>, n: nat, cluster: seq<nat>)
    requires Seeded(tok, group, picks, n) && ClusterOk(tok, group, cluster) && cluster[0] == n
    ensures Seeded(tok, group, picks + [cluster], n + 1)
  {
  }

  lemma ApartExtend(tok: Tokenizer, group: seq<Memory>, picks: seq<seq<nat>>, n: nat, cluster: seq<nat>)
    requires Apart(tok, group, picks, n) && n in cluster
    ensures Apart(tok, group, picks + [cluster], n + 1)
  {
    PickedSnoc(picks, cluster);
  }

  lemma PickedSnoc(picks: seq<seq<nat>>, cluster: seq<nat>)
    ensures forall p: nat :: Picked(picks + [cluster], p) <==> Picked(picks, p) || p in cluster
  {
    var more := picks + [cluster];
    forall p: nat ensures Picked(more, p) <==> Picked(picks, p) || p in cluster {
      if p in cluster { assert p in more[|picks|]; }
      if Picked(picks, p) {
        var c :| 0 <= c < |picks| && p in picks[c];
        assert p in more[c];
      }
    }
  }

  lemma DisjointExtend(picks: seq<seq<nat>>, cluster: seq<nat>)
    requires Disjoint(picks) && forall p :: p in cluster ==> !Picked(picks, p)
    ensures Disjoint(picks + [cluster])
  {
    var more := picks + [cluster];
    forall c, d, p | 0 <= c < d < |more| && p in more[c] ensures p !in more[d] {
      if d == |picks| { assert Picked(picks, p); }
    }
  }

  lemma GreedyExtend(tok: Tokenizer, group: seq<Memory>, picks: seq<seq<nat>>, cluster: seq<nat>)
    requires Greedy(tok, group, picks) && ClusterOk(tok, group, cluster)
    requires forall q :: cluster[0] < q < |group| && Similar(tok, group[cluster[0]], group[q]) && q !in cluster
                         && !Picked(picks, q) ==>
               |cluster| == MAX_CLUSTER_SIZE && cluster[|cluster| - 1] < q
    ensures Greedy(tok, group, picks + [cluster])
  {
    var more := picks + [cluster];
    assert more[..|picks|] == picks;
    assert forall c :: 0 <= c < |picks| ==> more[..c] == picks[..c] && more[c] == picks[c];
  }

  method ClusterGroup(tok: Tokenizer, group: seq<Memory>) returns (picks: seq<seq<nat>>)
    ensures GroupLaw(tok, group, picks, |group|)
  {
    var used := new bool[|group|](_ => false);
    picks := [];
    for i := 0 to |group|
      invariant fresh(used) && used.Length == |group|
      invariant forall p: nat :: p < |group| && Picked(picks, p) ==> used[p]
      invariant forall p :: i <= p < |group| && used[p] ==> Picked(picks, p)
      invariant GroupLaw(tok, group, picks, i)
    {
      if used[i] {
        SeedPicked(tok, group, picks, i);
        continue;
      }
      ghost var was := used[..];
      var cluster := GrowCluster(tok, group, used, i);
      assert forall q :: i < q < |group| && !Picked(picks, q) ==> !was[q];
      if |cluster| >= 2 {
        GroupLawExtend(tok, group, picks, i, cluster);
        picks := picks + [cluster];
      } else {
        assert cluster == [i];
        SeedAlone(tok, group, picks, i);
      }
    }
  }

  lemma SeedPicked(tok: Tokenizer, group: seq<Memory>, picks: seq<seq<nat>>, n: nat)
    requires GroupLaw(tok, group, picks, n) && Picked(picks, n)
    ensures GroupLaw(tok, group, picks, n + 1)
  {
  }

  lemma SeedAlone(tok: Tokenizer, group: seq<Memory>, picks: seq<seq<nat>>, n: nat)
    requires GroupLaw(tok, group, picks, n) && n < |group|
    requires forall q :: n < q < |group| && !Picked(picks, q) ==> !Similar(tok, group[n], group[q])
    ensures GroupLaw(tok, group, picks, n + 1)
  {
  }

  // ----- all namespaces -------------------------------------------------

  /** The candidates of one namespace, as indices, in order. */
  ghost predicate IsGroup(cands: seq<Memory>, namespace: string, group: seq<nat>) {
    && (forall x :: 0 <= x < |group| ==> group[x] < |cands| && cands[group[x]].namespace == namespace)
    && (forall x, y :: 0 <= x < y < |group| ==> group[x] < group[y])
    && (forall i :: 0 <= i < |cands| && cands[i].namespace == namespace ==> i in group)
  }

  /** The groups of the first `n` candidates. */
  ghost predicate Grouped(cands: seq<Memory>, n: nat, byNs: map<string, seq<nat>>)
    requires n <= |cands|
  {
    && (forall i :: 0 <= i < n && !Reserved(cands[i].namespace) ==> cands[i].namespace in byNs)
    && (forall ns :: ns in byNs ==> !Reserved(ns) && IsGroup(cands[..n], ns, byNs[ns]))
  }

  lemma OtherGroupsStay(cands: seq<Memory>, n: nat, ns: string, group: seq<nat>)
    requires n < |cands| && cands[n].namespace != ns && IsGroup(cands[..n], ns, group)
    ensures IsGroup(cands[..n + 1], ns, group)
  {
  }

  function AddTo(byNs: map<string, seq<nat>>, ns: string, n: nat): map<string, seq<nat>> {
    byNs[ns := (if ns in byNs then byNs[ns] else []) + [n]]
  }

  lemma OwnGroupGrows(cands: seq<Memory>, n: nat, byNs: map<string, seq<nat>>)
    requires n < |cands| && Grouped(cands, n, byNs) && !Reserved(cands[n].namespace)
    ensures IsGroup(cands[..n + 1], cands[n].namespace, AddTo(byNs, cands[n].namespace, n)[cands[n].namespace])
  {
    var ns := cands[n].namespace;
    if ns !in byNs { assert forall i :: 0 <= i < n ==> cands[..n][i].namespace != ns; }
    GroupExtend(cands, n, if ns in byNs then byNs[ns] else []);
  }

  lemma AllInGroups(cands: seq<Memory>, n: nat, byNs: map<string, seq<nat>>)
    requires n < |cands| && Grouped(cands, n, byNs)
    ensures var ns := cands[n].namespace;
            var next := if Reserved(ns) then byNs else AddTo(byNs, ns, n);
            forall i :: 0 <= i < n + 1 && !Reserved(cands[i].namespace) ==> cands[i].namespace in next
  {
  }

  lemma GroupedStep(cands: seq<Memory>, n: nat, byNs: map<string, seq<nat>>)
    requires n < |cands| && Grouped(cands, n, byNs)
    ensures var ns := cands[n].namespace;
            Grouped(cands, n + 1, if Reserved(ns) then byNs else AddTo(byNs, ns, n))
  {
    var ns := cands[n].namespace;
    var next := if Reserved(ns) then byNs else AddTo(byNs, ns, n);
    AllInGroups(cands, n, byNs);
    forall other | other in next ensures !Reserved(other) && IsGroup(cands[..n + 1], other, next[other]) {
      if other == ns {
        OwnGroupGrows(cands, n, byNs);
      } else {
        OtherGroupsStay(cands, n, other, byNs[other]);
      }
    }
  }

  method GroupByNamespace(cands: seq<Memory>) returns (byNs: map<string, seq<nat>>)
    ensures forall i :: 0 <= i < |cands| && !Reserved(cands[i].namespace) ==> cands[i].namespace in byNs
    ensures forall ns :: ns in byNs ==> !Reserved(ns) && IsGroup(cands, ns, byNs[ns])
  {
    byNs := map[];
    for n := 0 to |cands|
      invariant Grouped(cands, n, byNs)
    {
      GroupedStep(cands, n, byNs);
      var ns := cands[n].namespace;
      if Reserved(ns) { continue; }
      byNs := AddTo(byNs, ns, n);
    }
    assert cands[..|cands|] == cands;
  }

  lemma GroupExtend(cands: seq<Memory>, n: nat, group: seq<nat>)
    requires n < |cands| && IsGroup(cands[..n], cands[n].namespace, group)
    ensures IsGroup(cands[..n + 1], cands[n].namespace, group + [n])
  {
  }

  /** A cluster of candidates: one namespace, not reserved, two to eight, all similar to the seed. */
  ghost predicate CandidateCluster(tok: Tokenizer, cands: seq<Memory>, pick: seq<nat>) {
    && 2 <= |pick| <= MAX_CLUSTER_SIZE
    && (forall x :: 0 <= x < |pick| ==> pick[x] < |cands|)
    && (forall x, y :: 0 <= x < y < |pick| ==> pick[x] < pick[y])
    && (forall x :: 0 <= x < |pick| ==>
          cands[pick[x]].namespace == cands[pick[0]].namespace && !Reserved(cands[pick[x]].namespace))
    && (forall x :: 1 <= x < |pick| ==> Similar(tok, cands[pick[0]], cands[pick[x]]))
  }

  /** Two unclustered candidates of a namespace already dealt with are below the threshold. */
  ghost predicate LeftoversApart(tok: Tokenizer, cands: seq<Memory>, picks: seq<seq<nat>>, done: set<string>) {
    forall p, q ::
      (0 <= p < q < |cands| && cands[p].namespace == cands[q].namespace && cands[p].namespace in done
       && !Picked(picks, p) && !Picked(picks, q)) ==> !Similar(tok, cands[p], cands[q])
  }

  /** The same for the candidates of one namespace. */
  ghost predicate GreedyByNamespace(tok: Tokenizer, cands: seq<Memory>, picks: seq<seq<nat>>)
  {
    forall c, q :: 0 <= c < |picks| && picks[c] != [] && picks[c][0] < q < |cands|
                   && cands[q].namespace == cands[picks[c][0]].namespace
                   && Similar(tok, cands[picks[c][0]], cands[q]) && q !in picks[c] && !Picked(picks[..c], q) ==>
      |picks[c]| == MAX_CLUSTER_SIZE && picks[c][|picks[c]| - 1] < q
  }

  lemma LiftedCluster(tok: Tokenizer, cands: seq<Memory>, ns: string, group: seq<nat>, pick: seq<nat>)
    requires IsGroup(cands, ns, group) && !Reserved(ns) && ClusterOk(tok, Select(cands, group), pick)
    ensures CandidateCluster(tok, cands, Select(group, pick))
    ensures forall i :: i in Select(group, pick) ==> i < |cands| && cands[i].namespace == ns
  {
  }

  method LiftAll(group: seq<nat>, picks: seq<seq<nat>>) returns (lifted: seq<seq<nat>>)
    requires forall c, x :: 0 <= c < |picks| && 0 <= x < |picks[c]| ==> picks[c][x] < |group|
    ensures |lifted| == |picks| && forall c :: 0 <= c < |picks| ==> lifted[c] == Select(group, picks[c])
  {
    lifted := [];
    for c := 0 to |picks|
      invariant |lifted| == c && forall d :: 0 <= d < c ==> lifted[d] == Select(group, picks[d])
    {
      lifted := lifted + [Select(group, picks[c])];
    }
  }

  /** The namespaces whose clusters are in `picks`, and what holds of them. */
  ghost predicate ClusterLaw(tok: Tokenizer, cands: seq<Memory>, picks: seq<seq<nat>>, done: set<string>) {
    && (forall c :: 0 <= c < |picks| ==> CandidateCluster(tok, cands, picks[c]))
    && (forall c, i :: 0 <= c < |picks| && i in picks[c] ==> i < |cands| && cands[i].namespace in done)
    && Disjoint(picks) && GreedyByNamespace(tok, cands, picks)
    && LeftoversApart(tok, cands, picks, done)
  }

  /** The lifted clusters of one namespace obey the law of that namespace. */
  lemma LiftedLaw(tok: Tokenizer, cands: seq<Memory>, ns: string, group: seq<nat>, picks: seq<seq<nat>>,
                  lifted: seq<seq<nat>>)
    requires IsGroup(cands, ns, group) && !Reserved(ns)
    requires GroupLaw(tok, Select(cands, group), picks, |group|)
    requires |lifted| == |picks| && forall c, y :: 0 <= c < |picks| && 0 <= y < |picks[c]| ==> picks[c][y] < |group|
    requires forall c :: 0 <= c < |picks| ==> lifted[c] == Select(group, picks[c])
    ensures ClusterLaw(tok, cands, lifted, {ns})
  {
    forall c | 0 <= c < |lifted| ensures CandidateCluster(tok, cands, lifted[c]) {
      LiftedCluster(tok, cands, ns, group, picks[c]);
    }
    forall c, i | 0 <= c < |lifted| && i in lifted[c] ensures i < |cands| && cands[i].namespace == ns {
      LiftedCluster(tok, cands, ns, group, picks[c]);
    }
    LiftedDisjoint(group, picks, lifted);
    forall p, q | 0 <= p < q < |cands| && cands[p].namespace == ns == cands[q].namespace
                  && !Picked(lifted, p) && !Picked(lifted, q)
      ensures !Similar(tok, cands[p], cands[q])
    {
      LiftedLeftovers(tok, cands, ns, group, picks, lifted, p, q);
    }
    LiftedGreedy(tok, cands, ns, group, picks, lifted);
  }

  lemma LiftedDisjoint(group: seq<nat>, picks: seq<seq<nat>>, lifted: seq<seq<nat>>)
    requires Disjoint(picks) && forall x, y :: 0 <= x < y < |group| ==> group[x] < group[y]
    requires |lifted| == |picks| && forall c, y :: 0 <= c < |picks| && 0 <= y < |picks[c]| ==> picks[c][y] < |group|
    requires forall c :: 0 <= c < |picks| ==> lifted[c] == Select(group, picks[c])
    ensures Disjoint(lifted)
  {
    forall c, d, i | 0 <= c < d < |lifted| && i in lifted[c] ensures i !in lifted[d] {
      LiftedApart(group, picks[c], picks[d], i);
    }
  }

  lemma LiftedGreedy(tok: Tokenizer, cands: seq<Memory>, ns: string, group: seq<nat>, picks: seq<seq<nat>>,
                     lifted: seq<seq<nat>>)
    requires IsGroup(cands, ns, group) && !Reserved(ns)
    requires (forall c :: 0 <= c < |picks| ==> ClusterOk(tok, Select(cands, group), picks[c]))
             && Greedy(tok, Select(cands, group), picks)
    requires |lifted| == |picks| && forall c, y :: 0 <= c < |picks| && 0 <= y < |picks[c]| ==> picks[c][y] < |group|
    requires forall c :: 0 <= c < |picks| ==> lifted[c] == Select(group, picks[c])
    requires forall c :: 0 <= c < |lifted| ==> CandidateCluster(tok, cands, lifted[c])
    ensures GreedyByNamespace(tok, cands, lifted)
  {
    forall c, q | 0 <= c < |lifted| && lifted[c] != [] && lifted[c][0] < q < |cands|
                  && cands[q].namespace == cands[lifted[c][0]].namespace
                  && Similar(tok, cands[lifted[c][0]], cands[q]) && q !in lifted[c] && !Picked(lifted[..c], q)
      ensures |lifted[c]| == MAX_CLUSTER_SIZE && lifted[c][|lifted[c]| - 1] < q
    {
      assert cands[q].namespace == ns;
      var y :| 0 <= y < |group| && group[y] == q;
      assert picks[c][0] < y;
      SelectedInside(group, picks[c], y);
      NotPickedBelow(group, picks, lifted, c, y);
      assert Select(cands, group)[y] == cands[q];
    }
  }

  lemma SelectedInside(group: seq<nat>, pick: seq<nat>, y: nat)
    requires (forall x :: 0 <= x < |pick| ==> pick[x] < |group|) && y < |group|
    ensures y in pick ==> group[y] in Select(group, pick)
  {
    assert forall x :: 0 <= x < |pick| ==> Select(group, pick)[x] in Select(group, pick);
  }

  lemma NotPickedBelow(group: seq<nat>, picks: seq<seq<nat>>, lifted: seq<seq<nat>>, c: nat, y: nat)
    requires |lifted| == |picks| && forall d, x :: 0 <= d < |picks| && 0 <= x < |picks[d]| ==> picks[d][x] < |group|
    requires forall d :: 0 <= d < |picks| ==> lifted[d] == Select(group, picks[d])
    requires c <= |picks| && y < |group| && !Picked(lifted[..c], group[y])
    ensures !Picked(picks[..c], y)
  {
  }

  lemma LiftedLeftovers(tok: Tokenizer, cands: seq<Memory>, ns: string, group: seq<nat>, picks: seq<seq<nat>>,
                        lifted: seq<seq<nat>>, p: nat, q: nat)
    requires IsGroup(cands, ns, group) && GroupLaw(tok, Select(cands, group), picks, |group|)
    requires |lifted| == |picks| && forall c, y :: 0 <= c < |picks| && 0 <= y < |picks[c]| ==> picks[c][y] < |group|
    requires forall c :: 0 <= c < |picks| ==> lifted[c] == Select(group, picks[c])
    requires p < q < |cands| && cands[p].namespace == ns == cands[q].namespace
    requires !Picked(lifted, p) && !Picked(lifted, q)
    ensures !Similar(tok, cands[p], cands[q])
  {
  }

  lemma LiftedApart(group: seq<nat>, pick: seq<nat>, other: seq<nat>, i: nat)
    requires forall x, y :: 0 <= x < y < |group| ==> group[x] < group[y]
    requires forall x :: 0 <= x < |pick| ==> pick[x] < |group|
    requires forall x :: 0 <= x < |other| ==> other[x] < |group|
    requires forall p :: p in pick ==> p !in other
    requires i in Select(group, pick)
    ensures i !in Select(group, other)
  {
    var x :| 0 <= x < |pick| && group[pick[x]] == i;
    assert pick[x] in pick;
    forall y | 0 <= y < |other| ensures group[other[y]] != i {
      assert other[y] in other && other[y] != pick[x];
      assert pick[x] < other[y] || other[y] < pick[x];
    }
  }

  /** Clusters of separate namespaces do not disturb each other. */
  lemma LawsCombine(tok: Tokenizer, cands: seq<Memory>, picks: seq<seq<nat>>, done: set<string>,
                    more: seq<seq<nat>>, ns: string)
    requires ClusterLaw(tok, cands, picks, done) && ClusterLaw(tok, cands, more, {ns}) && ns !in done
    ensures ClusterLaw(tok, cands, picks + more, done + {ns})
  {
    var all := picks + more;
    forall p: nat | Picked(picks, p) || Picked(more, p) ensures Picked(all, p) {
      if Picked(picks, p) {
        var c :| 0 <= c < |picks| && p in picks[c];
        assert p in all[c];
      } else {
        var c :| 0 <= c < |more| && p in more[c];
        assert p in all[|picks| + c];
      }
    }
    forall c, d, p | 0 <= c < d < |all| && p in all[c] ensures p !in all[d] {
      if c < |picks| <= d {
        assert cands[p].namespace in done;
        assert forall i :: i in more[d - |picks|] ==> cands[i].namespace == ns;
      } else if |picks| <= c {
        assert p in more[c - |picks|];
      }
    }
    GreedyCombine(tok, cands, picks, more);
  }

  lemma GreedyCombine(tok: Tokenizer, cands: seq<Memory>, picks: seq<seq<nat>>, more: seq<seq<nat>>)
    requires forall c :: 0 <= c < |picks| ==> CandidateCluster(tok, cands, picks[c])
    requires forall c :: 0 <= c < |more| ==> CandidateCluster(tok, cands, more[c])
    requires GreedyByNamespace(tok, cands, picks) && GreedyByNamespace(tok, cands, more)
    ensures GreedyByNamespace(tok, cands, picks + more)
  {
    var all := picks + more;
    forall c, q | 0 <= c < |all| && all[c] != [] && all[c][0] < q < |cands|
                  && cands[q].namespace == cands[all[c][0]].namespace
                  && Similar(tok, cands[all[c][0]], cands[q]) && q !in all[c] && !Picked(all[..c], q)
      ensures |all[c]| == MAX_CLUSTER_SIZE && all[c][|all[c]| - 1] < q
    {
      if c < |picks| {
        assert all[..c] == picks[..c];
      } else {
        PickedInTail(picks, more, c - |picks|, q);
      }
    }
  }

  lemma PickedInTail(picks: seq<seq<nat>>, more: seq<seq<nat>>, c: nat, q: nat)
    requires c <= |more| && !Picked((picks + more)[..|picks| + c], q)
    ensures !Picked(more[..c], q)
  {
    var front := (picks + more)[..|picks| + c];
    forall d | 0 <= d < c ensures q !in more[..c][d] { assert front[|picks| + d] == more[..c][d]; }
  }

  /** What the law says when all unreserved namespaces are dealt with. */
  lemma LawMeans(tok: Tokenizer, cands: seq<Memory>, clusters: seq<seq<nat>>, done: set<string>)
    requires ClusterLaw(tok, cands, clusters, done)
    requires forall i :: 0 <= i < |cands| && !Reserved(cands[i].namespace) ==> cands[i].namespace in done
    ensures forall c, i :: 0 <= c < |clusters| && i in clusters[c] ==> i < |cands| && !("_" <= cands[i].namespace)
    ensures forall c, q :: 0 <= c < |clusters| && clusters[c] != [] && clusters[c][0] < q < |cands|
                           && cands[q].namespace == cands[clusters[c][0]].namespace
                           && Similar(tok, cands[clusters[c][0]], cands[q])
                           && q !in clusters[c] && !Picked(clusters[..c], q) ==>
              |clusters[c]| == 8 && clusters[c][7] < q
    ensures forall p, q :: 0 <= p < q < |cands| && cands[p].namespace == cands[q].namespace
                           && !("_" <= cands[p].namespace) && !Picked(clusters, p) && !Picked(clusters, q) ==>
              !Similar(tok, cands[p], cands[q])
  {
    forall c, i | 0 <= c < |clusters| && i in clusters[c] ensures i < |cands| && !("_" <= cands[i].namespace) {
      assert CandidateCluster(tok, cands, clusters[c]);
      var x :| 0 <= x < |clusters[c]| && clusters[c][x] == i;
      ReservedMeans(cands[i].namespace);
    }
    forall p | 0 <= p < |cands| ensures Reserved(cands[p].namespace) <==> "_" <= cands[p].namespace {
      ReservedMeans(cands[p].namespace);
    }
  }

  /**
   The clusters, as candidate indices. Namespaces are visited in any order. The
   clusters are disjoint, each lies in one unreserved namespace, has two to
   eight members all similar to its seed, and took what it could: a later
   candidate of the namespace that is similar to the seed is in the cluster, or in
   an earlier one, or comes after the last of eight members. Any two candidates of
   one unreserved namespace that stay unclustered are below the threshold.
   */
  method FindConsolidationClusters(tok: Tokenizer, cands: seq<Memory>) returns (clusters: seq<seq<nat>>)
    ensures forall c :: 0 <= c < |clusters| ==> CandidateCluster(tok, cands, clusters[c])
    ensures forall c, i :: 0 <= c < |clusters| && i in clusters[c] ==> i < |cands| && !("_" <= cands[i].namespace)
    ensures Disjoint(clusters)
    ensures forall c, q :: 0 <= c < |clusters| && clusters[c] != [] && clusters[c][0] < q < |cands|
                           && cands[q].namespace == cands[clusters[c][0]].namespace
                           && Similar(tok, cands[clusters[c][0]], cands[q])
                           && q !in clusters[c] && !Picked(clusters[..c], q) ==>
              |clusters[c]| == 8 && clusters[c][7] < q
    ensures forall p, q :: 0 <= p < q < |cands| && cands[p].namespace == cands[q].namespace
                           && !("_" <= cands[p].namespace) && !Picked(clusters, p) && !Picked(clusters, q) ==>
              !Similar(tok, cands[p], cands[q])
  {
    var byNs := GroupByNamespace(cands);
    var rest := byNs.Keys;
    clusters := [];
    ghost var done: set<string> := {};
    while rest != {}
      invariant rest <= byNs.Keys && done == byNs.Keys - rest
      invariant ClusterLaw(tok, cands, clusters, done)
      decreases rest
    {
      var ns :| ns in rest;
      var group := byNs[ns];
      var picks := ClusterGroup(tok, Select(cands, group));
      var lifted := LiftAll(group, picks);
      LiftedLaw(tok, cands, ns, group, picks, lifted);
      LawsCombine(tok, cands, clusters, done, lifted, ns);
      clusters := clusters + lifted;
      rest, done := rest - {ns}, done + {ns};
    }
    LawMeans(tok, cands, clusters, done);
  }
}
