/** Longest-prefix lookups in configuration tables: transcript lifecycles, auto-extract, the MCP allowlist. */
module Config {
  import opened Basics

  const DEFAULT_TRANSCRIPT_TTL_SECS := 2592000
  const DEFAULT_TRANSCRIPT_ARCHIVE_GRACE_SECS := 604800
  const MAX_TRANSCRIPT_LIFECYCLE_SECS := 315360000

  // ----- lookups, whatever the patterns mean ----------------------------

  /** How specific a key is for the subject at hand; none if it does not match. */
  type Rank = string -> Option<nat>

  /** The key matches and its entry sets the field. */
  predicate Sets<C, V>(table: map<string, C>, rank: Rank, field: C -> Option<V>, key: string) {
    key in table && rank(key).Some? && field(table[key]).Some?
  }

  /** The most specific key that sets the field. */
  ghost predicate Best<C, V>(table: map<string, C>, rank: Rank, field: C -> Option<V>, key: string) {
    && Sets(table, rank, field, key)
    && forall k :: Sets(table, rank, field, k) && k != key ==> rank(k).value < rank(key).value
  }

  /** `r` is the value of the most specific key, or none because no key sets the field. */
  ghost predicate LookedUp<C(!new), V(!new)>(table: map<string, C>, rank: Rank, field: C -> Option<V>, r: Option<V>) {
    if r.None? then forall k :: !Sets(table, rank, field, k)
    else exists k :: Best(table, rank, field, k) && field(table[k]) == r
  }

  /** A lookup has one answer, so no iteration order can show in it. */
  lemma LookupUnique<C(!new), V(!new)>(table: map<string, C>, rank: Rank, field: C -> Option<V>, r: Option<V>,
                                       t: Option<V>)
    requires LookedUp(table, rank, field, r) && LookedUp(table, rank, field, t)
    ensures r == t
  {
  }

  // ----- sorting keys, longest first ------------------------------------

  function InsertByLength(k: string, ks: seq<string>): seq<string> {
    if ks == [] || |k| >= |ks[0]| then [k] + ks else [ks[0]] + InsertByLength(k, ks[1..])
  }

  /** `sort_by_key(Reverse(len))`, stable. */
  function LongestFirst(ks: seq<string>): seq<string> {
    if ks == [] then [] else InsertByLength(ks[0], LongestFirst(ks[1..]))
  }

  ghost predicate Descending(ks: seq<string>) {
    forall i, j :: 0 <= i < j < |ks| ==> |ks[i]| >= |ks[j]|
  }

  lemma {:induction false} InsertDescends(k: string, ks: seq<string>)
    requires Descending(ks)
    ensures Descending(InsertByLength(k, ks))
    ensures forall x :: x in InsertByLength(k, ks) <==> x == k || x in ks
  {
    if ks != [] && |k| < |ks[0]| {
      InsertDescends(k, ks[1..]);
      var rest := InsertByLength(k, ks[1..]);
      assert ks == [ks[0]] + ks[1..];
      forall i | 0 <= i < |rest| ensures |ks[0]| >= |rest[i]| {
        assert rest[i] in rest;
      }
    }
  }

  lemma {:induction false} LongestFirstSorts(ks: seq<string>)
    ensures Descending(LongestFirst(ks))
    ensures forall x :: x in LongestFirst(ks) <==> x in ks
  {
    if ks != [] {
      LongestFirstSorts(ks[1..]);
      InsertDescends(ks[0], LongestFirst(ks[1..]));
      assert ks == [ks[0]] + ks[1..];
    }
  }

  // ----- namespace patterns ---------------------------------------------

  /** A pattern that ends in a slash and a star yields what is before them. */
  function StripStar(key: string): Option<string> {
    if |key| >= 2 && key[|key| - 2..] == "/*" then Some(key[..|key| - 2]) else None
  }

  predicate Covers(prefix: string, ns: string) {
    ns == prefix || prefix + "/" <= ns
  }

  predicate PrefixHit(key: string, ns: string) {
    StripStar(key).Some? && Covers(StripStar(key).value, ns)
  }

  /** Exact, then the longest prefix, then the bare star. */
  function NamespaceRank(ns: string, key: string): Option<nat> {
    if key == ns then Some(|ns| + 2)
    else if PrefixHit(key, ns) then Some(|key| - 1)
    else if key == "*" then Some(0)
    else None
  }

  /**
   Which keys match a namespace, and how they rank: itself above all; then a prefix
   before a slash and a star, for the prefix itself and everything below it, a
   longer one above a shorter; the bare star below all and for all.
   */
  lemma MatchLaws(ns: string, key: string, prefix: string)
    ensures NamespaceRank(ns, key).Some? <==>
              || key == ns || key == "*"
              || exists p: string :: key == p + "/*" && (ns == p || p + "/" <= ns)
    ensures NamespaceRank(ns, ns).Some? && NamespaceRank(ns, "*").Some?
    ensures key != ns && NamespaceRank(ns, key).Some? ==> NamespaceRank(ns, key).value < NamespaceRank(ns, ns).value
    ensures key != "*" && ns != "*" && NamespaceRank(ns, key).Some? ==>
              NamespaceRank(ns, "*").value < NamespaceRank(ns, key).value
    ensures var k, l := prefix + "/*", key;
            (k != ns && l != ns && PrefixHit(k, ns) && PrefixHit(l, ns) && |k| > |l| ==>
               NamespaceRank(ns, k).value > NamespaceRank(ns, l).value)
  {
    if PrefixHit(key, ns) { assert key == StripStar(key).value + "/*"; }
    if p: string :| key == p + "/*" && (ns == p || p + "/" <= ns) {
      assert key[|key| - 2..] == "/*" && key[..|key| - 2] == p;
    }
    PrefixIsShorter(ns, key);
    assert StripStar("*").None?;
  }

  /** Two prefix patterns of one length that match one namespace are the same pattern. */
  lemma SameLengthSamePattern(ns: string, k: string, l: string)
    requires PrefixHit(k, ns) && PrefixHit(l, ns) && |k| == |l|
    ensures k == l
  {
    var p, q := StripStar(k).value, StripStar(l).value;
    assert k == p + "/*" && l == q + "/*";
    assert p == ns[..|p|] && q == ns[..|q|];
  }

  /** No two keys have the same rank, and an exact key outranks every pattern. */
  lemma RankInjective(ns: string, k: string, l: string)
    requires NamespaceRank(ns, k).Some? && NamespaceRank(ns, k) == NamespaceRank(ns, l)
    ensures k == l
  {
    PrefixIsShorter(ns, k);
    PrefixIsShorter(ns, l);
    if PrefixHit(k, ns) && PrefixHit(l, ns) && k != ns && l != ns { SameLengthSamePattern(ns, k, l); }
  }

  lemma PrefixIsShorter(ns: string, k: string)
    ensures PrefixHit(k, ns) ==> 2 <= |k| <= |ns| + 2
  {
  }

  ghost predicate IsOrder<C>(order: seq<string>, table: map<string, C>) {
    forall k :: k in order <==> k in table
  }

  method PrefixHits<C>(table: map<string, C>, order: seq<string>, ns: string) returns (hits: seq<string>)
    requires IsOrder(order, table)
    ensures forall k :: k in hits <==> k in table && PrefixHit(k, ns)
  {
    hits := [];
    for i := 0 to |order|
      invariant forall k :: k in hits <==> k in order[..i] && PrefixHit(k, ns)
    {
      assert order[..i + 1] == order[..i] + [order[i]];
      if PrefixHit(order[i], ns) { hits := hits + [order[i]]; }
    }
    assert order[..|order|] == order;
  }

  /** The walk of `pick_ns`: the exact key, prefix patterns longest first, the bare star; unset fields are skipped. */
  method PickNamespace<C(!new), V(!new)>(table: map<string, C>, order: seq<string>, ns: string, field: C -> Option<V>)
    returns (r: Option<V>)
    requires IsOrder(order, table)
    ensures LookedUp(table, k => NamespaceRank(ns, k), field, r)
  {
    ghost var rank: Rank := k => NamespaceRank(ns, k);
    if ns in table && field(table[ns]).Some? {
      ExactIsBest(table, ns, field);
      return field(table[ns]);
    }
    var hits := PrefixHits(table, order, ns);
    LongestFirstSorts(hits);
    var sorted := LongestFirst(hits);
    for i := 0 to |sorted|
      invariant forall k :: k in sorted[..i] ==> field(table[k]).None?
    {
      assert sorted[..i + 1] == sorted[..i] + [sorted[i]];
      if field(table[sorted[i]]).Some? {
        FirstHitIsBest(table, ns, field, sorted, i);
        return field(table[sorted[i]]);
      }
    }
    assert sorted[..|sorted|] == sorted;
    assert forall k :: Sets(table, rank, field, k) ==> k !in sorted && k == "*";
    if "*" in table && field(table["*"]).Some? {
      assert Best(table, rank, field, "*");
      return field(table["*"]);
    }
    return None;
  }

  lemma ExactIsBest<C, V>(table: map<string, C>, ns: string, field: C -> Option<V>)
    requires ns in table && field(table[ns]).Some?
    ensures Best(table, k => NamespaceRank(ns, k), field, ns)
  {
  }

  lemma FirstHitIsBest<C, V>(table: map<string, C>, ns: string, field: C -> Option<V>, sorted: seq<string>, i: nat)
    requires i < |sorted| && Descending(sorted)
    requires forall k :: k in sorted <==> k in table && PrefixHit(k, ns)
    requires !(ns in table && field(table[ns]).Some?)
    requires forall k :: k in sorted[..i] ==> field(table[k]).None?
    requires field(table[sorted[i]]).Some?
    ensures Best(table, k => NamespaceRank(ns, k), field, sorted[i])
  {
    var rank: Rank := k => NamespaceRank(ns, k);
    var best := sorted[i];
    assert best in sorted;
    assert forall j :: 0 <= j < i ==> sorted[j] in sorted[..i];
    PrefixIsShorter(ns, best);
    forall k | Sets(table, rank, field, k) && k != best ensures rank(k).value < rank(best).value {
      if PrefixHit(k, ns) {
        assert k in sorted;
        var j :| 0 <= j < |sorted| && sorted[j] == k;
        assert i < j;
        if |k| == |best| { SameLengthSamePattern(ns, k, best); }
      }
    }
  }

  // ----- transcripts ----------------------------------------------------

  datatype NamespaceConfig = NamespaceConfig(
    defaultTtlSecs: Option<int>, archiveGraceSecs: Option<int>, autoExtract: Option<bool>)

  datatype TranscriptsConfig = TranscriptsConfig(
    defaultTtlSecs: Option<int>, archiveGraceSecs: Option<int>, namespaces: Option<map<string, NamespaceConfig>>)

  datatype Lifecycle = Lifecycle(defaultTtlSecs: int, archiveGraceSecs: int)

  function TtlOf(n: NamespaceConfig): Option<int> { n.defaultTtlSecs }

  function GraceOf(n: NamespaceConfig): Option<int> { n.archiveGraceSecs }

  function AutoExtractOf(n: NamespaceConfig): Option<bool> { n.autoExtract }

  /** The picked value, else the global one; non-positive values become the compiled default. */
  function Lifetime(picked: Option<int>, global: Option<int>, fallback: int): int {
    var v := if picked.Some? then picked else global;
    if v.None? || v.value <= 0 then fallback
    else if v.value < MAX_TRANSCRIPT_LIFECYCLE_SECS then v.value else MAX_TRANSCRIPT_LIFECYCLE_SECS
  }

  /** A positive pick stands, up to the ten-year cap; without one the global value counts the same way. */
  lemma LifetimeLaws(picked: Option<int>, global: Option<int>, fallback: int)
    ensures var r := Lifetime(picked, global, fallback);
            && (picked.Some? && 0 < picked.value <= 315360000 ==> r == picked.value)
            && (picked.Some? && picked.value > 315360000 ==> r == 315360000)
            && (picked.Some? && picked.value <= 0 ==> r == fallback)
            && (picked.None? ==> r == Lifetime(global, None, fallback))
            && (picked.None? && global.None? ==> r == fallback)
  {
  }

  ghost predicate Picks<V(!new)>(cfg: TranscriptsConfig, ns: string, field: NamespaceConfig -> Option<V>,
                                 r: Option<V>) {
    if cfg.namespaces.None? then r.None?
    else LookedUp(cfg.namespaces.value, k => NamespaceRank(ns, k), field, r)
  }

  method PickField<V(!new)>(cfg: TranscriptsConfig, order: seq<string>, ns: string, field: NamespaceConfig -> Option<V>)
    returns (r: Option<V>)
    requires cfg.namespaces.Some? ==> IsOrder(order, cfg.namespaces.value)
    ensures Picks(cfg, ns, field, r)
  {
    if cfg.namespaces.None? { return None; }
    r := PickNamespace(cfg.namespaces.value, order, ns, field);
  }

  /** Each lifetime comes from the most specific pattern that sets it, in whatever order the table is walked. */
  method Resolve(cfg: TranscriptsConfig, order: seq<string>, ns: string) returns (r: Lifecycle)
    requires cfg.namespaces.Some? ==> IsOrder(order, cfg.namespaces.value)
    ensures (exists v :: Picks(cfg, ns, TtlOf, v)) && (exists v :: Picks(cfg, ns, GraceOf, v))
    ensures forall v :: Picks(cfg, ns, TtlOf, v) ==>
              r.defaultTtlSecs == Lifetime(v, cfg.defaultTtlSecs, 2592000)
    ensures forall v :: Picks(cfg, ns, GraceOf, v) ==>
              r.archiveGraceSecs == Lifetime(v, cfg.archiveGraceSecs, 604800)
    ensures 1 <= r.defaultTtlSecs <= MAX_TRANSCRIPT_LIFECYCLE_SECS
    ensures 1 <= r.archiveGraceSecs <= MAX_TRANSCRIPT_LIFECYCLE_SECS
  {
    var ttl := PickField(cfg, order, ns, TtlOf);
    var grace := PickField(cfg, order, ns, GraceOf);
    forall v | Picks(cfg, ns, TtlOf, v) ensures v == ttl { PicksUnique(cfg, ns, TtlOf, v, ttl); }
    forall v | Picks(cfg, ns, GraceOf, v) ensures v == grace { PicksUnique(cfg, ns, GraceOf, v, grace); }
    r := Lifecycle(Lifetime(ttl, cfg.defaultTtlSecs, DEFAULT_TRANSCRIPT_TTL_SECS),
                   Lifetime(grace, cfg.archiveGraceSecs, DEFAULT_TRANSCRIPT_ARCHIVE_GRACE_SECS));
  }

  lemma PicksUnique<V(!new)>(cfg: TranscriptsConfig, ns: string, field: NamespaceConfig -> Option<V>, r: Option<V>,
                             t: Option<V>)
    requires Picks(cfg, ns, field, r) && Picks(cfg, ns, field, t)
    ensures r == t
  {
  }

  /** An exact entry decides every field it sets, each for itself. */
  lemma ExactEntryDecides(cfg: TranscriptsConfig, ns: string)
    requires cfg.namespaces.Some? && ns in cfg.namespaces.value
    ensures var c := cfg.namespaces.value[ns];
            && (c.defaultTtlSecs.Some? ==> Picks(cfg, ns, TtlOf, c.defaultTtlSecs))
            && (c.archiveGraceSecs.Some? ==> Picks(cfg, ns, GraceOf, c.archiveGraceSecs))
            && (c.autoExtract.Some? ==> Picks(cfg, ns, AutoExtractOf, c.autoExtract))
  {
    var table := cfg.namespaces.value;
    if TtlOf(table[ns]).Some? { ExactIsBest(table, ns, TtlOf); }
    if GraceOf(table[ns]).Some? { ExactIsBest(table, ns, GraceOf); }
    if AutoExtractOf(table[ns]).Some? { ExactIsBest(table, ns, AutoExtractOf); }
  }

  method AutoExtractFor(cfg: TranscriptsConfig, order: seq<string>, ns: string) returns (on: bool)
    requires cfg.namespaces.Some? ==> IsOrder(order, cfg.namespaces.value)
    ensures exists v :: Picks(cfg, ns, AutoExtractOf, v)
    ensures forall v :: Picks(cfg, ns, AutoExtractOf, v) ==> on == (v == Some(true))
  {
    var picked := PickField(cfg, order, ns, AutoExtractOf);
    forall v | Picks(cfg, ns, AutoExtractOf, v) ensures v == picked { PicksUnique(cfg, ns, AutoExtractOf, v, picked); }
    on := picked == Some(true);
  }

  // ----- the documented fall-through ------------------------------------

  /** The field with non-positive values counted as unset. */
  function OnlyPositive<C>(field: C -> Option<int>): C -> Option<int> {
    c => if field(c).Some? && field(c).value > 0 then field(c) else None
  }

  /**
   The documentation lets a non-positive value fall through to the next layer;
   the code sends it to the compiled default. The two agree exactly when the
   picked value is positive or absent, or the next layers lead to the default anyway.
   */
  lemma FallThroughIff<C(!new)>(table: map<string, C>, rank: Rank, field: C -> Option<int>, global: Option<int>,
                                fallback: int, picked: Option<int>, documented: Option<int>)
    requires LookedUp(table, rank, field, picked) && LookedUp(table, rank, OnlyPositive(field), documented)
    ensures Lifetime(picked, global, fallback) == Lifetime(documented, global, fallback) <==>
            picked.None? || picked.value > 0 || Lifetime(documented, global, fallback) == fallback
  {
    var positive := OnlyPositive(field);
    assert forall k :: Sets(table, rank, positive, k) ==> Sets(table, rank, field, k);
    if picked.None? {
      LookupUnique(table, rank, positive, None, documented);
    } else if picked.value > 0 {
      var k :| Best(table, rank, field, k) && field(table[k]) == picked;
      assert Best(table, rank, positive, k);
      LookupUnique(table, rank, positive, picked, documented);
    }
  }

  /** An exact zero hides a wildcard's hour: the code answers thirty days. */
  lemma NonPositiveHidesLowerLayers()
    ensures var table := map["team" := Some(0), "*" := Some(3600)];
            var rank: Rank := k => NamespaceRank("team", k);
            && LookedUp(table, rank, (v: Option<int>) => v, Some(0))
            && Lifetime(Some(0), None, DEFAULT_TRANSCRIPT_TTL_SECS) == 2592000
            && LookedUp(table, rank, OnlyPositive((v: Option<int>) => v), Some(3600))
            && Lifetime(Some(3600), None, DEFAULT_TRANSCRIPT_TTL_SECS) == 3600
  {
    var table := map["team" := Some(0), "*" := Some(3600)];
    var rank: Rank := k => NamespaceRank("team", k);
    var field := (v: Option<int>) => v;
    assert "*" != "team";
    assert Best(table, rank, field, "team") by { ExactIsBest(table, "team", field); }
    assert rank("*") == Some(0) by { assert StripStar("*").None?; }
    assert forall k :: Sets(table, rank, OnlyPositive(field), k) ==> k == "*";
    assert Best(table, rank, OnlyPositive(field), "*");
  }

  // ----- the MCP allowlist ----------------------------------------------

  datatype Decision = Disabled | Allow | Deny

  function Decide(families: seq<string>, requested: string): Decision {
    if "full" in families || requested in families then Allow else Deny
  }

  /** Exact, then the longest key that is a prefix of the agent id, then the star. */
  function AgentRank(agent: string, key: string): Option<nat> {
    if key == agent then Some(|agent| + 2)
    else if key == "*" then Some(0)
    else if key <= agent then Some(|key| + 1)
    else None
  }

  /** Which keys match an agent, and how they rank: itself, then its prefixes by length, then the star. */
  lemma AgentMatchLaws(agent: string, key: string, other: string)
    ensures AgentRank(agent, key).Some? <==> key == "*" || key <= agent
    ensures AgentRank(agent, agent).Some? && AgentRank(agent, "*").Some?
    ensures key != agent && AgentRank(agent, key).Some? ==> AgentRank(agent, key).value < AgentRank(agent, agent).value
    ensures key != "*" && agent != "*" && AgentRank(agent, key).Some? ==>
              AgentRank(agent, "*").value < AgentRank(agent, key).value
    ensures key != "*" && other != "*" && |key| < |other|
            && AgentRank(agent, key).Some? && AgentRank(agent, other).Some? ==>
              AgentRank(agent, key).value < AgentRank(agent, other).value
  {
  }

  function Families(fs: seq<string>): Option<seq<string>> { Some(fs) }

  /** The entry of the most specific key for the agent, or none because no key matches. */
  ghost predicate FamiliesFor(table: map<string, seq<string>>, agent: string, r: Option<seq<string>>) {
    LookedUp(table, k => AgentRank(agent, k), Families, r)
  }

  lemma FamiliesUnique(table: map<string, seq<string>>, agent: string, r: Option<seq<string>>, t: Option<seq<string>>)
    requires FamiliesFor(table, agent, r) && FamiliesFor(table, agent, t)
    ensures r == t
  {
  }

  method AllowlistDecision(allowlist: Option<map<string, seq<string>>>, order: seq<string>, agentId: Option<string>,
                           family: string)
    returns (d: Decision)
    requires allowlist.Some? ==> IsOrder(order, allowlist.value)
    ensures d == Disabled <==> allowlist.None? || allowlist.value == map[]
    ensures d != Disabled ==>
              var agent := if agentId.Some? then agentId.value else "";
              && (exists v :: FamiliesFor(allowlist.value, agent, v))
              && forall v :: FamiliesFor(allowlist.value, agent, v) ==>
                   (d == Allow <==> v.Some? && ("full" in v.value || family in v.value))
  {
    if allowlist.None? || allowlist.value == map[] { return Disabled; }
    var table := allowlist.value;
    var agent := if agentId.Some? then agentId.value else "";
    ghost var rank: Rank := k => AgentRank(agent, k);
    ghost var field := Families;
    var found: Option<seq<string>> := None;
    if agent in table {
      found := Some(table[agent]);
      assert Best(table, rank, field, agent);
    } else {
      var longest := LongestAgentPrefix(table, order, agent);
      if longest.Some? {
        found := Some(table[longest.value]);
        assert Best(table, rank, field, longest.value);
      } else if "*" in table {
        found := Some(table["*"]);
        assert Best(table, rank, field, "*");
      } else {
        assert forall k :: !Sets(table, rank, field, k);
      }
    }
    assert LookedUp(table, rank, field, found);
    assert FamiliesFor(table, agent, found);
    forall v | FamiliesFor(table, agent, v) ensures v == found { FamiliesUnique(table, agent, v, found); }
    d := if found.Some? then Decide(found.value, family) else Deny;
  }

  /** Collect the keys that are prefixes, sort them longest first, take the first. */
  method LongestAgentPrefix(table: map<string, seq<string>>, order: seq<string>,
                            agent: string) returns (r: Option<string>)
    requires IsOrder(order, table) && agent !in table
    ensures r.None? ==> forall k :: k in table && k != "*" ==> !(k <= agent)
    ensures r.Some? ==> r.value in table && r.value != "*" && r.value <= agent
    ensures r.Some? ==> forall k :: k in table && k != "*" && k <= agent && k != r.value ==> |k| < |r.value|
  {
    var keys: seq<string> := [];
    for i := 0 to |order|
      invariant forall k :: k in keys <==> k in order[..i] && k != "*" && k <= agent
    {
      assert order[..i + 1] == order[..i] + [order[i]];
      if order[i] != "*" && order[i] <= agent { keys := keys + [order[i]]; }
    }
    assert order[..|order|] == order;
    LongestFirstSorts(keys);
    var sorted := LongestFirst(keys);
    assert forall k :: k in sorted <==> k in table && k != "*" && k <= agent;
    if sorted == [] { return None; }
    forall k | k in table && k != "*" && k <= agent && k != sorted[0] ensures |k| < |sorted[0]| {
      assert k in sorted && sorted[0] in sorted;
      assert k == agent[..|k|] && sorted[0] == agent[..|sorted[0]|];
    }
    r := Some(sorted[0]);
    assert sorted[0] in sorted;
  }
}
