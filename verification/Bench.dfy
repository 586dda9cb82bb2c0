/** Interpolated percentiles of benchmark samples, over exact reals. */
module Bench {

  predicate Sorted(s: seq<real>) {
    forall i, j :: 0 <= i < j < |s| ==> s[i] <= s[j]
  }

  /** Where a quantile falls, counted from zero, when the last sample has rank `last`. */
  function RankOf(last: real, q: real): real {
    q * last
  }

  function LastRank(s: seq<real>): real
    requires s != []
  {
    (|s| - 1) as real
  }

  /** The point a fraction of the way from one sample to the next. */
  function Between(a: real, b: real, fraction: real): real {
    a + (b - a) * fraction
  }

  /** The rank of a quantile falls between two samples; read the line between them. */
  function Percentile(s: seq<real>, q: real): real
    requires 0.0 <= q <= 1.0
  {
    if s == [] then 0.0
    else if |s| == 1 then s[0]
    else
      RanksRise(LastRank(s), q, q);
      var rank := RankOf(LastRank(s), q);
      var lo := rank.Floor;
      var hi := if rank == lo as real then lo else lo + 1;
      if lo == hi then s[lo] else Between(s[lo], s[hi], rank - lo as real)
  }

  /** Fractions of a length, in order. */
  lemma Fractions(length: real, x: real, y: real)
    requires 0.0 <= length && 0.0 <= x <= y <= 1.0
    ensures 0.0 <= length * x <= length * y <= length
  {
  }

  lemma RanksRise(last: real, p: real, q: real)
    requires 0.0 <= last && 0.0 <= p <= q <= 1.0
    ensures 0.0 <= RankOf(last, p) <= RankOf(last, q) <= last
  {
  }

  lemma BetweenRises(a: real, b: real, x: real, y: real)
    requires a <= b && 0.0 <= x <= y <= 1.0
    ensures a <= Between(a, b, x) <= Between(a, b, y) <= b
  {
    Fractions(b - a, x, y);
  }

  /** The value on the line through sample `lo`. */
  function Line(s: seq<real>, lo: nat, rank: real): real
    requires lo < |s|
  {
    if lo + 1 == |s| then s[lo] else Between(s[lo], s[lo + 1], rank - lo as real)
  }

  lemma PercentileOnLine(s: seq<real>, q: real)
    requires |s| >= 2 && 0.0 <= q <= 1.0
    ensures var rank := RankOf(LastRank(s), q);
            0 <= rank.Floor < |s| && Percentile(s, q) == Line(s, rank.Floor, rank)
  {
    RanksRise(LastRank(s), q, q);
    assert forall a, b {:trigger Between(a, b, 0.0)} :: Between(a, b, 0.0) == a;
  }

  /** On one line, later ranks read no less, and the reading stays between its two samples. */
  lemma LineRises(s: seq<real>, lo: nat, a: real, b: real)
    requires Sorted(s) && lo + 1 < |s| && lo as real <= a <= b <= lo as real + 1.0
    ensures s[lo] <= Line(s, lo, a) <= Line(s, lo, b) <= s[lo + 1]
  {
    BetweenRises(s[lo], s[lo + 1], a - lo as real, b - lo as real);
  }

  lemma FloorBetween(x: real)
    ensures x.Floor as real <= x < x.Floor as real + 1.0
  {
  }

  /** The reading at a rank lies between the samples around it. */
  lemma ReadingBetween(s: seq<real>, rank: real)
    requires Sorted(s) && |s| >= 2 && 0.0 <= rank <= LastRank(s)
    ensures var lo := rank.Floor;
            && 0 <= lo < |s| && s[lo] <= Line(s, lo, rank)
            && (lo + 1 < |s| ==> Line(s, lo, rank) <= s[lo + 1])
            && (lo + 1 == |s| ==> Line(s, lo, rank) == s[lo])
  {
    FloorBetween(rank);
    var lo := rank.Floor;
    if lo + 1 < |s| { LineRises(s, lo, rank, rank); }
  }

  lemma ReadingRises(s: seq<real>, a: real, b: real)
    requires Sorted(s) && |s| >= 2 && 0.0 <= a <= b <= LastRank(s)
    ensures 0 <= a.Floor < |s| && 0 <= b.Floor < |s| && Line(s, a.Floor, a) <= Line(s, b.Floor, b)
  {
    FloorBetween(a);
    FloorBetween(b);
    ReadingBetween(s, a);
    ReadingBetween(s, b);
    var i, j := a.Floor, b.Floor;
    if i == j {
      if i + 1 < |s| { LineRises(s, i, a, b); }
    } else {
      assert i < j;
      assert s[i + 1] <= s[j];
    }
  }

  /** Between two neighbouring ranks the percentile runs straight from one sample to the next. */
  lemma PercentileInterpolates(s: seq<real>, q: real, i: nat, f: real)
    requires 0.0 <= q <= 1.0 && i + 1 < |s| && 0.0 <= f <= 1.0 && q * (|s| - 1) as real == i as real + f
    ensures Percentile(s, q) == s[i] + (s[i + 1] - s[i]) * f
  {
    PercentileOnLine(s, q);
    var rank := RankOf(LastRank(s), q);
    FloorBetween(rank);
    if f < 1.0 {
      assert rank.Floor == i;
    } else {
      assert rank.Floor == i + 1;
      assert Between(s[i], s[i + 1], 1.0) == s[i + 1];
    }
  }

  /** For sorted samples the percentile never falls as the quantile rises. */
  lemma PercentileMonotone(s: seq<real>, p: real, q: real)
    requires Sorted(s) && 0.0 <= p <= q <= 1.0
    ensures Percentile(s, p) <= Percentile(s, q)
  {
    if |s| >= 2 {
      PercentileOnLine(s, p);
      PercentileOnLine(s, q);
      RanksRise(LastRank(s), p, q);
      ReadingRises(s, RankOf(LastRank(s), p), RankOf(LastRank(s), q));
    }
  }

  /** The extremes are the smallest and the largest sample, and every percentile lies between them. */
  lemma PercentileBounded(s: seq<real>, q: real)
    requires Sorted(s) && s != [] && 0.0 <= q <= 1.0
    ensures Percentile(s, 0.0) == s[0] && Percentile(s, 1.0) == s[|s| - 1]
    ensures s[0] <= Percentile(s, q) <= s[|s| - 1]
  {
    PercentileMonotone(s, 0.0, q);
    PercentileMonotone(s, q, 1.0);
    assert RankOf(LastRank(s), 1.0) == LastRank(s) && LastRank(s).Floor == |s| - 1;
    assert RankOf(LastRank(s), 0.0) == 0.0;
  }

  // ----- the summary ----------------------------------------------------

  function InsertSorted(x: real, s: seq<real>): seq<real> {
    if s == [] || x <= s[0] then [x] + s else [s[0]] + InsertSorted(x, s[1..])
  }

  lemma {:induction false} InsertSortedKeeps(x: real, s: seq<real>)
    ensures multiset(InsertSorted(x, s)) == multiset(s) + multiset{x}
  {
    if s != [] && x > s[0] {
      InsertSortedKeeps(x, s[1..]);
      assert s == [s[0]] + s[1..];
    }
  }

  lemma {:induction false} InsertSortedSorts(x: real, s: seq<real>)
    requires Sorted(s)
    ensures Sorted(InsertSorted(x, s))
    ensures InsertSorted(x, s)[0] == if s != [] && x > s[0] then s[0] else x
  {
    if s != [] && x > s[0] {
      InsertSortedSorts(x, s[1..]);
      SortedCons(s[0], InsertSorted(x, s[1..]));
    }
  }

  lemma SortedCons(x: real, s: seq<real>)
    requires Sorted(s) && (s == [] || x <= s[0])
    ensures Sorted([x] + s)
  {
  }

  datatype Summary = Summary(p50: real, p95: real, p99: real, samples: nat, pass: bool)

  /** The samples in order, whatever order they came in. */
  method SortSamples(samples: seq<real>) returns (sorted: seq<real>)
    ensures Sorted(sorted) && multiset(sorted) == multiset(samples)
  {
    sorted := [];
    for i := 0 to |samples|
      invariant Sorted(sorted) && multiset(sorted) == multiset(samples[..i])
    {
      assert samples[..i + 1] == samples[..i] + [samples[i]];
      InsertSortedKeeps(samples[i], sorted);
      InsertSortedSorts(samples[i], sorted);
      sorted := InsertSorted(samples[i], sorted);
    }
    assert samples[..|samples|] == samples;
  }

  const P95_TOLERANCE := 1.1

  ghost predicate Within(samples: seq<real>, lo: real, hi: real) {
    forall x :: x in samples ==> lo <= x <= hi
  }

  /** The three percentiles come out ordered and within the range of the samples. */
  method PercentileSummary(samples: seq<real>, target: real) returns (r: Summary)
    ensures r.p50 <= r.p95 <= r.p99 && r.samples == |samples|
    ensures r.pass <==> r.p95 <= target * 1.1
    ensures samples == [] ==> r.p99 == 0.0
    ensures forall lo, hi :: samples != [] && Within(samples, lo, hi) ==> lo <= r.p50 && r.p99 <= hi
    ensures forall sorted :: Sorted(sorted) && multiset(sorted) == multiset(samples) ==>
              && r.p50 == Percentile(sorted, 0.50) && r.p95 == Percentile(sorted, 0.95)
              && r.p99 == Percentile(sorted, 0.99)
  {
    var sorted := SortSamples(samples);
    assert |sorted| == |multiset(sorted)| == |samples|;
    PercentileMonotone(sorted, 0.50, 0.95);
    PercentileMonotone(sorted, 0.95, 0.99);
    r := Summary(Percentile(sorted, 0.50), Percentile(sorted, 0.95), Percentile(sorted, 0.99), |sorted|,
                 Percentile(sorted, 0.95) <= target * P95_TOLERANCE);
    if samples != [] {
      PercentileBounded(sorted, 0.50);
      PercentileBounded(sorted, 0.99);
      assert sorted[0] in multiset(sorted) && sorted[|sorted| - 1] in multiset(sorted);
      assert sorted[0] in samples && sorted[|sorted| - 1] in samples;
    }
    forall other | Sorted(other) && multiset(other) == multiset(samples) ensures other == sorted {
      SortedUnique(other, sorted);
    }
  }

  /** A multiset has one sorted order. */
  lemma {:induction false} SortedUnique(a: seq<real>, b: seq<real>)
    requires Sorted(a) && Sorted(b) && multiset(a) == multiset(b)
    ensures a == b
    decreases |a|
  {
    assert |a| == |multiset(a)| && |b| == |multiset(b)|;
    if a != [] {
      HeadIsLeast(a, b);
      HeadIsLeast(b, a);
      assert a == [a[0]] + a[1..] && b == [b[0]] + b[1..];
      assert multiset(a[1..]) == multiset(a) - multiset{a[0]};
      assert multiset(b[1..]) == multiset(b) - multiset{b[0]};
      SortedUnique(a[1..], b[1..]);
    }
  }

  lemma HeadIsLeast(a: seq<real>, b: seq<real>)
    requires Sorted(a) && a != [] && b != [] && multiset(a) == multiset(b)
    ensures a[0] <= b[0]
  {
    assert b[0] in multiset(a);
    var i :| 0 <= i < |a| && a[i] == b[0];
  }
}
