/** Embedding arithmetic over exact reals: dot products, the cosine bound, the index distance. */
module Vectors {

  type Vector = seq<real>

  /** The products of paired components, summed; the longer vector's rest is ignored. */
  function Dot(a: Vector, b: Vector): real {
    if a == [] || b == [] then 0.0 else a[0] * b[0] + Dot(a[1..], b[1..])
  }

  function NormSquared(a: Vector): real {
    Dot(a, a)
  }

  /** The dot product is that of the components, added up over the dimensions. */
  lemma {:induction false} DotAdds(a: Vector, b: Vector, x: real, y: real)
    requires |a| == |b|
    ensures Dot([], []) == 0.0
    ensures Dot(a + [x], b + [y]) == Dot(a, b) + x * y
  {
    if a == [] {
      assert a + [x] == [x] && b + [y] == [y] && [x][1..] == [] && [y][1..] == [];
    } else {
      assert (a + [x])[1..] == a[1..] + [x] && (b + [y])[1..] == b[1..] + [y];
      DotAdds(a[1..], b[1..], x, y);
    }
  }

  /** Cosine distance for unit vectors. */
  function Distance(a: Vector, b: Vector): real {
    1.0 - Dot(a, b)
  }

  /**
   Similarity with the norms handed in: each must be the non-negative square
   root of its vector's squared norm.
   */
  function CosineSimilarity(a: Vector, b: Vector, normA: real, normB: real): real {
    if |a| != |b| || normA * normB < 0.000000000001 then 0.0
    else Dot(a, b) / (normA * normB)
  }

  ghost predicate IsNorm(n: real, a: Vector) {
    n >= 0.0 && n * n == NormSquared(a)
  }

  lemma SquareNonNegative(x: real)
    ensures x * x >= 0.0
  {
  }

  lemma {:induction false} NormNonNegative(a: Vector)
    ensures NormSquared(a) >= 0.0
  {
    if a != [] {
      SquareNonNegative(a[0]);
      NormNonNegative(a[1..]);
    }
  }

  lemma {:induction false} DotSymmetric(a: Vector, b: Vector)
    ensures Dot(a, b) == Dot(b, a)
  {
    if a != [] && b != [] { DotSymmetric(a[1..], b[1..]); }
  }

  lemma ProductMonotone(x: real, y: real, z: real)
    requires x <= y && 0.0 <= z
    ensures x * z <= y * z
  {
  }

  /** For non-negative bounds, a smaller square means a smaller magnitude. */
  lemma SquareOrder(x: real, y: real)
    requires x * x <= y * y && 0.0 <= y
    ensures -y <= x <= y
  {
    if x > y { SquareGrows(y, x); }
    if -x > y { SquareGrows(y, -x); }
  }

  lemma Positive(u: real, v: real)
    requires u > 0.0 && v > 0.0
    ensures u * v > 0.0
  {
  }

  lemma SquareGrows(y: real, x: real)
    requires 0.0 <= y < x
    ensures y * y < x * x
  {
    assert x * x - y * y == (x - y) * (x + y);
    Positive(x - y, x + y);
  }

  /** The cross term of two dimensions: `2 d x y <= p y y + q x x` whenever `d d <= p q`. */
  lemma CrossTerm(d: real, x: real, y: real, p: real, q: real)
    requires p >= 0.0 && q >= 0.0 && d * d <= p * q
    ensures 2.0 * (d * (x * y)) <= p * (y * y) + q * (x * x)
  {
    var u, v := p * (y * y), q * (x * x);
    SquareNonNegative(x);
    SquareNonNegative(y);
    assert u >= 0.0 && v >= 0.0;
    var c := 2.0 * (d * (x * y));
    var xy := x * y;
    SquareNonNegative(xy);
    assert c * c == 4.0 * ((d * d) * (xy * xy)) by { Rearrange(d, xy); }
    ProductMonotone(d * d, p * q, xy * xy);
    assert (p * q) * (xy * xy) == u * v by { Regroup(p, q, x, y); }
    AmGm(u, v);
    SquareOrder(c, u + v);
  }

  lemma Rearrange(d: real, z: real)
    ensures (2.0 * (d * z)) * (2.0 * (d * z)) == 4.0 * ((d * d) * (z * z))
  {
  }

  lemma Regroup(p: real, q: real, x: real, y: real)
    ensures (p * q) * ((x * y) * (x * y)) == (p * (y * y)) * (q * (x * x))
  {
  }

  lemma AmGm(u: real, v: real)
    ensures 4.0 * (u * v) <= (u + v) * (u + v)
  {
  }

  /** Cauchy-Schwarz, in every dimension. */
  lemma {:induction false} CauchySchwarz(a: Vector, b: Vector)
    requires |a| == |b|
    ensures Dot(a, b) * Dot(a, b) <= NormSquared(a) * NormSquared(b)
  {
    if a != [] {
      CauchySchwarz(a[1..], b[1..]);
      var d, p, q := Dot(a[1..], b[1..]), NormSquared(a[1..]), NormSquared(b[1..]);
      NormNonNegative(a[1..]);
      NormNonNegative(b[1..]);
      CrossTerm(d, a[0], b[0], p, q);
      ExpandStep(a[0], b[0], d, p, q);
    }
  }

  lemma ExpandStep(x: real, y: real, d: real, p: real, q: real)
    requires d * d <= p * q && 2.0 * (d * (x * y)) <= p * (y * y) + q * (x * x)
    ensures (x * y + d) * (x * y + d) <= (x * x + p) * (y * y + q)
  {
  }

  /** Cosine similarity lies in [-1, 1], for any vectors, also of different dimensions. */
  lemma CosineBounded(a: Vector, b: Vector, normA: real, normB: real)
    requires IsNorm(normA, a) && IsNorm(normB, b)
    ensures -1.0 <= CosineSimilarity(a, b, normA, normB) <= 1.0
  {
    var n := normA * normB;
    if |a| == |b| && n >= 0.000000000001 {
      var d := Dot(a, b);
      CauchySchwarz(a, b);
      assert n * n == (normA * normA) * (normB * normB);
      SquareOrder(d, n);
      QuotientBounded(d, n);
    }
  }

  /** Off the two degenerate branches the similarity is the dot product over the norms. */
  lemma CosineTimesNorms(a: Vector, b: Vector, normA: real, normB: real)
    requires IsNorm(normA, a) && IsNorm(normB, b)
    ensures var c := CosineSimilarity(a, b, normA, normB);
            if |a| == |b| && normA * normB >= 0.000000000001 then c * (normA * normB) == Dot(a, b) else c == 0.0
  {
  }

  lemma QuotientBounded(d: real, n: real)
    requires 0.0 < n && -n <= d <= n
    ensures -1.0 <= d / n <= 1.0
  {
  }

  /** Between unit vectors the index distance lies in [0, 2] and is one minus the cosine. */
  lemma UnitDistance(a: Vector, b: Vector)
    requires |a| == |b| && NormSquared(a) == 1.0 && NormSquared(b) == 1.0
    ensures 0.0 <= Distance(a, b) <= 2.0
    ensures CosineSimilarity(a, b, 1.0, 1.0) == 1.0 - Distance(a, b)
    ensures Distance(a, b) == Distance(b, a)
  {
    CauchySchwarz(a, b);
    SquareOrder(Dot(a, b), 1.0);
    DotSymmetric(a, b);
  }

  /** So nearest first by distance is most similar first by cosine. */
  lemma DistanceRanksLikeCosine(query: Vector, a: Vector, b: Vector)
    requires |query| == |a| == |b|
    requires NormSquared(query) == 1.0 && NormSquared(a) == 1.0 && NormSquared(b) == 1.0
    ensures Distance(query, a) <= Distance(query, b) <==>
            CosineSimilarity(query, a, 1.0, 1.0) >= CosineSimilarity(query, b, 1.0, 1.0)
  {
  }
}
