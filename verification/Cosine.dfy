/**
 * Cosine similarity of two embeddings (src/embeddingPipeline.ts), over exact numbers. The square
 * roots are inputs: na and nb stand for Math.sqrt of the two sums of squares.
 */
module Cosine {
  import opened RealArithmetic

  type Vector = seq<real>

  /** What the loop accumulates: a.b, a.a and b.b. */
  datatype Sums = Sums(dot: real, aa: real, bb: real)

  function AddTerm(m: Sums, p: real, q: real): Sums {
    Sums(m.dot + p * q, m.aa + p * p, m.bb + q * q)
  }

  function SumsOf(a: Vector, b: Vector): Sums
    requires |a| == |b|
  {
    if a == [] then Sums(0.0, 0.0, 0.0)
    else AddTerm(SumsOf(a[..|a| - 1], b[..|b| - 1]), a[|a| - 1], b[|b| - 1])
  }

  predicate AreNorms(m: Sums, na: real, nb: real) {
    na >= 0.0 && nb >= 0.0 && na * na == m.aa && nb * nb == m.bb
  }

  /** Scaled to the same length, the vectors are the same. */
  predicate SameDirection(a: Vector, na: real, b: Vector, nb: real)
    requires |a| == |b|
  {
    forall i :: 0 <= i < |a| ==> a[i] * nb == b[i] * na
  }

  /** Cauchy-Schwarz, of the three sums. */
  predicate Schwarz(m: Sums) {
    m.dot * m.dot <= m.aa * m.bb
  }

  // ---------------------------------------------------------------------------------------------
  // The deviation of two scaled vectors, in terms of the three sums
  // ---------------------------------------------------------------------------------------------

  /** The squared distance between a scaled by y and b scaled by x. */
  function Deviation(a: Vector, b: Vector, x: real, y: real): real
    requires |a| == |b|
  {
    if a == [] then 0.0
    else
      var d := a[|a| - 1] * y - b[|b| - 1] * x;
      Deviation(a[..|a| - 1], b[..|b| - 1], x, y) + d * d
  }

  function Expansion(x: real, y: real, m: Sums): real {
    y * y * m.aa - 2.0 * x * y * m.dot + x * x * m.bb
  }

  lemma ProductOfProducts(p: real, y: real, q: real, x: real)
    ensures (p * y) * (q * x) == (x * y) * (p * q)
  {
    assert (p * y) * (q * x) == p * (y * (q * x)) == p * ((x * y) * q) == (x * y) * (p * q);
  }

  lemma OneMoreTerm(p: real, q: real, x: real, y: real, m: Sums, before: real, after: real)
    requires before == Expansion(x, y, m)
    requires var d := p * y - q * x; after == before + d * d
    ensures after == Expansion(x, y, AddTerm(m, p, q))
  {
    var u, v := p * y, q * x;
    assert (u - v) * (u - v) == u * u - 2.0 * (u * v) + v * v;
    ProductOfProducts(p, y, p, y);
    ProductOfProducts(p, y, q, x);
    ProductOfProducts(q, x, q, x);
  }

  lemma DeviationUnfolds(a: Vector, b: Vector, x: real, y: real)
    requires |a| == |b| && a != []
    ensures var n := |a| - 1;
            var d := a[n] * y - b[n] * x;
            Deviation(a, b, x, y) == Deviation(a[..n], b[..n], x, y) + d * d
  {
  }

  lemma {:induction false} DeviationExpanded(a: Vector, b: Vector, x: real, y: real)
    requires |a| == |b|
    ensures Deviation(a, b, x, y) == Expansion(x, y, SumsOf(a, b))
  {
    if a != [] {
      var n := |a| - 1;
      DeviationExpanded(a[..n], b[..n], x, y);
      DeviationUnfolds(a, b, x, y);
      OneMoreTerm(a[n], b[n], x, y, SumsOf(a[..n], b[..n]), Deviation(a[..n], b[..n], x, y), Deviation(a, b, x, y));
    }
  }

  lemma SameDirectionStep(a: Vector, x: real, b: Vector, y: real)
    requires |a| == |b| && a != []
    ensures var n := |a| - 1;
            SameDirection(a, x, b, y) <==> SameDirection(a[..n], x, b[..n], y) && a[n] * y == b[n] * x
  {
    var n := |a| - 1;
    assert forall i :: 0 <= i < n ==> a[..n][i] == a[i] && b[..n][i] == b[i];
  }

  lemma {:induction false} DeviationZero(a: Vector, b: Vector, x: real, y: real)
    requires |a| == |b|
    ensures Deviation(a, b, x, y) >= 0.0
    ensures Deviation(a, b, x, y) == 0.0 <==> SameDirection(a, x, b, y)
  {
    if a != [] {
      var n := |a| - 1;
      DeviationZero(a[..n], b[..n], x, y);
      var d := a[n] * y - b[n] * x;
      AddSquare(Deviation(a[..n], b[..n], x, y), d, d * d);
      SameDirectionStep(a, x, b, y);
    }
  }

  lemma ExpansionSign(a: Vector, b: Vector, x: real, y: real, m: Sums)
    requires |a| == |b| && m == SumsOf(a, b)
    ensures Expansion(x, y, m) >= 0.0
    ensures Expansion(x, y, m) == 0.0 <==> SameDirection(a, x, b, y)
  {
    DeviationExpanded(a, b, x, y);
    DeviationZero(a, b, x, y);
  }

  // ---------------------------------------------------------------------------------------------
  // Cauchy-Schwarz
  // ---------------------------------------------------------------------------------------------

  lemma {:induction false} SumsOfZero(a: Vector, b: Vector)
    requires |a| == |b|
    ensures SumsOf(a, b).aa >= 0.0
    ensures SumsOf(a, b).aa == 0.0 ==> SumsOf(a, b).dot == 0.0
  {
    if a != [] {
      var n := |a| - 1;
      SumsOfZero(a[..n], b[..n]);
      AddSquare(SumsOf(a[..n], b[..n]).aa, a[n], a[n] * a[n]);
    }
  }

  lemma SchwarzFromExpansion(m: Sums)
    requires m.aa > 0.0 && Expansion(m.aa, m.dot, m) >= 0.0
    ensures Schwarz(m)
  {
    var d := m.aa * m.bb - m.dot * m.dot;
    assert Expansion(m.aa, m.dot, m) == d * m.aa;
    ProductSign(d, m.aa);
  }

  /** Holding of all vectors, it holds of the three sums after every iteration. */
  lemma CauchySchwarz(a: Vector, b: Vector)
    requires |a| == |b|
    ensures Schwarz(SumsOf(a, b))
  {
    var m := SumsOf(a, b);
    SumsOfZero(a, b);
    if m.aa > 0.0 {
      ExpansionSign(a, b, m.aa, m.dot, m);
      SchwarzFromExpansion(m);
    }
  }

  // ---------------------------------------------------------------------------------------------
  // The score
  // ---------------------------------------------------------------------------------------------

  lemma ExpansionAtNorms(m: Sums, na: real, nb: real, p: real, minus: real, plus: real)
    requires AreNorms(m, na, nb) && p == na * nb && minus == p - m.dot && plus == p + m.dot
    ensures Expansion(na, nb, m) == 2.0 * (minus * p)
    ensures Expansion(-na, nb, m) == 2.0 * (plus * p)
  {
    assert nb * nb * m.aa == p * p && na * na * m.bb == p * p;
  }

  /** The score r lies between -1 and 1; the bounds mean the same and the opposite direction. */
  ghost predicate ScoreFits(r: real, a: Vector, na: real, b: Vector, nb: real)
    requires |a| == |b|
  {
    && -1.0 <= r <= 1.0
    && (r == 1.0 <==> SameDirection(a, na, b, nb))
    && (r == -1.0 <==> SameDirection(a, -na, b, nb))
  }

  lemma ScoreFromExpansion(r: real, m: Sums, na: real, nb: real)
    requires AreNorms(m, na, nb) && na * nb > 0.0 && r * (na * nb) == m.dot
    requires Expansion(na, nb, m) >= 0.0 && Expansion(-na, nb, m) >= 0.0
    ensures -1.0 <= r <= 1.0
    ensures r == 1.0 <==> Expansion(na, nb, m) == 0.0
    ensures r == -1.0 <==> Expansion(-na, nb, m) == 0.0
  {
    var p := na * nb;
    var minus, plus := p - m.dot, p + m.dot;
    ExpansionAtNorms(m, na, nb, p, minus, plus);
    ProductSign(minus, p);
    ProductSign(plus, p);
    ScoreFromDot(r, m.dot, p);
  }

  lemma ScoreFromDot(r: real, t: real, p: real)
    requires p > 0.0 && r * p == t && -p <= t <= p
    ensures -1.0 <= r <= 1.0
    ensures r == 1.0 <==> p - t == 0.0
    ensures r == -1.0 <==> p + t == 0.0
  {
    var u, v := 1.0 - r, 1.0 + r;
    assert u * p == p - t;
    assert v * p == p + t;
    ProductSign(u, p);
    ProductSign(v, p);
  }

  lemma ScoreBounds(a: Vector, na: real, b: Vector, nb: real, r: real, m: Sums)
    requires |a| == |b| && m == SumsOf(a, b)
    requires AreNorms(m, na, nb) && na * nb > 0.0 && r * (na * nb) == m.dot
    ensures ScoreFits(r, a, na, b, nb)
  {
    ExpansionSign(a, b, na, nb, m);
    ExpansionSign(a, b, -na, nb, m);
    ScoreFromExpansion(r, m, na, nb);
  }

  method CosineSimilarity(a: Vector, b: Vector, na: real, nb: real) returns (r: real)
    requires |a| == |b| ==> AreNorms(SumsOf(a, b), na, nb)
    ensures |a| != |b| || a == [] ==> r == 0.0
    ensures |a| == |b| && na * nb == 0.0 ==> r == 0.0
    ensures |a| == |b| && na * nb != 0.0 ==> r * (na * nb) == SumsOf(a, b).dot && ScoreFits(r, a, na, b, nb)
  {
    if |a| != |b| || |a| == 0 {
      SquareSign(na, na, na * na);
      return 0.0;
    }
    var m := Sums(0.0, 0.0, 0.0);
    for i := 0 to |a|
      invariant m == SumsOf(a[..i], b[..i])
    {
      assert a[..i + 1][..i] == a[..i] && b[..i + 1][..i] == b[..i];
      m := AddTerm(m, a[i], b[i]);
    }
    assert a[..|a|] == a && b[..|b|] == b;
    var denom := na * nb;
    assert denom >= 0.0;
    if denom > 0.0 {
      r := m.dot / denom;
      assert r * denom == m.dot;
      ScoreBounds(a, na, b, nb, r, m);
    } else {
      r := 0.0;
    }
  }
}
