/**
 * What the Dirichlet energy says (src/propagationEngine.ts, src/sgrsAdapter.ts): it vanishes exactly
 * on agreement, and on the complete graph it is the disagreement times the number of roles.
 */
module EnergyIdentity {
  import opened Propagation
  import opened RealArithmetic
  import Evidence

  // ---------------------------------------------------------------------------------------------
  // One column on the complete graph
  // ---------------------------------------------------------------------------------------------

  function Squares(y: seq<real>): real {
    if y == [] then 0.0 else y[0] * y[0] + Squares(y[1..])
  }

  /** The energy of one column. */
  function ColumnEnergy(edges: seq<nat>, y: seq<real>): real {
    if |edges| < 2 then 0.0
    else
      var d := Evidence.EntryAt(y, edges[0]) - Evidence.EntryAt(y, edges[1]);
      d * d + ColumnEnergy(edges[2..], y)
  }

  lemma {:induction false} ColumnEnergyAppend(a: seq<nat>, b: seq<nat>, y: seq<real>)
    requires |a| % 2 == 0
    ensures ColumnEnergy(a + b, y) == ColumnEnergy(a, y) + ColumnEnergy(b, y)
  {
    if a == [] {
      assert a + b == b;
    } else {
      assert (a + b)[2..] == a[2..] + b;
      ColumnEnergyAppend(a[2..], b, y);
    }
  }

  /** k numbers with total t and sum of squares s. */
  datatype Moments = Moments(k: real, t: real, s: real)

  function MomentsOf(y: seq<real>): Moments {
    Moments(|y| as real, Total(y), Squares(y))
  }

  function AddEntry(p: real, m: Moments): Moments {
    Moments(m.k + 1.0, p + m.t, p * p + m.s)
  }

  /** The squared differences of p from each of the numbers sum to e. */
  predicate IsRowEnergy(e: real, p: real, m: Moments) {
    e == m.k * (p * p) - 2.0 * (p * m.t) + m.s
  }

  /** The squared differences of all pairs of the numbers sum to e. */
  predicate IsPairEnergy(e: real, m: Moments) {
    e == m.k * m.s - m.t * m.t
  }

  lemma RowEnergyStep(e: real, p: real, q: real, m: Moments)
    requires IsRowEnergy(e, p, m)
    ensures IsRowEnergy((q - p) * (q - p) + e, p, AddEntry(q, m))
  {
    assert (q - p) * (q - p) == q * q - 2.0 * (p * q) + p * p;
  }

  lemma PairEnergyStep(row: real, e: real, p: real, m: Moments)
    requires IsRowEnergy(row, p, m) && IsPairEnergy(e, m)
    ensures IsPairEnergy(row + e, AddEntry(p, m))
  {
    assert (p + m.t) * (p + m.t) == p * p + 2.0 * (p * m.t) + m.t * m.t;
    assert (m.k + 1.0) * (p * p + m.s) == m.k * (p * p) + m.k * m.s + p * p + m.s;
  }

  lemma MomentsOfFirst(y: seq<real>, i: nat)
    requires i < |y|
    ensures MomentsOf(y[i..]) == AddEntry(y[i], MomentsOf(y[i + 1..]))
  {
    assert y[i..][1..] == y[i + 1..];
  }

  lemma RowUnfolds(y: seq<real>, i: nat, j: nat)
    requires i < j < |y|
    ensures ColumnEnergy(Row(i, j, |y|), y)
            == (y[i] - y[j]) * (y[i] - y[j]) + ColumnEnergy(Row(i, j + 1, |y|), y)
  {
    assert Row(i, j, |y|)[2..] == Row(i, j + 1, |y|);
  }

  lemma EmptyRowEnergy(p: real)
    ensures IsRowEnergy(0.0, p, MomentsOf([]))
  {
  }

  /** One role, whose entry is p, against all later ones. */
  lemma {:induction false} RowEnergy(y: seq<real>, i: nat, j: nat, p: real)
    requires i < j <= |y| && p == y[i]
    ensures IsRowEnergy(ColumnEnergy(Row(i, j, |y|), y), p, MomentsOf(y[j..]))
    decreases |y| - j
  {
    if j < |y| {
      var m := MomentsOf(y[j + 1..]);
      var later := ColumnEnergy(Row(i, j + 1, |y|), y);
      RowEnergy(y, i, j + 1, p);
      RowUnfolds(y, i, j);
      MomentsOfFirst(y, j);
      NextRowEnergy(ColumnEnergy(Row(i, j, |y|), y), later, p, y[j], m);
    } else {
      assert y[j..] == [];
      EmptyRowEnergy(p);
    }
  }

  lemma NextRowEnergy(e: real, later: real, p: real, q: real, m: Moments)
    requires e == (p - q) * (p - q) + later && IsRowEnergy(later, p, m)
    ensures IsRowEnergy(e, p, AddEntry(q, m))
  {
    RowEnergyStep(later, p, q, m);
    SquareEitherWay(p, q);
  }

  lemma SquareEitherWay(p: real, q: real)
    ensures (p - q) * (p - q) == (q - p) * (q - p)
  {
  }

  lemma {:induction false} RowsEnergy(y: seq<real>, i: nat)
    requires i <= |y|
    ensures IsPairEnergy(ColumnEnergy(Rows(i, |y|), y), MomentsOf(y[i..]))
    decreases |y| - i
  {
    if i < |y| {
      RowsEnergy(y, i + 1);
      RowEdges(i, i + 1, |y|, 0, 0, 0);
      ColumnEnergyAppend(Row(i, i + 1, |y|), Rows(i + 1, |y|), y);
      RowEnergy(y, i, i + 1, y[i]);
      PairEnergyStep(ColumnEnergy(Row(i, i + 1, |y|), y), ColumnEnergy(Rows(i + 1, |y|), y), y[i],
                     MomentsOf(y[i + 1..]));
      MomentsOfFirst(y, i);
    }
  }

  /** The squared distances from m. */
  function Spread(y: seq<real>, m: real): real {
    if y == [] then 0.0 else (y[0] - m) * (y[0] - m) + Spread(y[1..], m)
  }

  lemma {:induction false} SpreadIsRowEnergy(y: seq<real>, m: real)
    ensures IsRowEnergy(Spread(y, m), m, MomentsOf(y))
  {
    if y != [] {
      SpreadIsRowEnergy(y[1..], m);
      RowEnergyStep(Spread(y[1..], m), m, y[0], MomentsOf(y[1..]));
      MomentsOfFirst(y, 0);
      assert y[0..] == y;
    }
  }

  /** e is k times d. */
  predicate IsMultiple(e: real, k: real, d: real) {
    e == k * d
  }

  lemma PairEnergyAtMean(e: real, spread: real, mean: real, m: Moments)
    requires IsPairEnergy(e, m) && IsRowEnergy(spread, mean, m) && IsMultiple(m.t, m.k, mean)
    ensures IsMultiple(e, m.k, spread)
  {
    assert m.k * (mean * m.t) == m.t * m.t;
    assert m.k * (m.k * (mean * mean)) == (m.k * mean) * (m.k * mean);
  }

  lemma MeanTimesCount(y: seq<real>)
    ensures IsMultiple(Total(y), |y| as real, Mean(y))
  {
  }

  /** Lagrange: the pairwise squared differences sum to the number of entries times the spread. */
  lemma ColumnIdentity(y: seq<real>)
    ensures IsMultiple(ColumnEnergy(Rows(0, |y|), y), |y| as real, Spread(y, Mean(y)))
  {
    assert y[0..] == y;
    RowsEnergy(y, 0);
    SpreadIsRowEnergy(y, Mean(y));
    MeanTimesCount(y);
    PairEnergyAtMean(ColumnEnergy(Rows(0, |y|), y), Spread(y, Mean(y)), Mean(y), MomentsOf(y));
  }

  // ---------------------------------------------------------------------------------------------
  // All columns
  // ---------------------------------------------------------------------------------------------

  predicate InRange(edges: seq<nat>, n: nat) {
    forall k :: 0 <= k < |edges| ==> edges[k] < n
  }

  /** Every role observes every dimension. */
  predicate AllObserved(observed: seq<set<nat>>, n: nat, numRoles: nat) {
    forall u: nat, d: nat :: u < numRoles && d < n ==> Observes(observed, u, d)
  }

  lemma {:induction false} RowInRange(i: nat, j: nat, n: nat)
    requires i < n
    ensures InRange(Row(i, j, n), n)
    decreases n - j
  {
    if j < n {
      RowInRange(i, j + 1, n);
    }
  }

  lemma {:induction false} RowsInRange(i: nat, n: nat)
    ensures InRange(Rows(i, n), n)
    decreases n - i
  {
    if i < n {
      RowInRange(i, i + 1, n);
      RowsInRange(i + 1, n);
    }
  }

  function Difference(y: seq<real>, a: nat, b: nat): real {
    Evidence.EntryAt(y, a) - Evidence.EntryAt(y, b)
  }

  lemma FirstEdge(edges: seq<nat>, y: seq<real>)
    requires |edges| >= 2
    ensures ColumnEnergy(edges, y) == Squared(Difference(y, edges[0], edges[1])) + ColumnEnergy(edges[2..], y)
  {
  }

  lemma GapIsDifference(x: seq<real>, n: nat, observed: seq<set<nat>>, numRoles: nat, u: nat, v: nat, c: nat)
    requires AllObserved(observed, n, numRoles) && u < numRoles && v < numRoles && c < 2 * n
    ensures Gap(x, n, observed, u, v, c) == Difference(Column(x, n, numRoles, c), u, v)
  {
    var d := if c < n then c else c - n;
    assert Observes(observed, u, d) && Observes(observed, v, d);
  }

  lemma EdgeUnfolds(x: seq<real>, n: nat, observed: seq<set<nat>>, u: nat, v: nat, c: nat)
    requires c < 2 * n
    ensures EdgeEnergy(x, n, observed, u, v, c)
            == Squared(Gap(x, n, observed, u, v, c)) + EdgeEnergy(x, n, observed, u, v, c + 1)
  {
  }

  lemma FirstEdgeUnfolds(x: seq<real>, n: nat, observed: seq<set<nat>>, edges: seq<nat>, c: nat)
    requires |edges| >= 2
    ensures EnergyFrom(x, n, observed, edges, c)
            == EdgeEnergy(x, n, observed, edges[0], edges[1], c) + EnergyFrom(x, n, observed, edges[2..], c)
  {
  }

  /** e is the sum of the energy of one column and that of the later ones. */
  predicate IsSum(e: real, column: real, later: real) {
    e == column + later
  }

  /** The first edge, or role, adds its energy in this column to the one and in the later columns to the other. */
  lemma AddEdge(e: real, edge: real, rest: real, column: real, square: real, columnRest: real, later: real,
                edgeLater: real, restLater: real)
    requires e == edge + rest && edge == square + edgeLater && IsSum(rest, columnRest, restLater)
    requires column == square + columnRest && later == edgeLater + restLater
    ensures IsSum(e, column, later)
  {
  }

  lemma {:induction false} SplitColumn(x: seq<real>, n: nat, observed: seq<set<nat>>, numRoles: nat, edges: seq<nat>,
                                       c: nat)
    requires AllObserved(observed, n, numRoles) && InRange(edges, numRoles) && c < 2 * n
    ensures IsSum(EnergyFrom(x, n, observed, edges, c), ColumnEnergy(edges, Column(x, n, numRoles, c)),
                  EnergyFrom(x, n, observed, edges, c + 1))
  {
    if |edges| >= 2 {
      var y, u, v := Column(x, n, numRoles, c), edges[0], edges[1];
      FirstEdge(edges, y);
      FirstEdgeUnfolds(x, n, observed, edges, c);
      FirstEdgeUnfolds(x, n, observed, edges, c + 1);
      EdgeUnfolds(x, n, observed, u, v, c);
      GapIsDifference(x, n, observed, numRoles, u, v, c);
      SplitColumn(x, n, observed, numRoles, edges[2..], c);
      AddEdge(EnergyFrom(x, n, observed, edges, c), EdgeEnergy(x, n, observed, u, v, c),
              EnergyFrom(x, n, observed, edges[2..], c), ColumnEnergy(edges, y), Squared(Difference(y, u, v)),
              ColumnEnergy(edges[2..], y), EnergyFrom(x, n, observed, edges, c + 1),
              EdgeEnergy(x, n, observed, u, v, c + 1), EnergyFrom(x, n, observed, edges[2..], c + 1));
    }
  }

  lemma {:induction false} NoColumnsLeft(x: seq<real>, n: nat, observed: seq<set<nat>>, edges: seq<nat>)
    ensures EnergyFrom(x, n, observed, edges, 2 * n) == 0.0
  {
    if |edges| >= 2 {
      NoColumnsLeft(x, n, observed, edges[2..]);
    }
  }

  lemma RoleUnfolds(x: seq<real>, n: nat, numRoles: nat, i: nat, c: nat)
    requires i < numRoles && c < 2 * n
    ensures var y := Column(x, n, numRoles, c);
            RoleDeviation(x, n, numRoles, i, c) == Squared(y[i] - Mean(y)) + RoleDeviation(x, n, numRoles, i, c + 1)
  {
  }

  lemma FirstRoleUnfolds(x: seq<real>, n: nat, numRoles: nat, i: nat, c: nat)
    requires i < numRoles
    ensures DeviationFrom(x, n, numRoles, i, c)
            == RoleDeviation(x, n, numRoles, i, c) + DeviationFrom(x, n, numRoles, i + 1, c)
  {
  }

  lemma SpreadUnfolds(y: seq<real>, i: nat, m: real)
    requires i < |y|
    ensures Spread(y[i..], m) == Squared(y[i] - m) + Spread(y[i + 1..], m)
  {
    assert y[i..][1..] == y[i + 1..];
  }

  lemma {:induction false} SplitDeviation(x: seq<real>, n: nat, numRoles: nat, i: nat, c: nat)
    requires i <= numRoles && c < 2 * n
    ensures var y := Column(x, n, numRoles, c);
            IsSum(DeviationFrom(x, n, numRoles, i, c), Spread(y[i..], Mean(y)), DeviationFrom(x, n, numRoles, i, c + 1))
    decreases numRoles - i
  {
    var y := Column(x, n, numRoles, c);
    var m := Mean(y);
    if i != numRoles {
      FirstRoleUnfolds(x, n, numRoles, i, c);
      FirstRoleUnfolds(x, n, numRoles, i, c + 1);
      RoleUnfolds(x, n, numRoles, i, c);
      SpreadUnfolds(y, i, m);
      SplitDeviation(x, n, numRoles, i + 1, c);
      AddEdge(DeviationFrom(x, n, numRoles, i, c), RoleDeviation(x, n, numRoles, i, c),
              DeviationFrom(x, n, numRoles, i + 1, c), Spread(y[i..], m), Squared(y[i] - m), Spread(y[i + 1..], m),
              DeviationFrom(x, n, numRoles, i, c + 1), RoleDeviation(x, n, numRoles, i, c + 1),
              DeviationFrom(x, n, numRoles, i + 1, c + 1));
    } else {
      assert y[i..] == [];
    }
  }

  lemma {:induction false} NoDeviationLeft(x: seq<real>, n: nat, numRoles: nat, i: nat)
    ensures DeviationFrom(x, n, numRoles, i, 2 * n) == 0.0
    decreases numRoles - i
  {
    if i < numRoles {
      NoDeviationLeft(x, n, numRoles, i + 1);
    }
  }

  lemma AddMultiples(e: real, d: real, f: real, g: real, k: real)
    requires IsMultiple(e, k, d) && IsMultiple(f, k, g)
    ensures IsMultiple(e + f, k, d + g)
  {
  }

  lemma {:induction false} EnergyFromIsDeviation(x: seq<real>, n: nat, observed: seq<set<nat>>, numRoles: nat, c: nat)
    requires AllObserved(observed, n, numRoles) && c <= 2 * n
    ensures IsMultiple(EnergyFrom(x, n, observed, Rows(0, numRoles), c), numRoles as real,
                       DeviationFrom(x, n, numRoles, 0, c))
    decreases 2 * n - c
  {
    if c == 2 * n {
      NoColumnsLeft(x, n, observed, Rows(0, numRoles));
      NoDeviationLeft(x, n, numRoles, 0);
    } else {
      var y := Column(x, n, numRoles, c);
      RowsInRange(0, numRoles);
      SplitColumn(x, n, observed, numRoles, Rows(0, numRoles), c);
      SplitDeviation(x, n, numRoles, 0, c);
      assert y[0..] == y;
      ColumnIdentity(y);
      EnergyFromIsDeviation(x, n, observed, numRoles, c + 1);
      AddMultiples(ColumnEnergy(Rows(0, numRoles), y), Spread(y, Mean(y)),
                   EnergyFrom(x, n, observed, Rows(0, numRoles), c + 1),
                   DeviationFrom(x, n, numRoles, 0, c + 1), numRoles as real);
    }
  }

  /**
   * Where every role observes everything, the energy over the default edges is the disagreement times
   * the number of roles.
   */
  lemma EnergyIsScaledDisagreement(x: seq<real>, n: nat, observed: seq<set<nat>>, numRoles: nat,
                                   names: seq<string>, edges: seq<SheafEdge>)
    requires AllObserved(observed, n, numRoles) && Configured(names, edges) == []
    ensures IsMultiple(DirichletEnergy(x, n, observed, EdgeList(names, edges, numRoles)), numRoles as real,
                       Disagreement(x, n, numRoles))
  {
    EnergyFromIsDeviation(x, n, observed, numRoles, 0);
  }

  // ---------------------------------------------------------------------------------------------
  // Zero energy
  // ---------------------------------------------------------------------------------------------

  /** The two roles agree on what both observe, on the coordinates from c on. */
  predicate Agree(x: seq<real>, n: nat, observed: seq<set<nat>>, u: nat, v: nat, c: nat) {
    forall d: nat :: c <= d < 2 * n && Shared(observed, n, u, v, d) ==> Entry(x, n, u, d) == Entry(x, n, v, d)
  }

  lemma {:induction false} EdgeEnergyZero(x: seq<real>, n: nat, observed: seq<set<nat>>, u: nat, v: nat, c: nat)
    ensures EdgeEnergy(x, n, observed, u, v, c) >= 0.0
    ensures EdgeEnergy(x, n, observed, u, v, c) == 0.0 <==> Agree(x, n, observed, u, v, c)
    decreases 2 * n - c
  {
    if c < 2 * n {
      var gap := Gap(x, n, observed, u, v, c);
      EdgeEnergyZero(x, n, observed, u, v, c + 1);
      AddSquare(EdgeEnergy(x, n, observed, u, v, c + 1), gap, gap * gap);
      assert Agree(x, n, observed, u, v, c) <==> gap == 0.0 && Agree(x, n, observed, u, v, c + 1);
    }
  }

  /** All pairs of the list agree. */
  predicate EdgesAgree(x: seq<real>, n: nat, observed: seq<set<nat>>, edges: seq<nat>) {
    |edges| < 2 || (Agree(x, n, observed, edges[0], edges[1], 0) && EdgesAgree(x, n, observed, edges[2..]))
  }

  lemma {:induction false} EdgesAgreeExactly(x: seq<real>, n: nat, observed: seq<set<nat>>, edges: seq<nat>)
    ensures EdgesAgree(x, n, observed, edges)
            <==> forall k: nat, u: nat, v: nat :: IsEdge(edges, k, u, v) ==> Agree(x, n, observed, u, v, 0)
  {
    if |edges| >= 2 {
      EdgesAgreeExactly(x, n, observed, edges[2..]);
      assert IsEdge(edges, 0, edges[0], edges[1]);
      assert forall k: nat, u: nat, v: nat :: k > 0 ==> (IsEdge(edges, k, u, v) <==> IsEdge(edges[2..], k - 1, u, v));
      assert forall k: nat, u: nat, v: nat :: IsEdge(edges[2..], k, u, v) ==> IsEdge(edges, k + 1, u, v);
    }
  }

  lemma {:induction false} EnergySign(x: seq<real>, n: nat, observed: seq<set<nat>>, edges: seq<nat>)
    ensures DirichletEnergy(x, n, observed, edges) >= 0.0
    ensures DirichletEnergy(x, n, observed, edges) == 0.0 <==> EdgesAgree(x, n, observed, edges)
  {
    if |edges| >= 2 {
      EdgeEnergyZero(x, n, observed, edges[0], edges[1], 0);
      EnergySign(x, n, observed, edges[2..]);
    }
  }

  /**
   * For every edge list and every choice of observed dimensions: zero energy means that joined roles
   * agree on what both observe.
   */
  lemma ZeroEnergyExactly(x: seq<real>, n: nat, observed: seq<set<nat>>, edges: seq<nat>)
    ensures DirichletEnergy(x, n, observed, edges) >= 0.0
    ensures DirichletEnergy(x, n, observed, edges) == 0.0
            <==> forall k: nat, u: nat, v: nat :: IsEdge(edges, k, u, v) ==> Agree(x, n, observed, u, v, 0)
  {
    EnergySign(x, n, observed, edges);
    EdgesAgreeExactly(x, n, observed, edges);
  }

  // ---------------------------------------------------------------------------------------------
  // The identity needs every dimension to be observed
  // ---------------------------------------------------------------------------------------------

  /** The energy over all pairs is the disagreement times the number of roles, for every well-sized state. */
  ghost predicate IdentityHolds(n: nat, observed: seq<set<nat>>, numRoles: nat) {
    forall x: seq<real> :: |x| == numRoles * (2 * n) ==>
      IsMultiple(DirichletEnergy(x, n, observed, Rows(0, numRoles)), numRoles as real, Disagreement(x, n, numRoles))
  }

  /** One at coordinate d of role u, zero elsewhere. */
  function Spike(n: nat, numRoles: nat, u: nat, d: nat): (x: seq<real>)
    ensures |x| == numRoles * (2 * n)
    ensures forall k :: 0 <= k < |x| ==> x[k] == if k == u * (2 * n) + d then 1.0 else 0.0
  {
    seq(numRoles * (2 * n), k => if k == u * (2 * n) + d then 1.0 else 0.0)
  }

  lemma RowsApart(width: nat, i: nat, u: nat)
    ensures i < u ==> i * width + width <= u * width
  {
    if i < u {
      Evidence.ProductsGrow(i + 1, u, width);
      assert (i + 1) * width == i * width + width;
    }
  }

  lemma PositionIsUnique(width: nat, u: nat, d: nat, i: nat, c: nat)
    requires d < width && c < width && i * width + c == u * width + d
    ensures i == u && c == d
  {
    RowsApart(width, i, u);
    RowsApart(width, u, i);
  }

  lemma EntryOfSpike(n: nat, numRoles: nat, u: nat, d: nat, i: nat, c: nat)
    requires u < numRoles && d < 2 * n && i < numRoles && c < 2 * n
    ensures Entry(Spike(n, numRoles, u, d), n, i, c) == if i == u && c == d then 1.0 else 0.0
  {
    RowsApart(2 * n, i, numRoles);
    if i * (2 * n) + c == u * (2 * n) + d {
      PositionIsUnique(2 * n, u, d, i, c);
    }
  }

  /** Nobody shares what role u does not observe, so a spike there costs no energy. */
  lemma HiddenSpikeIsFree(n: nat, observed: seq<set<nat>>, numRoles: nat, u: nat, d: nat)
    requires u < numRoles && d < n && !Observes(observed, u, d)
    ensures DirichletEnergy(Spike(n, numRoles, u, d), n, observed, Rows(0, numRoles)) == 0.0
  {
    var x := Spike(n, numRoles, u, d);
    forall k: nat, i: nat, j: nat | IsEdge(Rows(0, numRoles), k, i, j)
      ensures Agree(x, n, observed, i, j, 0)
    {
      RowsEdges(0, numRoles, k, i, j);
      forall c: nat | c < 2 * n && Shared(observed, n, i, j, c)
        ensures Entry(x, n, i, c) == Entry(x, n, j, c)
      {
        EntryOfSpike(n, numRoles, u, d, i, c);
        EntryOfSpike(n, numRoles, u, d, j, c);
      }
    }
    ZeroEnergyExactly(x, n, observed, Rows(0, numRoles));
  }

  function FirstDims(n: nat): (r: set<nat>)
    ensures forall d: nat :: d in r <==> d < n
  {
    if n == 0 then {} else FirstDims(n - 1) + {n - 1}
  }

  function Everything(n: nat, numRoles: nat): (observed: seq<set<nat>>)
    ensures AllObserved(observed, n, numRoles)
  {
    seq(numRoles, i => FirstDims(n))
  }

  /** But it is a disagreement. */
  lemma SpikeDisagrees(n: nat, numRoles: nat, u: nat, d: nat, v: nat)
    requires u < numRoles && v < numRoles && u != v && d < n
    ensures Disagreement(Spike(n, numRoles, u, d), n, numRoles) != 0.0
  {
    var x := Spike(n, numRoles, u, d);
    var all := Everything(n, numRoles);
    var i, j := if u < v then u else v, if u < v then v else u;
    EntryOfSpike(n, numRoles, u, d, i, d);
    EntryOfSpike(n, numRoles, u, d, j, d);
    assert !Agree(x, n, all, i, j, 0) by {
      assert Shared(all, n, i, j, d);
    }
    CompleteGraphExactly(numRoles, i, j);
    var k: nat :| IsEdge(Rows(0, numRoles), k, i, j);
    ZeroEnergyExactly(x, n, all, Rows(0, numRoles));
    EnergyFromIsDeviation(x, n, all, numRoles, 0);
    NotZeroMultiple(DirichletEnergy(x, n, all, Rows(0, numRoles)), numRoles as real, Disagreement(x, n, numRoles));
  }

  lemma NotZeroMultiple(e: real, k: real, d: real)
    requires IsMultiple(e, k, d) && e != 0.0
    ensures d != 0.0
  {
  }

  lemma HiddenDimensionBreaksIdentity(n: nat, observed: seq<set<nat>>, numRoles: nat, u: nat, d: nat, v: nat)
    requires u < numRoles && v < numRoles && u != v && d < n && !Observes(observed, u, d)
    ensures !IdentityHolds(n, observed, numRoles)
  {
    var x := Spike(n, numRoles, u, d);
    HiddenSpikeIsFree(n, observed, numRoles, u, d);
    SpikeDisagrees(n, numRoles, u, d, v);
    NonZeroIsNoMultiple(numRoles as real, Disagreement(x, n, numRoles));
    assert !IsMultiple(DirichletEnergy(x, n, observed, Rows(0, numRoles)), numRoles as real,
                       Disagreement(x, n, numRoles));
  }

  lemma NonZeroIsNoMultiple(k: real, d: real)
    requires k > 0.0 && d != 0.0
    ensures !IsMultiple(0.0, k, d)
  {
    ProductSign(d, k);
  }

  /** With less than two roles there is nothing to compare. */
  lemma FewRolesAgree(n: nat, observed: seq<set<nat>>, numRoles: nat)
    requires numRoles <= 1
    ensures IdentityHolds(n, observed, numRoles)
  {
    assert Rows(0, numRoles) == [];
    forall x: seq<real> | |x| == numRoles * (2 * n)
      ensures IsMultiple(DirichletEnergy(x, n, observed, Rows(0, numRoles)), numRoles as real,
                         Disagreement(x, n, numRoles))
    {
      EnergyFromIsDeviation(x, n, Everything(n, numRoles), numRoles, 0);
      assert DirichletEnergy(x, n, observed, []) == 0.0 == EnergyFrom(x, n, Everything(n, numRoles), [], 0);
    }
  }

  /**
   * The identity holds for every state exactly if every role observes every dimension, or there is no
   * pair of roles.
   */
  lemma IdentityExactly(n: nat, observed: seq<set<nat>>, numRoles: nat)
    ensures IdentityHolds(n, observed, numRoles) <==> numRoles <= 1 || AllObserved(observed, n, numRoles)
  {
    if numRoles <= 1 {
      FewRolesAgree(n, observed, numRoles);
    } else if AllObserved(observed, n, numRoles) {
      forall x: seq<real> | |x| == numRoles * (2 * n)
        ensures IsMultiple(DirichletEnergy(x, n, observed, Rows(0, numRoles)), numRoles as real,
                           Disagreement(x, n, numRoles))
      {
        EnergyFromIsDeviation(x, n, observed, numRoles, 0);
      }
    } else {
      var u: nat, d: nat :| u < numRoles && d < n && !Observes(observed, u, d);
      HiddenDimensionBreaksIdentity(n, observed, numRoles, u, d, if u == 0 then 1 else 0);
    }
  }
}
