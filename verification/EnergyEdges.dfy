/**
 * Which edge lists the energy identity holds for, where every role observes everything
 * (src/propagationEngine.ts, src/sgrsAdapter.ts).
 */
module EnergyEdges {
  import opened Propagation
  import opened EnergyIdentity
  import opened RealArithmetic
  import Evidence

  // ---------------------------------------------------------------------------------------------
  // How often a list joins a pair
  // ---------------------------------------------------------------------------------------------

  /** The edge joins u and v, in one direction or the other. */
  predicate Joins(a: nat, b: nat, u: nat, v: nat) {
    (a == u && b == v) || (a == v && b == u)
  }

  function Joined(edges: seq<nat>, u: nat, v: nat): nat {
    if |edges| < 2 then 0
    else (if Joins(edges[0], edges[1], u, v) then 1 else 0) + Joined(edges[2..], u, v)
  }

  lemma {:induction false} JoinedAppend(a: seq<nat>, b: seq<nat>, u: nat, v: nat)
    requires |a| % 2 == 0
    ensures Joined(a + b, u, v) == Joined(a, u, v) + Joined(b, u, v)
  {
    if a == [] {
      assert a + b == b;
    } else {
      assert (a + b)[2..] == a[2..] + b;
      JoinedAppend(a[2..], b, u, v);
    }
  }

  lemma {:induction false} RowJoins(i: nat, j: nat, n: nat, u: nat, v: nat)
    requires i < j && u < v
    ensures Joined(Row(i, j, n), u, v) == if u == i && j <= v < n then 1 else 0
    decreases n - j
  {
    if j < n {
      assert Row(i, j, n)[2..] == Row(i, j + 1, n);
      RowJoins(i, j + 1, n, u, v);
    }
  }

  lemma {:induction false} RowsJoin(i: nat, n: nat, u: nat, v: nat)
    requires u < v
    ensures Joined(Rows(i, n), u, v) == if i <= u && v < n then 1 else 0
    decreases n - i
  {
    if i < n {
      RowEdges(i, i + 1, n, 0, 0, 0);
      JoinedAppend(Row(i, i + 1, n), Rows(i + 1, n), u, v);
      RowJoins(i, i + 1, n, u, v);
      RowsJoin(i + 1, n, u, v);
    }
  }

  function Ordered(a: nat, b: nat): (nat, nat) {
    if a < b then (a, b) else (b, a)
  }

  /** Each pair of different roles is joined exactly once. */
  ghost predicate JoinsEachPairOnce(edges: seq<nat>, numRoles: nat) {
    forall u: nat, v: nat :: u < v < numRoles ==> Joined(edges, u, v) == 1
  }

  // ---------------------------------------------------------------------------------------------
  // Equal numbers, equal energies
  // ---------------------------------------------------------------------------------------------

  lemma {:induction false} FindEdge(edges: seq<nat>, u: nat, v: nat) returns (k: nat)
    requires Joined(edges, u, v) > 0
    ensures 2 * k + 1 < |edges| && Joins(edges[2 * k], edges[2 * k + 1], u, v)
  {
    if Joins(edges[0], edges[1], u, v) {
      k := 0;
    } else {
      k := FindEdge(edges[2..], u, v);
      k := k + 1;
    }
  }

  function Without(edges: seq<nat>, k: nat): seq<nat>
    requires 2 * k + 1 < |edges|
  {
    edges[..2 * k] + edges[2 * k + 2..]
  }

  lemma WithoutEdge(edges: seq<nat>, k: nat, y: seq<real>)
    requires 2 * k + 1 < |edges|
    ensures ColumnEnergy(edges, y)
            == Squared(Difference(y, edges[2 * k], edges[2 * k + 1])) + ColumnEnergy(Without(edges, k), y)
  {
    var front, back := edges[..2 * k], edges[2 * k..];
    assert front + back == edges && back[2..] == edges[2 * k + 2..];
    ColumnEnergyAppend(front, back, y);
    ColumnEnergyAppend(front, back[2..], y);
    FirstEdge(back, y);
  }

  lemma JoinedWithout(edges: seq<nat>, k: nat, u: nat, v: nat)
    requires 2 * k + 1 < |edges|
    ensures Joined(edges, u, v)
            == (if Joins(edges[2 * k], edges[2 * k + 1], u, v) then 1 else 0) + Joined(Without(edges, k), u, v)
  {
    var front, back := edges[..2 * k], edges[2 * k..];
    assert front + back == edges && back[2..] == edges[2 * k + 2..];
    JoinedAppend(front, back, u, v);
    JoinedAppend(front, back[2..], u, v);
  }

  ghost predicate SameJoins(a: seq<nat>, b: seq<nat>) {
    forall u: nat, v: nat :: u < v ==> Joined(a, u, v) == Joined(b, u, v)
  }

  lemma LoopIsFree(edges: seq<nat>, y: seq<real>)
    requires |edges| >= 2 && edges[0] == edges[1]
    ensures ColumnEnergy(edges, y) == ColumnEnergy(edges[2..], y)
    ensures SameJoins(edges, edges[2..])
  {
    FirstEdge(edges, y);
    assert Difference(y, edges[0], edges[1]) == 0.0;
  }

  lemma {:induction false} NoJoinsNoEnergy(edges: seq<nat>, y: seq<real>)
    requires SameJoins(edges, [])
    ensures ColumnEnergy(edges, y) == 0.0
  {
    if |edges| >= 2 {
      var u, v := Ordered(edges[0], edges[1]).0, Ordered(edges[0], edges[1]).1;
      assert u < v ==> Joined(edges, u, v) == Joined([], u, v);
      LoopIsFree(edges, y);
      NoJoinsNoEnergy(edges[2..], y);
    }
  }

  lemma SameSquare(y: seq<real>, a: nat, b: nat, u: nat, v: nat)
    requires Joins(a, b, u, v)
    ensures Squared(Difference(y, a, b)) == Squared(Difference(y, u, v))
  {
    SquaredEitherWay(Evidence.EntryAt(y, u), Evidence.EntryAt(y, v));
  }

  lemma MatchedEdge(a: seq<nat>, b: seq<nat>, k: nat, y: seq<real>)
    requires |a| >= 2 && 2 * k + 1 < |b| && SameJoins(a, b)
    requires Joins(b[2 * k], b[2 * k + 1], a[0], a[1])
    ensures SameJoins(a[2..], Without(b, k))
    ensures ColumnEnergy(a, y) - ColumnEnergy(a[2..], y) == ColumnEnergy(b, y) - ColumnEnergy(Without(b, k), y)
  {
    FirstEdge(a, y);
    WithoutEdge(b, k, y);
    SameSquare(y, b[2 * k], b[2 * k + 1], a[0], a[1]);
    forall u: nat, v: nat | u < v
      ensures Joined(a[2..], u, v) == Joined(Without(b, k), u, v)
    {
      JoinedWithout(b, k, u, v);
    }
  }

  /** The energy of a column depends only on how often each pair is joined. */
  lemma {:induction false} SameJoinsSameEnergy(a: seq<nat>, b: seq<nat>, y: seq<real>)
    requires SameJoins(a, b)
    ensures ColumnEnergy(a, y) == ColumnEnergy(b, y)
    decreases |a|
  {
    if |a| < 2 {
      assert forall u: nat, v: nat :: Joined(a, u, v) == Joined([], u, v);
      NoJoinsNoEnergy(b, y);
    } else if a[0] == a[1] {
      LoopIsFree(a, y);
      SameJoinsSameEnergy(a[2..], b, y);
    } else {
      var u, v := Ordered(a[0], a[1]).0, Ordered(a[0], a[1]).1;
      assert Joined(a, u, v) > 0;
      var k := FindEdge(b, u, v);
      MatchedEdge(a, b, k, y);
      SameJoinsSameEnergy(a[2..], Without(b, k), y);
    }
  }

  // ---------------------------------------------------------------------------------------------
  // Equal energies, equal numbers
  // ---------------------------------------------------------------------------------------------

  /** One at u, zero elsewhere. */
  function One(numRoles: nat, u: nat): (y: seq<real>)
    ensures |y| == numRoles
  {
    seq(numRoles, i => if i == u then 1.0 else 0.0)
  }

  /** One at u and at v, zero elsewhere. */
  function Two(numRoles: nat, u: nat, v: nat): (y: seq<real>)
    ensures |y| == numRoles
  {
    seq(numRoles, i => if i == u || i == v then 1.0 else 0.0)
  }

  lemma EdgePolarizes(numRoles: nat, u: nat, v: nat, a: nat, b: nat)
    requires u != v && a < numRoles && b < numRoles
    ensures Squared(Difference(Two(numRoles, u, v), a, b))
            == Squared(Difference(One(numRoles, u), a, b)) + Squared(Difference(One(numRoles, v), a, b))
               - (if Joins(a, b, u, v) then 2.0 else 0.0)
  {
  }

  /** What the energy of two ones lacks to the sum of their energies counts the edges between them. */
  lemma {:induction false} Polarizes(edges: seq<nat>, numRoles: nat, u: nat, v: nat)
    requires u != v && InRange(edges, numRoles)
    ensures ColumnEnergy(edges, Two(numRoles, u, v))
            == ColumnEnergy(edges, One(numRoles, u)) + ColumnEnergy(edges, One(numRoles, v))
               - 2.0 * Joined(edges, u, v) as real
  {
    if |edges| >= 2 {
      assert edges[0] < numRoles && edges[1] < numRoles;
      FirstEdge(edges, Two(numRoles, u, v));
      FirstEdge(edges, One(numRoles, u));
      FirstEdge(edges, One(numRoles, v));
      EdgePolarizes(numRoles, u, v, edges[0], edges[1]);
      Polarizes(edges[2..], numRoles, u, v);
    }
  }

  lemma SameEnergySameJoined(a: seq<nat>, b: seq<nat>, numRoles: nat, u: nat, v: nat)
    requires u < v && InRange(a, numRoles) && InRange(b, numRoles)
    requires forall y: seq<real> :: |y| == numRoles ==> ColumnEnergy(a, y) == ColumnEnergy(b, y)
    ensures Joined(a, u, v) == Joined(b, u, v)
  {
    Polarizes(a, numRoles, u, v);
    Polarizes(b, numRoles, u, v);
  }

  // ---------------------------------------------------------------------------------------------
  // All columns
  // ---------------------------------------------------------------------------------------------

  /** The energy over the edges is the disagreement times the number of roles, for every well-sized state. */
  ghost predicate IdentityOver(n: nat, observed: seq<set<nat>>, numRoles: nat, edges: seq<nat>) {
    forall x: seq<real> :: |x| == numRoles * (2 * n) ==>
      IsMultiple(DirichletEnergy(x, n, observed, edges), numRoles as real, Disagreement(x, n, numRoles))
  }

  lemma {:induction false} SameJoinsSameTotal(x: seq<real>, n: nat, observed: seq<set<nat>>, numRoles: nat, a: seq<nat>,
                                              b: seq<nat>, c: nat)
    requires AllObserved(observed, n, numRoles) && InRange(a, numRoles) && InRange(b, numRoles) && c <= 2 * n
    requires SameJoins(a, b)
    ensures EnergyFrom(x, n, observed, a, c) == EnergyFrom(x, n, observed, b, c)
    decreases 2 * n - c
  {
    if c == 2 * n {
      NoColumnsLeft(x, n, observed, a);
      NoColumnsLeft(x, n, observed, b);
    } else {
      SplitColumn(x, n, observed, numRoles, a, c);
      SplitColumn(x, n, observed, numRoles, b, c);
      SameJoinsSameEnergy(a, b, Column(x, n, numRoles, c));
      SameJoinsSameTotal(x, n, observed, numRoles, a, b, c + 1);
    }
  }

  /** Entry k of the rows that begin with the entries of y and go on with zeros. */
  function LiftedAt(y: seq<real>, width: nat, k: nat): real {
    if y == [] then 0.0 else if k < width then (if k == 0 then y[0] else 0.0) else LiftedAt(y[1..], width, k - width)
  }

  lemma {:induction false} LiftedRow(y: seq<real>, width: nat, i: nat, c: nat)
    requires i < |y| && c < width
    ensures LiftedAt(y, width, i * width + c) == if c == 0 then y[i] else 0.0
  {
    if i > 0 {
      assert i * width + c == (i - 1) * width + c + width;
      RowsApart(width, 0, i);
      LiftedRow(y[1..], width, i - 1, c);
    }
  }

  /** The state whose first column is y and whose other columns are zero. */
  function Lifted(y: seq<real>, n: nat): (x: seq<real>)
    ensures |x| == |y| * (2 * n)
  {
    seq(|y| * (2 * n), k requires k >= 0 => LiftedAt(y, 2 * n, k))
  }

  lemma EntryOfLifted(y: seq<real>, n: nat, i: nat, c: nat)
    requires i < |y| && c < 2 * n
    ensures Entry(Lifted(y, n), n, i, c) == if c == 0 then y[i] else 0.0
  {
    RowsApart(2 * n, i, |y|);
    LiftedRow(y, 2 * n, i, c);
  }

  lemma {:induction false} LaterColumnsAreFree(y: seq<real>, n: nat, observed: seq<set<nat>>, edges: seq<nat>)
    requires n > 0 && InRange(edges, |y|)
    ensures EnergyFrom(Lifted(y, n), n, observed, edges, 1) == 0.0
  {
    if |edges| >= 2 {
      assert edges[0] < |y| && edges[1] < |y|;
      LaterGapsAreFree(y, n, observed, edges[0], edges[1], 1);
      LaterColumnsAreFree(y, n, observed, edges[2..]);
    }
  }

  lemma {:induction false} LaterGapsAreFree(y: seq<real>, n: nat, observed: seq<set<nat>>, u: nat, v: nat, c: nat)
    requires c > 0 && u < |y| && v < |y|
    ensures EdgeEnergy(Lifted(y, n), n, observed, u, v, c) == 0.0
    decreases 2 * n - c
  {
    if c < 2 * n {
      EntryOfLifted(y, n, u, c);
      EntryOfLifted(y, n, v, c);
      assert Gap(Lifted(y, n), n, observed, u, v, c) == 0.0;
      LaterGapsAreFree(y, n, observed, u, v, c + 1);
    }
  }

  lemma EnergyOfLifted(y: seq<real>, n: nat, observed: seq<set<nat>>, edges: seq<nat>)
    requires n > 0 && AllObserved(observed, n, |y|) && InRange(edges, |y|)
    ensures DirichletEnergy(Lifted(y, n), n, observed, edges) == ColumnEnergy(edges, y)
  {
    var x := Lifted(y, n);
    SplitColumn(x, n, observed, |y|, edges, 0);
    LaterColumnsAreFree(y, n, observed, edges);
    forall i | 0 <= i < |y|
      ensures Column(x, n, |y|, 0)[i] == y[i]
    {
      EntryOfLifted(y, n, i, 0);
    }
    assert Column(x, n, |y|, 0) == y;
  }

  lemma SameMultiple(e: real, f: real, k: real, d: real)
    requires IsMultiple(e, k, d) && IsMultiple(f, k, d)
    ensures e == f
  {
  }

  /** Where the identity holds, the list has the energies of the complete graph. */
  lemma IdentityFixesEnergy(n: nat, observed: seq<set<nat>>, numRoles: nat, edges: seq<nat>, y: seq<real>)
    requires n > 0 && AllObserved(observed, n, numRoles) && InRange(edges, numRoles) && |y| == numRoles
    requires IdentityOver(n, observed, numRoles, edges)
    ensures ColumnEnergy(edges, y) == ColumnEnergy(Rows(0, numRoles), y)
  {
    var x := Lifted(y, n);
    RowsInRange(0, numRoles);
    EnergyFromIsDeviation(x, n, observed, numRoles, 0);
    SameMultiple(DirichletEnergy(x, n, observed, edges), DirichletEnergy(x, n, observed, Rows(0, numRoles)),
                 numRoles as real, Disagreement(x, n, numRoles));
    EnergyOfLifted(y, n, observed, edges);
    EnergyOfLifted(y, n, observed, Rows(0, numRoles));
  }

  lemma JoinedOncePairs(n: nat, observed: seq<set<nat>>, numRoles: nat, edges: seq<nat>)
    requires n > 0 && AllObserved(observed, n, numRoles) && InRange(edges, numRoles)
    requires IdentityOver(n, observed, numRoles, edges)
    ensures JoinsEachPairOnce(edges, numRoles)
  {
    RowsInRange(0, numRoles);
    forall y: seq<real> | |y| == numRoles
      ensures ColumnEnergy(edges, y) == ColumnEnergy(Rows(0, numRoles), y)
    {
      IdentityFixesEnergy(n, observed, numRoles, edges, y);
    }
    forall u: nat, v: nat | u < v < numRoles
      ensures Joined(edges, u, v) == 1
    {
      SameEnergySameJoined(edges, Rows(0, numRoles), numRoles, u, v);
      RowsJoin(0, numRoles, u, v);
    }
  }

  lemma {:induction false} NoneOutOfRange(edges: seq<nat>, numRoles: nat, u: nat, v: nat)
    requires InRange(edges, numRoles) && v >= numRoles
    ensures Joined(edges, u, v) == 0
  {
    if |edges| >= 2 {
      assert edges[0] < numRoles && edges[1] < numRoles;
      NoneOutOfRange(edges[2..], numRoles, u, v);
    }
  }

  lemma OnceIsComplete(edges: seq<nat>, numRoles: nat)
    requires InRange(edges, numRoles) && JoinsEachPairOnce(edges, numRoles)
    ensures SameJoins(Rows(0, numRoles), edges)
  {
    forall u: nat, v: nat | u < v
      ensures Joined(Rows(0, numRoles), u, v) == Joined(edges, u, v)
    {
      RowsJoin(0, numRoles, u, v);
      if v >= numRoles {
        NoneOutOfRange(edges, numRoles, u, v);
      }
    }
  }

  /**
   * Where every role observes everything, the identity holds over an edge list exactly if the list
   * joins each pair of different roles once, in whatever order and direction, or there are no dimensions.
   */
  lemma IdentityOverExactly(n: nat, observed: seq<set<nat>>, numRoles: nat, edges: seq<nat>)
    requires AllObserved(observed, n, numRoles) && InRange(edges, numRoles)
    ensures IdentityOver(n, observed, numRoles, edges) <==> n == 0 || JoinsEachPairOnce(edges, numRoles)
  {
    if n == 0 || JoinsEachPairOnce(edges, numRoles) {
      forall x: seq<real> | |x| == numRoles * (2 * n)
        ensures IsMultiple(DirichletEnergy(x, n, observed, edges), numRoles as real, Disagreement(x, n, numRoles))
      {
        EnergyFromIsDeviation(x, n, observed, numRoles, 0);
        if n == 0 {
          NoColumnsLeft(x, n, observed, edges);
          NoColumnsLeft(x, n, observed, Rows(0, numRoles));
        } else {
          RowsInRange(0, numRoles);
          OnceIsComplete(edges, numRoles);
          SameJoinsSameTotal(x, n, observed, numRoles, Rows(0, numRoles), edges, 0);
        }
      }
    } else if IdentityOver(n, observed, numRoles, edges) {
      JoinedOncePairs(n, observed, numRoles, edges);
    }
  }
}
