/**
 * The propagation engine: the edges over which evidence propagates, the dimensions the roles observe,
 * and the two measures of how far the roles are apart, Dirichlet energy and disagreement
 * (src/propagationEngine.ts; the measures as src/sgrsAdapter.ts documents them, over exact numbers).
 */
module Propagation {
  import opened Options
  import opened Observation
  import opened Observers
  import opened Sequences
  import Evidence

  // ---------------------------------------------------------------------------------------------
  // The edge list: [u0, v0, u1, v1, ...]
  // ---------------------------------------------------------------------------------------------

  datatype SheafEdge = SheafEdge(from: string, to: string)

  /** The index of a role name; the last one of equal names, as a Map built in order keeps it. */
  function RoleIndex(names: seq<string>, name: string): (r: Option<nat>)
    ensures r.Some? ==> r.value < |names| && names[r.value] == name && name !in names[r.value + 1..]
    ensures r.None? <==> name !in names
  {
    if names == [] then None
    else if names[|names| - 1] == name then Some(|names| - 1)
    else RoleIndex(names[..|names| - 1], name)
  }

  function Resolved(src: Option<nat>, tgt: Option<nat>): seq<nat> {
    if src.Some? && tgt.Some? then [src.value, tgt.value] else []
  }

  /** The configured edges whose two names are both known. */
  function Configured(names: seq<string>, edges: seq<SheafEdge>): seq<nat> {
    if edges == [] then []
    else Resolved(RoleIndex(names, edges[0].from), RoleIndex(names, edges[0].to)) + Configured(names, edges[1..])
  }

  /** Those of the edges whose two names are both known, in order. */
  function Known(names: seq<string>, edges: seq<SheafEdge>): seq<SheafEdge> {
    if edges == [] then []
    else (if edges[0].from in names && edges[0].to in names then [edges[0]] else []) + Known(names, edges[1..])
  }

  /** u is the index of the name; of equal names that of the last. */
  predicate IsIndex(names: seq<string>, name: string, u: nat) {
    u < |names| && names[u] == name && name !in names[u + 1..]
  }

  /** The list holds the indices of each of the edges, in order and nothing else. */
  ghost predicate Lists(names: seq<string>, list: seq<nat>, known: seq<SheafEdge>) {
    && |list| == 2 * |known|
    && forall k :: 0 <= k < |known| ==>
         IsIndex(names, known[k].from, list[2 * k]) && IsIndex(names, known[k].to, list[2 * k + 1])
  }

  lemma ListsOneMore(names: seq<string>, u: nat, v: nat, e: SheafEdge, list: seq<nat>, known: seq<SheafEdge>)
    requires Lists(names, list, known) && IsIndex(names, e.from, u) && IsIndex(names, e.to, v)
    ensures Lists(names, [u, v] + list, [e] + known)
  {
    forall k | 0 < k < |known| + 1
      ensures ([u, v] + list)[2 * k] == list[2 * (k - 1)] && ([u, v] + list)[2 * k + 1] == list[2 * (k - 1) + 1]
      ensures ([e] + known)[k] == known[k - 1]
    {
    }
  }

  lemma {:induction false} ConfiguredExactly(names: seq<string>, edges: seq<SheafEdge>)
    ensures Lists(names, Configured(names, edges), Known(names, edges))
  {
    if edges != [] {
      var u, v := RoleIndex(names, edges[0].from), RoleIndex(names, edges[0].to);
      ConfiguredExactly(names, edges[1..]);
      if u.Some? && v.Some? {
        ListsOneMore(names, u.value, v.value, edges[0], Configured(names, edges[1..]), Known(names, edges[1..]));
      } else {
        assert [] + Configured(names, edges[1..]) == Configured(names, edges[1..]);
        assert [] + Known(names, edges[1..]) == Known(names, edges[1..]);
      }
    }
  }

  /** The pairs (i, j), (i, j + 1), ... */
  function Row(i: nat, j: nat, n: nat): seq<nat>
    decreases n - j
  {
    if j >= n then [] else [i, j] + Row(i, j + 1, n)
  }

  /** All pairs from row i on. */
  function Rows(i: nat, n: nat): seq<nat>
    decreases n - i
  {
    if i >= n then [] else Row(i, i + 1, n) + Rows(i + 1, n)
  }

  function EdgeList(names: seq<string>, edges: seq<SheafEdge>, numRoles: nat): seq<nat> {
    if Configured(names, edges) == [] then Rows(0, numRoles) else Configured(names, edges)
  }

  function Sum(xs: seq<real>, n: nat): real
    requires n <= |xs|
  {
    if n == 0 then 0.0 else Sum(xs, n - 1) + xs[n - 1]
  }

  /** The two modes agree where every dimension is shared. */
  lemma {:induction false} AllSharedIsAll(perDim: seq<real>, dimensions: seq<string>, primary: seq<PrimaryDims>, n: nat)
    requires n <= |perDim| && forall d: nat :: d < n ==> CountsAsShared(dimensions, primary, d)
    ensures SharedSum(perDim, dimensions, primary, n) == Sum(perDim, n)
  {
    if n > 0 {
      AllSharedIsAll(perDim, dimensions, primary, n - 1);
    }
  }

  class PropagationEngine {
    const roles: seq<string>
    const primaryDims: seq<PrimaryDims>   // one per role
    const dimensions: seq<string>
    const sheafEdges: seq<SheafEdge>
    const projection: bool
    const numRoles: nat
    const numDims: nat
    var cachedEdges: Option<seq<nat>>
    var cachedObservedDims: Option<seq<seq<nat>>>

    constructor (roles: seq<string>, primaryDims: seq<PrimaryDims>, dimensions: seq<string>, sheafEdges: seq<SheafEdge>,
                 projection: bool, numRoles: Option<nat>, numDims: Option<nat>)
      ensures Valid() && cachedEdges == None && cachedObservedDims == None
      ensures this.roles == roles && this.primaryDims == primaryDims && this.dimensions == dimensions
      ensures this.sheafEdges == sheafEdges && this.projection == projection
      ensures this.numRoles == if numRoles.Some? then numRoles.value else if |roles| > 0 then |roles| else 7
      ensures this.numDims == if numDims.Some? then numDims.value else if |dimensions| > 0 then |dimensions| else 4
    {
      this.roles, this.primaryDims, this.dimensions := roles, primaryDims, dimensions;
      this.sheafEdges, this.projection := sheafEdges, projection;
      this.numRoles := if numRoles.Some? then numRoles.value else if |roles| > 0 then |roles| else 7;
      this.numDims := if numDims.Some? then numDims.value else if |dimensions| > 0 then |dimensions| else 4;
      cachedEdges, cachedObservedDims := None, None;
    }

    /** The caches hold what would be computed again. */
    ghost predicate Valid()
      reads this
    {
      && (cachedEdges.Some? ==> cachedEdges.value == EdgeList(roles, sheafEdges, numRoles))
      && (cachedObservedDims.Some? ==> cachedObservedDims.value == ObservedDims(dimensions, primaryDims))
    }

    method BuildObservedDims() returns (r: seq<seq<nat>>)
      requires Valid()
      modifies this`cachedObservedDims
      ensures Valid() && cachedObservedDims == Some(r)
      ensures |r| == |primaryDims|
      ensures forall i, d: nat :: 0 <= i < |r| ==>
                (d in r[i] <==>
                   && d < |dimensions|
                   && match primaryDims[i]
                      case All => true
                      case Named(names) => dimensions[d] in names && dimensions[d] !in dimensions[..d])
      ensures forall i, d: nat :: 0 <= i < |r| && d < |dimensions| && d in r[i] ==>
                Occurrences(r[i], d)
                == match primaryDims[i]
                   case All => 1
                   case Named(names) => |set q: nat | q < |names| && names[q] == dimensions[d]|
      ensures r == ObservedDims(dimensions, primaryDims)
    {
      if cachedObservedDims.None? {
        cachedObservedDims := Some(ObservedDims(dimensions, primaryDims));
      }
      forall i, d: nat | 0 <= i < |primaryDims| {
        ListedExactly(dimensions, primaryDims[i], d);
      }
      r := cachedObservedDims.value;
    }

    /** Counters of dimensions beyond numDims are never read. */
    method CountObservers(observed: seq<seq<nat>>) returns (counts: array<nat>)
      ensures fresh(counts) && counts.Length == numDims
      ensures forall d: nat :: d < numDims ==> counts[d] == Listings(observed, d)
    {
      counts := new nat[numDims](i => 0);
      for r := 0 to |observed|
        invariant forall d: nat :: d < numDims ==> counts[d] == Listings(observed[..r], d)
      {
        var dims := observed[r];
        for k := 0 to |dims|
          invariant forall d: nat :: d < numDims ==> counts[d] == Listings(observed[..r], d) + Occurrences(dims[..k], d)
        {
          assert dims[..k + 1][..k] == dims[..k];
          if dims[k] < numDims {
            counts[dims[k]] := counts[dims[k]] + 1;
          }
        }
        assert dims[..|dims|] == dims;
        assert observed[..r + 1][..r] == observed[..r];
      }
      assert observed[..|observed|] == observed;
    }

    method GetSharedDisagreement(perDim: seq<real>) returns (shared: real)
      requires Valid() && |perDim| == numDims
      modifies this`cachedObservedDims
      ensures Valid()
      ensures !projection ==> shared == Sum(perDim, numDims)
      ensures projection ==> shared == SharedSum(perDim, dimensions, primaryDims, numDims)
    {
      CountedSumIsShared(perDim, dimensions, primaryDims, numDims);
      shared := 0.0;
      if !projection {
        for d := 0 to numDims
          invariant shared == Sum(perDim, d)
        {
          shared := shared + perDim[d];
        }
        return;
      }
      var observed := BuildObservedDims();
      var counts := CountObservers(observed);
      for d := 0 to numDims
        invariant shared == CountedSum(perDim, observed, d)
      {
        if counts[d] >= 2 {
          shared := shared + perDim[d];
        }
      }
    }

    method BuildEdgeList() returns (r: seq<nat>)
      requires Valid()
      modifies this`cachedEdges
      ensures Valid() && cachedEdges == Some(r)
      ensures r == EdgeList(roles, sheafEdges, numRoles)
      ensures Known(roles, sheafEdges) != [] ==> Lists(roles, r, Known(roles, sheafEdges))
      ensures Known(roles, sheafEdges) == [] ==>
                forall u: nat, v: nat :: HasEdge(r, u, v) <==> u < v < numRoles
    {
      ConfiguredExactly(roles, sheafEdges);
      forall u: nat, v: nat
        ensures HasEdge(Rows(0, numRoles), u, v) <==> u < v < numRoles
      {
        CompleteGraphExactly(numRoles, u, v);
      }
      if cachedEdges.Some? {
        return cachedEdges.value;
      }
      r := ConfiguredEdges();
      if |r| == 0 {
        r := CompleteEdges();
      }
      cachedEdges := Some(r);
    }

    method ConfiguredEdges() returns (edges: seq<nat>)
      ensures edges == Configured(roles, sheafEdges)
    {
      edges := [];
      for k := 0 to |sheafEdges|
        invariant edges + Configured(roles, sheafEdges[k..]) == Configured(roles, sheafEdges)
      {
        var src, tgt := RoleIndex(roles, sheafEdges[k].from), RoleIndex(roles, sheafEdges[k].to);
        assert sheafEdges[k..][1..] == sheafEdges[k + 1..];
        PushConfigured(edges, roles, sheafEdges[k..], src, tgt);
        if src.Some? && tgt.Some? {
          edges := edges + [src.value, tgt.value];
        } else {
          assert edges + [] == edges;
        }
      }
      assert edges + [] == edges;
    }

    method CompleteEdges() returns (edges: seq<nat>)
      ensures edges == Rows(0, numRoles)
    {
      edges := [];
      for i := 0 to numRoles
        invariant edges + Rows(i, numRoles) == Rows(0, numRoles)
      {
        ghost var before := edges;
        for j := i + 1 to numRoles
          invariant edges + Row(i, j, numRoles) == before + Row(i, i + 1, numRoles)
        {
          PushPair(edges, i, j, numRoles);
          edges := edges + [i, j];
        }
        assert edges + [] == edges;
      }
      assert edges + [] == edges;
    }
  }

  lemma PushConfigured(pushed: seq<nat>, names: seq<string>, edges: seq<SheafEdge>, src: Option<nat>, tgt: Option<nat>)
    requires edges != [] && src == RoleIndex(names, edges[0].from) && tgt == RoleIndex(names, edges[0].to)
    ensures pushed + Configured(names, edges) == (pushed + Resolved(src, tgt)) + Configured(names, edges[1..])
  {
    ConcatAssoc(pushed, Resolved(src, tgt), Configured(names, edges[1..]));
  }

  lemma PushPair(edges: seq<nat>, i: nat, j: nat, n: nat)
    requires j < n
    ensures edges + Row(i, j, n) == (edges + [i, j]) + Row(i, j + 1, n)
  {
    ConcatAssoc(edges, [i, j], Row(i, j + 1, n));
  }

  /** Edge k of a list is (u, v). */
  predicate IsEdge(edges: seq<nat>, k: nat, u: nat, v: nat) {
    2 * k + 1 < |edges| && edges[2 * k] == u && edges[2 * k + 1] == v
  }

  ghost predicate HasEdge(edges: seq<nat>, u: nat, v: nat) {
    exists k: nat :: IsEdge(edges, k, u, v)
  }

  lemma {:induction false} RowEdges(i: nat, j: nat, n: nat, k: nat, u: nat, v: nat)
    ensures |Row(i, j, n)| == if j < n then 2 * (n - j) else 0
    ensures IsEdge(Row(i, j, n), k, u, v) <==> u == i && v == j + k && v < n
    decreases n - j
  {
    if j < n {
      RowEdges(i, j + 1, n, if k > 0 then k - 1 else 0, u, v);
      assert k > 0 ==> (IsEdge(Row(i, j, n), k, u, v) <==> IsEdge(Row(i, j + 1, n), k - 1, u, v));
    }
  }

  lemma EdgeOfConcat(a: seq<nat>, b: seq<nat>, w: nat, k: nat, u: nat, v: nat)
    requires |a| == 2 * w
    ensures k < w ==> (IsEdge(a + b, k, u, v) <==> IsEdge(a, k, u, v))
    ensures k >= w ==> (IsEdge(a + b, k, u, v) <==> IsEdge(b, k - w, u, v))
  {
    if k >= w {
      assert 2 * (k - w) == 2 * k - |a|;
    }
  }

  /** The number of edges before row u, counted from row i. */
  function EdgesBefore(i: nat, u: nat, n: nat): nat
    requires i <= u <= n
    decreases u - i
  {
    if i == u then 0 else n - i - 1 + EdgesBefore(i + 1, u, n)
  }

  /** Edge k of the rows from i on is (u, v), by number. */
  predicate IsNumber(i: nat, n: nat, k: nat, u: nat, v: nat) {
    i <= u < v < n && k == EdgesBefore(i, u, n) + v - u - 1
  }

  lemma NumberInRow(i: nat, n: nat, k: nat, u: nat, v: nat)
    requires i < n
    ensures k < n - i - 1 ==> (IsNumber(i, n, k, u, v) <==> u == i && v == i + 1 + k)
    ensures k >= n - i - 1 ==> (IsNumber(i, n, k, u, v) <==> IsNumber(i + 1, n, k - (n - i - 1), u, v))
  {
    if i < u < v < n {
      assert EdgesBefore(i, u, n) == n - i - 1 + EdgesBefore(i + 1, u, n);
    }
  }

  lemma {:induction false} RowsEdges(i: nat, n: nat, k: nat, u: nat, v: nat)
    requires i <= n
    ensures IsEdge(Rows(i, n), k, u, v) <==> IsNumber(i, n, k, u, v)
    decreases n - i
  {
    if i < n {
      var w := n - i - 1;
      RowEdges(i, i + 1, n, k, u, v);
      EdgeOfConcat(Row(i, i + 1, n), Rows(i + 1, n), w, k, u, v);
      NumberInRow(i, n, k, u, v);
      if k >= w {
        RowsEdges(i + 1, n, k - w, u, v);
      }
    }
  }

  lemma {:induction false} RowsAreEven(i: nat, n: nat)
    ensures |Rows(i, n)| % 2 == 0
    decreases n - i
  {
    if i < n {
      RowEdges(i, i + 1, n, 0, 0, 0);
      RowsAreEven(i + 1, n);
    }
  }

  /** Without configured edges every unordered pair of different roles is listed once, and nothing else is. */
  lemma CompleteGraphExactly(n: nat, u: nat, v: nat)
    ensures (exists k: nat :: IsEdge(Rows(0, n), k, u, v)) <==> u < v < n
    ensures forall k: nat, l: nat :: IsEdge(Rows(0, n), k, u, v) && IsEdge(Rows(0, n), l, u, v) ==> k == l
    ensures |Rows(0, n)| % 2 == 0
  {
    RowsAreEven(0, n);
    forall k: nat
      ensures IsEdge(Rows(0, n), k, u, v) <==> IsNumber(0, n, k, u, v)
    {
      RowsEdges(0, n, k, u, v);
    }
    if u < v < n {
      var k: nat := EdgesBefore(0, u, n) + v - u - 1;
      assert IsEdge(Rows(0, n), k, u, v);
    }
  }

  // ---------------------------------------------------------------------------------------------
  // The measures
  // ---------------------------------------------------------------------------------------------

  /** Coordinate c of role i in a flat state of 2n coordinates a role. */
  function Entry(x: seq<real>, n: nat, i: nat, c: nat): real {
    Evidence.EntryAt(x, i * (2 * n) + c)
  }

  predicate Observes(observed: seq<set<nat>>, u: nat, d: nat) {
    u < |observed| && d in observed[u]
  }

  /** The two roles both observe the dimension of coordinate c: support of c, or refutation of c - n. */
  predicate Shared(observed: seq<set<nat>>, n: nat, u: nat, v: nat, c: nat) {
    var d := if c < n then c else c - n;
    Observes(observed, u, d) && Observes(observed, v, d)
  }

  function Gap(x: seq<real>, n: nat, observed: seq<set<nat>>, u: nat, v: nat, c: nat): real {
    if Shared(observed, n, u, v, c) then Entry(x, n, u, c) - Entry(x, n, v, c) else 0.0
  }

  /** The energy of one edge over the coordinates from c on. */
  function EdgeEnergy(x: seq<real>, n: nat, observed: seq<set<nat>>, u: nat, v: nat, c: nat): real
    decreases 2 * n - c
  {
    if c >= 2 * n then 0.0
    else Gap(x, n, observed, u, v, c) * Gap(x, n, observed, u, v, c) + EdgeEnergy(x, n, observed, u, v, c + 1)
  }

  function EnergyFrom(x: seq<real>, n: nat, observed: seq<set<nat>>, edges: seq<nat>, c: nat): real {
    if |edges| < 2 then 0.0
    else EdgeEnergy(x, n, observed, edges[0], edges[1], c) + EnergyFrom(x, n, observed, edges[2..], c)
  }

  /** The sum over all edges of the squared distance of their roles on what both observe. */
  function DirichletEnergy(x: seq<real>, n: nat, observed: seq<set<nat>>, edges: seq<nat>): real {
    EnergyFrom(x, n, observed, edges, 0)
  }

  /** Coordinate c of all roles. */
  function Column(x: seq<real>, n: nat, numRoles: nat, c: nat): (y: seq<real>)
    ensures |y| == numRoles && forall i :: 0 <= i < numRoles ==> y[i] == Entry(x, n, i, c)
  {
    seq(numRoles, i requires 0 <= i < numRoles => Entry(x, n, i, c))
  }

  function Total(y: seq<real>): real {
    if y == [] then 0.0 else y[0] + Total(y[1..])
  }

  function Mean(y: seq<real>): real {
    if y == [] then 0.0 else Total(y) / |y| as real
  }

  /** The squared distance of role i from the mean role, over the coordinates from c on. */
  function RoleDeviation(x: seq<real>, n: nat, numRoles: nat, i: nat, c: nat): real
    decreases 2 * n - c
  {
    if c >= 2 * n then 0.0
    else
      var d := Entry(x, n, i, c) - Mean(Column(x, n, numRoles, c));
      d * d + RoleDeviation(x, n, numRoles, i, c + 1)
  }

  function DeviationFrom(x: seq<real>, n: nat, numRoles: nat, i: nat, c: nat): real
    decreases numRoles - i
  {
    if i >= numRoles then 0.0
    else RoleDeviation(x, n, numRoles, i, c) + DeviationFrom(x, n, numRoles, i + 1, c)
  }

  /** The sum over all roles of the squared distance from the mean role. */
  function Disagreement(x: seq<real>, n: nat, numRoles: nat): real {
    DeviationFrom(x, n, numRoles, 0, 0)
  }
}
