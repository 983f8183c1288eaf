/**
 * Which dimensions the roles observe, and which of them count as shared (src/propagationEngine.ts).
 */
module Observation {
  import opened Options

  datatype PrimaryDims = All | Named(names: seq<string>)

  /** dimensions.indexOf(name) */
  function IndexOf(dimensions: seq<string>, name: string): (r: Option<nat>)
    ensures r.Some? ==> r.value < |dimensions| && dimensions[r.value] == name
    ensures r.None? <==> name !in dimensions
  {
    if dimensions == [] then None
    else if dimensions[0] == name then Some(0)
    else
      var later := IndexOf(dimensions[1..], name);
      if later.Some? then Some(later.value + 1) else None
  }

  /** The indices of the known names, in the order in which the role lists them. */
  function KnownIndices(dimensions: seq<string>, names: seq<string>): seq<nat> {
    if names == [] then []
    else
      var rest := KnownIndices(dimensions, names[1..]);
      if IndexOf(dimensions, names[0]).Some? then [IndexOf(dimensions, names[0]).value] + rest else rest
  }

  function FirstIndices(n: nat): (r: seq<nat>)
    ensures |r| == n && forall i :: 0 <= i < n ==> r[i] == i
  {
    seq(n, i requires 0 <= i < n => i)
  }

  function ObservedBy(dimensions: seq<string>, primary: PrimaryDims): seq<nat> {
    match primary
    case All => FirstIndices(|dimensions|)
    case Named(names) => KnownIndices(dimensions, names)
  }

  function ObservedDims(dimensions: seq<string>, primary: seq<PrimaryDims>): (r: seq<seq<nat>>)
    ensures |r| == |primary| && forall i :: 0 <= i < |primary| ==> r[i] == ObservedBy(dimensions, primary[i])
  {
    seq(|primary|, i requires 0 <= i < |primary| => ObservedBy(dimensions, primary[i]))
  }

  // ---------------------------------------------------------------------------------------------
  // What the counters count
  // ---------------------------------------------------------------------------------------------

  function Occurrences(dims: seq<nat>, d: nat): nat {
    if dims == [] then 0 else Occurrences(dims[..|dims| - 1], d) + (if dims[|dims| - 1] == d then 1 else 0)
  }

  /** How often a dimension is listed by all roles together. */
  function Listings(observed: seq<seq<nat>>, d: nat): nat {
    if observed == [] then 0 else Listings(observed[..|observed| - 1], d) + Occurrences(observed[|observed| - 1], d)
  }

  /** The documented condition: at least two roles observe the dimension. */
  ghost predicate SharedByTwo(observed: seq<seq<nat>>, d: nat) {
    exists q, r :: 0 <= q < r < |observed| && d in observed[q] && d in observed[r]
  }

  /** The disagreements of the dimensions whose counter reaches two. */
  function CountedSum(perDim: seq<real>, observed: seq<seq<nat>>, n: nat): real
    requires n <= |perDim|
  {
    if n == 0 then 0.0
    else CountedSum(perDim, observed, n - 1) + (if Listings(observed, n - 1) >= 2 then perDim[n - 1] else 0.0)
  }

  ghost function DocumentedSum(perDim: seq<real>, observed: seq<seq<nat>>, n: nat): real
    requires n <= |perDim|
  {
    if n == 0 then 0.0
    else DocumentedSum(perDim, observed, n - 1) + (if SharedByTwo(observed, n - 1) then perDim[n - 1] else 0.0)
  }

  lemma {:induction false} OccursExactly(dims: seq<nat>, d: nat)
    ensures Occurrences(dims, d) > 0 <==> d in dims
  {
    if dims != [] {
      OccursExactly(dims[..|dims| - 1], d);
      assert dims == dims[..|dims| - 1] + [dims[|dims| - 1]];
    }
  }

  /** No role lists the dimension twice without another role that lists it too. */
  ghost predicate NoLonelyRepeat(observed: seq<seq<nat>>, d: nat) {
    forall r :: 0 <= r < |observed| && Occurrences(observed[r], d) >= 2 ==> SharedByTwo(observed, d)
  }

  /** At most one listing in all: nobody observes the dimension, or one role does, once. */
  lemma {:induction false} ListedOnce(observed: seq<seq<nat>>, d: nat)
    ensures Listings(observed, d) > 0 <==> exists r :: 0 <= r < |observed| && d in observed[r]
    ensures SharedByTwo(observed, d) ==> Listings(observed, d) >= 2
    ensures Listings(observed, d) >= 2 && !SharedByTwo(observed, d) ==>
              exists r :: 0 <= r < |observed| && Occurrences(observed[r], d) >= 2
  {
    if observed != [] {
      var n := |observed| - 1;
      var front := observed[..n];
      ListedOnce(front, d);
      OccursExactly(observed[n], d);
      assert forall r :: 0 <= r < n ==> front[r] == observed[r];
      if SharedByTwo(observed, d) {
        var q, r :| 0 <= q < r < |observed| && d in observed[q] && d in observed[r];
        assert d in front[q];
        if r < n {
          assert SharedByTwo(front, d);
        }
      }
      if Listings(observed, d) >= 2 && !SharedByTwo(observed, d) {
        assert !SharedByTwo(front, d);
      }
    }
  }

  /** The counter of a dimension reaches two exactly when two roles observe it, or one role lists it twice. */
  lemma CountedAsSharedExactly(observed: seq<seq<nat>>, d: nat)
    ensures (Listings(observed, d) >= 2 <==> SharedByTwo(observed, d)) <==> NoLonelyRepeat(observed, d)
  {
    ListedOnce(observed, d);
    forall r | 0 <= r < |observed| && Occurrences(observed[r], d) >= 2
      ensures Listings(observed, d) >= 2
    {
      ListingsAtLeast(observed, d, r);
    }
  }

  lemma {:induction false} ListingsAtLeast(observed: seq<seq<nat>>, d: nat, r: nat)
    requires r < |observed|
    ensures Listings(observed, d) >= Occurrences(observed[r], d)
  {
    if r < |observed| - 1 {
      ListingsAtLeast(observed[..|observed| - 1], d, r);
    }
  }

  /** So without lonely repeats the counters give the documented sum, whatever the disagreements are. */
  lemma {:induction false} CountedSumIsDocumented(perDim: seq<real>, observed: seq<seq<nat>>, n: nat)
    requires n <= |perDim|
    requires forall d: nat :: d < n ==> NoLonelyRepeat(observed, d)
    ensures CountedSum(perDim, observed, n) == DocumentedSum(perDim, observed, n)
  {
    if n > 0 {
      CountedSumIsDocumented(perDim, observed, n - 1);
      CountedAsSharedExactly(observed, n - 1);
    }
  }

  /** One at d, zero elsewhere. */
  function Indicator(n: nat, d: nat): (r: seq<real>)
    ensures |r| == n && forall i :: 0 <= i < n ==> r[i] == if i == d then 1.0 else 0.0
  {
    seq(n, i => if i == d then 1.0 else 0.0)
  }

  lemma {:induction false} SumsOfIndicator(perDim: seq<real>, observed: seq<seq<nat>>, d: nat, n: nat)
    requires n <= |perDim| && forall i :: 0 <= i < n ==> perDim[i] == if i == d then 1.0 else 0.0
    ensures CountedSum(perDim, observed, n) == if d < n && Listings(observed, d) >= 2 then 1.0 else 0.0
    ensures DocumentedSum(perDim, observed, n) == if d < n && SharedByTwo(observed, d) then 1.0 else 0.0
  {
    if n > 0 {
      SumsOfIndicator(perDim, observed, d, n - 1);
    }
  }

  /** The sum the code takes is the documented one, whatever the disagreements are. */
  ghost predicate SumsAgree(observed: seq<seq<nat>>, n: nat) {
    forall perDim: seq<real> :: |perDim| == n ==> CountedSum(perDim, observed, n) == DocumentedSum(perDim, observed, n)
  }

  /** And it is so exactly if no role alone lists a dimension twice. */
  lemma SumsAgreeExactly(observed: seq<seq<nat>>, n: nat)
    ensures SumsAgree(observed, n) <==> forall d: nat :: d < n ==> NoLonelyRepeat(observed, d)
  {
    if forall d: nat :: d < n ==> NoLonelyRepeat(observed, d) {
      forall perDim: seq<real> | |perDim| == n
        ensures CountedSum(perDim, observed, n) == DocumentedSum(perDim, observed, n)
      {
        CountedSumIsDocumented(perDim, observed, n);
      }
    } else {
      var d: nat :| d < n && !NoLonelyRepeat(observed, d);
      CountedAsSharedExactly(observed, d);
      ListedOnce(observed, d);
      var perDim := Indicator(n, d);
      SumsOfIndicator(perDim, observed, d, n);
      assert CountedSum(perDim, observed, n) != DocumentedSum(perDim, observed, n);
    }
  }

  /** One role that names the only dimension twice: the code counts it as shared, though nobody else observes it. */
  lemma OneRoleSharesWithItself(name: string)
    ensures var observed := ObservedDims([name], [Named([name, name])]);
            && CountedSum([1.0], observed, 1) == 1.0 && DocumentedSum([1.0], observed, 1) == 0.0
            && !SumsAgree(observed, 1)
  {
    var observed := ObservedDims([name], [Named([name, name])]);
    assert [name, name][1..] == [name] && [name][1..] == [];
    assert KnownIndices([name], []) == [];
    assert KnownIndices([name], [name]) == [0];
    assert KnownIndices([name], [name, name]) == [0, 0];
    assert observed[0] == [0, 0];
    assert observed == [[0, 0]];
    assert [0, 0][..1] == [0] && [0][..0] == [];
    assert Occurrences([0], 0) == 1;
    assert Occurrences([0, 0], 0) == 2;
    assert observed[..0] == [];
    assert Listings(observed, 0) == 2;
    assert |[1.0]| == 1;
  }

  ghost predicate NoRepeats(names: seq<string>) {
    forall i, j :: 0 <= i < j < |names| ==> names[i] != names[j]
  }

  lemma {:induction false} KnownAreNamed(dimensions: seq<string>, names: seq<string>, d: nat)
    requires d in KnownIndices(dimensions, names)
    ensures d < |dimensions| && dimensions[d] in names
  {
    if IndexOf(dimensions, names[0]) == Some(d) {
      assert dimensions[d] == names[0];
    } else {
      KnownAreNamed(dimensions, names[1..], d);
    }
  }

  lemma OccurrencesOfFirst(d: nat, rest: seq<nat>, c: nat)
    ensures Occurrences([d] + rest, c) == (if c == d then 1 else 0) + Occurrences(rest, c)
  {
    if rest == [] {
      assert [d] + rest == [d] && [d][..0] == [];
    } else {
      var last := |rest| - 1;
      assert ([d] + rest)[..last + 1] == [d] + rest[..last];
      OccurrencesOfFirst(d, rest[..last], c);
    }
  }

  /** A role that names no dimension twice lists none twice. */
  lemma {:induction false} NoRepeatedNames(dimensions: seq<string>, names: seq<string>, d: nat)
    requires NoRepeats(names)
    ensures Occurrences(KnownIndices(dimensions, names), d) <= 1
  {
    if names != [] {
      var first := IndexOf(dimensions, names[0]);
      var rest := KnownIndices(dimensions, names[1..]);
      NoRepeatedNames(dimensions, names[1..], d);
      if first.Some? {
        OccurrencesOfFirst(first.value, rest, d);
        OccursExactly(rest, d);
        if d == first.value && d in rest {
          KnownAreNamed(dimensions, names[1..], d);
        }
      }
    }
  }
}
