/**
 * Who observes a dimension, in terms of the configuration, and which dimensions then count as shared
 * (src/propagationEngine.ts).
 */
module Observers {
  import opened Options
  import opened Observation

  /** A role observes all dimensions, or those it names; of equal dimension names the first one counts. */
  predicate RoleObserves(dimensions: seq<string>, primary: PrimaryDims, d: nat) {
    && d < |dimensions|
    && match primary
       case All => true
       case Named(names) => dimensions[d] in names && dimensions[d] !in dimensions[..d]
  }

  /** How often the role lists a dimension it observes. */
  function Times(dimensions: seq<string>, primary: PrimaryDims, d: nat): nat
    requires d < |dimensions|
  {
    match primary
    case All => 1
    case Named(names) => |set q: nat | q < |names| && names[q] == dimensions[d]|
  }

  lemma {:induction false} IndexIsFirst(dimensions: seq<string>, name: string, d: nat)
    ensures IndexOf(dimensions, name) == Some(d)
            <==> d < |dimensions| && dimensions[d] == name && name !in dimensions[..d]
  {
    if dimensions != [] {
      if dimensions[0] == name {
        assert d > 0 && d < |dimensions| ==> dimensions[..d][0] == name;
      } else if 0 < d < |dimensions| {
        IndexIsFirst(dimensions[1..], name, d - 1);
        assert dimensions[..d] == [dimensions[0]] + dimensions[1..][..d - 1];
      }
    }
  }

  function Positions(names: seq<string>, name: string): set<nat> {
    set q: nat | q < |names| && names[q] == name
  }

  function Shift(s: set<nat>): set<nat> {
    set q | q in s :: q + 1
  }

  lemma {:induction false} ShiftSize(s: set<nat>)
    ensures |Shift(s)| == |s|
    decreases |s|
  {
    if s == {} {
      assert Shift(s) == {};
    } else {
      var q :| q in s;
      ShiftSize(s - {q});
      var rest := Shift(s - {q});
      forall x
        ensures x in Shift(s) <==> x in rest + {q + 1}
      {
        if x in Shift(s) {
          var y :| y in s && x == y + 1;
          assert y != q ==> y in s - {q};
        }
      }
      assert Shift(s) == rest + {q + 1};
      assert q + 1 !in rest;
    }
  }

  lemma PositionsOfFirst(names: seq<string>, name: string)
    requires names != []
    ensures |Positions(names, name)| == (if names[0] == name then 1 else 0) + |Positions(names[1..], name)|
  {
    var later := Shift(Positions(names[1..], name));
    ShiftSize(Positions(names[1..], name));
    assert forall q: nat :: q in Positions(names, name) && q > 0 ==> q - 1 in Positions(names[1..], name);
    assert Positions(names, name) == later + if names[0] == name then {0} else {};
  }

  lemma {:induction false} KnownOccur(dimensions: seq<string>, names: seq<string>, d: nat)
    ensures Occurrences(KnownIndices(dimensions, names), d)
            == if d < |dimensions| && dimensions[d] !in dimensions[..d] then |Positions(names, dimensions[d])| else 0
  {
    if names == [] {
      assert d < |dimensions| ==> Positions(names, dimensions[d]) == {};
    } else {
      KnownOccur(dimensions, names[1..], d);
      IndexIsFirst(dimensions, names[0], d);
      var first := IndexOf(dimensions, names[0]);
      if first.Some? {
        OccurrencesOfFirst(first.value, KnownIndices(dimensions, names[1..]), d);
      }
      if d < |dimensions| {
        PositionsOfFirst(names, dimensions[d]);
      }
    }
  }

  lemma {:induction false} AllOccur(n: nat, d: nat)
    ensures Occurrences(FirstIndices(n), d) == if d < n then 1 else 0
  {
    if n > 0 {
      AllOccur(n - 1, d);
      assert FirstIndices(n)[..n - 1] == FirstIndices(n - 1);
    }
  }

  lemma SomePosition(names: seq<string>, name: string)
    ensures |Positions(names, name)| > 0 <==> name in names
  {
    if name in names {
      var q :| 0 <= q < |names| && names[q] == name;
      assert q in Positions(names, name);
    }
  }

  /** What a role lists: what it observes, a named dimension as often as it names it. */
  lemma ListedExactly(dimensions: seq<string>, primary: PrimaryDims, d: nat)
    ensures Occurrences(ObservedBy(dimensions, primary), d)
            == if RoleObserves(dimensions, primary, d) then Times(dimensions, primary, d) else 0
    ensures d in ObservedBy(dimensions, primary) <==> RoleObserves(dimensions, primary, d)
  {
    OccursExactly(ObservedBy(dimensions, primary), d);
    match primary {
      case All => AllOccur(|dimensions|, d);
      case Named(names) =>
        KnownOccur(dimensions, names, d);
        if d < |dimensions| {
          SomePosition(names, dimensions[d]);
          assert Times(dimensions, primary, d) == |Positions(names, dimensions[d])|;
        }
    }
  }

  /** Two roles observe the dimension, or one lists it twice. */
  ghost predicate CountsAsShared(dimensions: seq<string>, primary: seq<PrimaryDims>, d: nat) {
    || (exists q, r :: 0 <= q < r < |primary|
                       && RoleObserves(dimensions, primary[q], d) && RoleObserves(dimensions, primary[r], d))
    || (exists r :: 0 <= r < |primary| && RoleObserves(dimensions, primary[r], d)
                    && Times(dimensions, primary[r], d) >= 2)
  }

  lemma CountedExactly(dimensions: seq<string>, primary: seq<PrimaryDims>, d: nat)
    ensures Listings(ObservedDims(dimensions, primary), d) >= 2 <==> CountsAsShared(dimensions, primary, d)
  {
    var observed := ObservedDims(dimensions, primary);
    ListedOnce(observed, d);
    forall r | 0 <= r < |primary|
      ensures d in observed[r] <==> RoleObserves(dimensions, primary[r], d)
      ensures Occurrences(observed[r], d) >= 2
              <==> RoleObserves(dimensions, primary[r], d) && Times(dimensions, primary[r], d) >= 2
      ensures Occurrences(observed[r], d) >= 2 ==> Listings(observed, d) >= 2
    {
      ListedExactly(dimensions, primary[r], d);
      ListingsAtLeast(observed, d, r);
    }
  }

  /** The disagreements of the dimensions that count as shared. */
  ghost function SharedSum(perDim: seq<real>, dimensions: seq<string>, primary: seq<PrimaryDims>, n: nat): real
    requires n <= |perDim|
  {
    if n == 0 then 0.0
    else
      SharedSum(perDim, dimensions, primary, n - 1)
      + (if CountsAsShared(dimensions, primary, n - 1) then perDim[n - 1] else 0.0)
  }

  lemma {:induction false} CountedSumIsShared(perDim: seq<real>, dimensions: seq<string>, primary: seq<PrimaryDims>,
                                              n: nat)
    requires n <= |perDim|
    ensures CountedSum(perDim, ObservedDims(dimensions, primary), n) == SharedSum(perDim, dimensions, primary, n)
  {
    if n > 0 {
      CountedSumIsShared(perDim, dimensions, primary, n - 1);
      CountedExactly(dimensions, primary, n - 1);
    }
  }
}
