/**
 * The flat layout of per-role evidence (src/evidenceStateManager.ts): for each role its support, then
 * its refutation, numDims entries each.
 */
module Evidence {

  datatype PerRole = PerRole(role: string, support: seq<real>, refutation: seq<real>)

  /** xs[d] ?? 0 */
  function EntryAt(xs: seq<real>, d: nat): real {
    if d < |xs| then xs[d] else 0.0
  }

  /** The first n entries, missing ones zero. */
  function Fitted(xs: seq<real>, n: nat): (r: seq<real>)
    ensures |r| == n && forall d :: 0 <= d < n ==> r[d] == EntryAt(xs, d)
  {
    seq(n, d requires 0 <= d < n => EntryAt(xs, d))
  }

  function Block(role: PerRole, n: nat): (r: seq<real>)
    ensures |r| == 2 * n
  {
    Fitted(role.support, n) + Fitted(role.refutation, n)
  }

  function Flat(roles: seq<PerRole>, n: nat): seq<real> {
    if roles == [] then [] else Block(roles[0], n) + Flat(roles[1..], n)
  }

  method BuildFlatState(perRole: seq<PerRole>, numDims: nat) returns (flat: seq<real>)
    ensures flat == Flat(perRole, numDims)
  {
    flat := [];
    for i := 0 to |perRole|
      invariant flat + Flat(perRole[i..], numDims) == Flat(perRole, numDims)
    {
      ghost var before := flat;
      var role := perRole[i];
      for d := 0 to numDims
        invariant flat == before + Fitted(role.support, numDims)[..d]
      {
        flat := flat + [EntryAt(role.support, d)];
      }
      for d := 0 to numDims
        invariant flat == before + Fitted(role.support, numDims) + Fitted(role.refutation, numDims)[..d]
      {
        flat := flat + [EntryAt(role.refutation, d)];
      }
      NextBlock(before, perRole[i..], numDims);
      assert perRole[i..][1..] == perRole[i + 1..];
      assert flat == before + Block(role, numDims);
    }
  }

  lemma NextBlock(before: seq<real>, roles: seq<PerRole>, n: nat)
    requires roles != []
    ensures before + Flat(roles, n) == (before + Block(roles[0], n)) + Flat(roles[1..], n)
  {
  }

  /** slice, which stays within the array. */
  function Slice(xs: seq<real>, lo: nat, hi: nat): seq<real>
    requires lo <= hi
  {
    if |xs| <= lo then [] else if |xs| <= hi then xs[lo..] else xs[lo..hi]
  }

  function RoleAt(flat: seq<real>, role: string, n: nat, offset: nat): PerRole {
    PerRole(role, Slice(flat, offset, offset + n), Slice(flat, offset + n, offset + 2 * n))
  }

  /** The slices from role i on. */
  function PerRoleFrom(flat: seq<real>, roles: seq<string>, n: nat, i: nat): seq<PerRole>
    requires i <= |roles|
    decreases |roles| - i
  {
    if i == |roles| then [] else [RoleAt(flat, roles[i], n, i * (2 * n))] + PerRoleFrom(flat, roles, n, i + 1)
  }

  function FlatToPerRole(flat: seq<real>, roles: seq<string>, n: nat): seq<PerRole> {
    PerRoleFrom(flat, roles, n, 0)
  }

  function NamesOf(roles: seq<PerRole>): (r: seq<string>)
    ensures |r| == |roles| && forall i :: 0 <= i < |roles| ==> r[i] == roles[i].role
  {
    seq(|roles|, i requires 0 <= i < |roles| => roles[i].role)
  }

  // ---------------------------------------------------------------------------------------------
  // The two directions undo each other
  // ---------------------------------------------------------------------------------------------

  predicate WellSized(roles: seq<PerRole>, n: nat) {
    forall i :: 0 <= i < |roles| ==> |roles[i].support| == n && |roles[i].refutation| == n
  }

  lemma FittedIsIdentity(xs: seq<real>, n: nat)
    ensures Fitted(xs, n) == xs <==> |xs| == n
  {
    if |xs| == n {
      assert Fitted(xs, n) == xs;
    }
  }

  lemma OffsetsAddUp(i: nat, n: nat)
    ensures (i + 1) * (2 * n) == i * (2 * n) + 2 * n
  {
  }

  lemma {:induction false} FlatLength(roles: seq<PerRole>, n: nat)
    ensures |Flat(roles, n)| == |roles| * (2 * n)
  {
    if roles != [] {
      FlatLength(roles[1..], n);
      OffsetsAddUp(|roles| - 1, n);
    }
  }

  /** What the slices of a flat state are: the fitted vectors. */
  function FittedRole(role: PerRole, n: nat): PerRole {
    PerRole(role.role, Fitted(role.support, n), Fitted(role.refutation, n))
  }

  lemma BlockSlices(before: seq<real>, block: seq<real>, later: seq<real>, n: nat)
    requires |block| == 2 * n
    ensures Slice(before + (block + later), |before|, |before| + n) == block[..n]
    ensures Slice(before + (block + later), |before| + n, |before| + 2 * n) == block[n..]
  {
    var flat := before + (block + later);
    assert flat[|before|..|before| + n] == block[..n];
    assert flat[|before| + n..|before| + 2 * n] == block[n..];
    assert n == 0 || |flat| > |before| + n;
    assert |flat| == |before| + n ==> flat[|before|..] == block[..n];
    assert |flat| == |before| + 2 * n ==> flat[|before| + n..] == block[n..];
  }

  lemma {:induction false} SlicesAreFitted(before: seq<real>, roles: seq<PerRole>, n: nat, i: nat, k: nat)
    requires i <= |roles| && |before| == i * (2 * n) && i <= k < |roles|
    ensures var parsed := PerRoleFrom(before + Flat(roles[i..], n), NamesOf(roles), n, i);
            |parsed| == |roles| - i && parsed[k - i] == FittedRole(roles[k], n)
    decreases |roles| - i
  {
    var block, later := Block(roles[i], n), Flat(roles[i + 1..], n);
    assert roles[i..][1..] == roles[i + 1..];
    BlockSlices(before, block, later, n);
    OffsetsAddUp(i, n);
    NextBlock(before, roles[i..], n);
    if i < k {
      SlicesAreFitted(before + block, roles, n, i + 1, k);
    } else {
      ParsedLength(before + Flat(roles[i..], n), NamesOf(roles), n, i);
    }
  }

  lemma {:induction false} ParsedLength(flat: seq<real>, names: seq<string>, n: nat, i: nat)
    requires i <= |names|
    ensures |PerRoleFrom(flat, names, n, i)| == |names| - i
    decreases |names| - i
  {
    if i < |names| {
      ParsedLength(flat, names, n, i + 1);
    }
  }

  /** Parsing a flat state gives back every role with its vectors cut or zero-filled to numDims. */
  lemma FlatIsParsed(roles: seq<PerRole>, n: nat)
    ensures var parsed := FlatToPerRole(Flat(roles, n), NamesOf(roles), n);
            |parsed| == |roles| && forall k :: 0 <= k < |roles| ==> parsed[k] == FittedRole(roles[k], n)
  {
    assert roles[0..] == roles && [] + Flat(roles, n) == Flat(roles, n);
    ParsedLength(Flat(roles, n), NamesOf(roles), n, 0);
    forall k | 0 <= k < |roles|
      ensures FlatToPerRole(Flat(roles, n), NamesOf(roles), n)[k] == FittedRole(roles[k], n)
    {
      SlicesAreFitted([], roles, n, 0, k);
    }
  }

  /** So the evidence survives the flat form exactly when every vector has numDims entries. */
  lemma EvidenceSurvivesExactly(roles: seq<PerRole>, n: nat)
    ensures FlatToPerRole(Flat(roles, n), NamesOf(roles), n) == roles <==> WellSized(roles, n)
  {
    FlatIsParsed(roles, n);
    forall k | 0 <= k < |roles|
      ensures FittedRole(roles[k], n) == roles[k] <==> |roles[k].support| == n && |roles[k].refutation| == n
    {
      FittedIsIdentity(roles[k].support, n);
      FittedIsIdentity(roles[k].refutation, n);
    }
  }

  lemma SlicesMakeBlock(flat: seq<real>, name: string, offset: nat, n: nat)
    requires offset + 2 * n <= |flat|
    ensures Block(RoleAt(flat, name, n, offset), n) == flat[offset..offset + 2 * n]
  {
    var support, refutation := flat[offset..offset + n], flat[offset + n..offset + 2 * n];
    assert Slice(flat, offset, offset + n) == support && Slice(flat, offset + n, offset + 2 * n) == refutation;
    FittedIsIdentity(support, n);
    FittedIsIdentity(refutation, n);
  }

  lemma FlatOfFirst(flat: seq<real>, role: PerRole, later: seq<PerRole>, n: nat, offset: nat)
    requires offset + 2 * n <= |flat|
    requires Block(role, n) == flat[offset..offset + 2 * n] && Flat(later, n) == flat[offset + 2 * n..]
    ensures Flat([role] + later, n) == flat[offset..]
  {
    assert ([role] + later)[1..] == later;
  }

  lemma {:induction false} ParsedIsFlat(flat: seq<real>, names: seq<string>, n: nat, i: nat, offset: nat)
    requires i <= |names| && |flat| == |names| * (2 * n) && offset == i * (2 * n) && offset <= |flat|
    ensures Flat(PerRoleFrom(flat, names, n, i), n) == flat[offset..]
    decreases |names| - i
  {
    if i < |names| {
      OffsetsAddUp(i, n);
      RoomForRole(i, |names|, n);
      ParsedIsFlat(flat, names, n, i + 1, offset + 2 * n);
      SlicesMakeBlock(flat, names[i], offset, n);
      FlatOfFirst(flat, RoleAt(flat, names[i], n, offset), PerRoleFrom(flat, names, n, i + 1), n, offset);
    }
  }

  lemma {:induction false} ProductsGrow(i: nat, j: nat, width: nat)
    requires i <= j
    ensures i * width <= j * width
  {
    if i < j {
      ProductsGrow(i, j - 1, width);
      assert j * width == (j - 1) * width + width;
    }
  }

  lemma RoomForRole(i: nat, count: nat, n: nat)
    requires i < count
    ensures i * (2 * n) + 2 * n <= count * (2 * n)
  {
    OffsetsAddUp(i, n);
    ProductsGrow(i + 1, count, 2 * n);
  }

  /** And a flat state survives the per-role form exactly when it has 2 * numDims entries for each role name. */
  lemma FlatSurvivesExactly(flat: seq<real>, names: seq<string>, n: nat)
    ensures Flat(FlatToPerRole(flat, names, n), n) == flat <==> |flat| == |names| * (2 * n)
  {
    ParsedLength(flat, names, n, 0);
    FlatLength(FlatToPerRole(flat, names, n), n);
    if |flat| == |names| * (2 * n) {
      ParsedIsFlat(flat, names, n, 0, 0);
      assert flat[0..] == flat;
    }
  }
}
