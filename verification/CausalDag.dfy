/**
 * The content-addressed contributions of one scope (src/causalContributions.ts,
 * src/causalEmit.ts).
 *
 * A rid is the hash of parents, payload and kind. Hashes that do not collide are modelled by the
 * hashed value itself, so a rid contains the rids of its parents and no cycle can be written down.
 */
module CausalDag {
  import opened Options

  datatype Kind = Claim | Contradiction | Resolution | Assessment | Goal | Evidence

  datatype Rid = Rid(parents: seq<Rid>, payload: string, kind: Kind)

  ghost predicate NoDuplicates<T>(s: seq<T>) {
    forall i, j :: 0 <= i < j < |s| ==> s[i] != s[j]
  }

  // ---------------------------------------------------------------------------------------------
  // Rows, frontier, insertion
  // ---------------------------------------------------------------------------------------------

  /** A tip: a row that is no other row's parent. Rows are listed in the order of their insertion. */
  predicate IsTip(rows: seq<Rid>, r: Rid) {
    r in rows && forall c :: c in rows ==> r !in c.parents
  }

  function Frontier(rows: seq<Rid>): set<Rid> {
    set r | r in rows && IsTip(rows, r)
  }

  /** INSERT ... ON CONFLICT (rid) DO NOTHING. */
  function Insert(rows: seq<Rid>, r: Rid): seq<Rid> {
    if r in rows then rows else rows + [r]
  }

  // ---------------------------------------------------------------------------------------------
  // Causal cones
  // ---------------------------------------------------------------------------------------------

  /** x is reached from r by following parent links through stored rows only; a dangling parent leads nowhere. */
  predicate InCone(rows: seq<Rid>, x: Rid, r: Rid)
    decreases r
  {
    r in rows && (x == r || exists p :: p in r.parents && InCone(rows, x, p))
  }

  /** Every stored parent of a listed row is listed before it. */
  ghost predicate ParentsFirst(rows: seq<Rid>, out: seq<Rid>) {
    forall i, p :: 0 <= i < |out| && p in out[i].parents && p in rows ==> p in out[..i]
  }

  /** The cone of a stored row: the rows reached from it, each once, parents first, the row itself last. */
  ghost predicate IsConeOf(rows: seq<Rid>, r: Rid, out: seq<Rid>) {
    && (forall x :: x in out <==> InCone(rows, x, r))
    && NoDuplicates(out)
    && ParentsFirst(rows, out)
    && |out| > 0 && out[|out| - 1] == r
  }

  lemma {:induction false} ConeIsStored(rows: seq<Rid>, x: Rid, r: Rid)
    requires InCone(rows, x, r)
    ensures x in rows
    decreases r
  {
    if x != r {
      var p :| p in r.parents && InCone(rows, x, p);
      ConeIsStored(rows, x, p);
    }
  }

  lemma {:induction false} ParentsFirstCoversCone(rows: seq<Rid>, out: seq<Rid>, x: Rid, r: Rid)
    requires ParentsFirst(rows, out) && r in out && InCone(rows, x, r)
    ensures x in out
    decreases r
  {
    if x != r {
      var p :| p in r.parents && InCone(rows, x, p);
      var i :| 0 <= i < |out| && out[i] == r;
      assert p in out[..i];
      ParentsFirstCoversCone(rows, out, x, p);
    }
  }

  lemma AppendKeepsParentsFirst(rows: seq<Rid>, out: seq<Rid>, r: Rid)
    requires ParentsFirst(rows, out) && forall p :: p in r.parents && p in rows ==> p in out
    ensures ParentsFirst(rows, out + [r])
  {
    forall i, p | 0 <= i < |out + [r]| && p in (out + [r])[i].parents && p in rows
      ensures p in (out + [r])[..i]
    {
      assert (out + [r])[..i] == out[..i];
    }
  }

  /** The depth of nesting of a rid: larger than that of each parent. */
  function Depth(r: Rid): nat {
    1 + MaxDepth(r.parents)
  }

  function MaxDepth(rs: seq<Rid>): nat {
    if rs == [] then 0
    else
      var d := Depth(rs[0]);
      var e := MaxDepth(rs[1..]);
      if d > e then d else e
  }

  lemma {:induction false} ParentDepth(rs: seq<Rid>, p: Rid)
    requires p in rs
    ensures Depth(p) <= MaxDepth(rs)
  {
    if p != rs[0] {
      assert p in rs[1..];
      ParentDepth(rs[1..], p);
    }
  }

  /** The mutable state of one cone query: the `seen` set and the `out` list of its recursive walk. */
  class ConeWalk {
    const rows: seq<Rid>
    var seen: set<Rid>
    var out: seq<Rid>

    constructor (rows: seq<Rid>)
      ensures this.rows == rows && seen == {} && out == []
    {
      this.rows := rows;
      seen, out := {}, [];
    }

    /** Rows the walk has entered but not yet listed: the calls in progress. */
    ghost function Open(): set<Rid>
      reads this
    {
      set r | r in seen && r in rows && r !in out
    }

    ghost predicate Valid()
      reads this
    {
      && NoDuplicates(out)
      && (forall r :: r in out ==> r in seen && r in rows)
      && ParentsFirst(rows, out)
    }

    method Collect(id: Rid)
      requires Valid()
      requires forall g :: g in Open() ==> Depth(g) > Depth(id)
      modifies this
      ensures Valid()
      ensures Open() == old(Open())
      ensures old(out) <= out && old(seen) <= seen
      ensures id in rows ==> id in out
      ensures id in rows && id !in old(seen) ==> out[|out| - 1] == id
      ensures forall k :: |old(out)| <= k < |out| ==> InCone(rows, out[k], id)
      decreases id
    {
      if id in seen {
        assert id !in Open();
        return;
      }
      seen := seen + {id};
      if id in rows {
        var i := 0;
        while i < |id.parents|
          invariant 0 <= i <= |id.parents|
          invariant Valid()
          invariant Open() == old(Open()) + {id}
          invariant old(out) <= out && old(seen) <= seen && id in seen && id !in out
          invariant forall k :: 0 <= k < i && id.parents[k] in rows ==> id.parents[k] in out
          invariant forall k :: |old(out)| <= k < |out| ==> InCone(rows, out[k], id)
        {
          var p := id.parents[i];
          ParentDepth(id.parents, p);
          ghost var before := |out|;
          Collect(p);
          forall k | before <= k < |out|
            ensures InCone(rows, out[k], id)
          {
            assert InCone(rows, out[k], p);
          }
          assert id in Open();
          i := i + 1;
        }
        AppendKeepsParentsFirst(rows, out, id);
        out := out + [id];
      }
      assert Open() == old(Open());
    }
  }

  // ---------------------------------------------------------------------------------------------
  // The table
  // ---------------------------------------------------------------------------------------------

  datatype CreateResult = Created(rid: Rid) | MissingParents(missing: seq<Rid>) | Invalid(error: string)

  class CausalStore {
    var rows: seq<Rid>

    constructor ()
      ensures rows == []
    {
      rows := [];
    }

    method KnownParents(parents: seq<Rid>) returns (missing: seq<Rid>)
      ensures forall p :: p in missing <==> p in parents && p !in rows
    {
      missing := [];
      for i := 0 to |parents|
        invariant forall p :: p in missing <==> p in parents[..i] && p !in rows
      {
        if parents[i] !in rows {
          missing := missing + [parents[i]];
        }
      }
      assert parents[..|parents|] == parents;
    }

    /** The two errors are what the hash and, for known parents, the validation report. */
    method CreateContribution(parents: seq<Rid>, payload: string, kind: Kind, validateParents: bool,
                              hashError: Option<string>, validationError: Option<string>)
      returns (r: CreateResult)
      modifies this
      ensures r.MissingParents? <==> hashError.None? && validateParents && exists p :: p in parents && p !in old(rows)
      ensures r.MissingParents? ==> forall p :: p in r.missing <==> p in parents && p !in rows
      ensures r.Invalid? <==>
                || hashError.Some?
                || (validateParents && parents != [] && validationError.Some?
                    && forall p :: p in parents ==> p in old(rows))
      ensures r.Created? ==> r.rid == Rid(parents, payload, kind)
      ensures rows == if r.Created? then Insert(old(rows), r.rid) else old(rows)
    {
      if hashError.Some? {
        return Invalid(hashError.value);
      }
      if validateParents && |parents| > 0 {
        var missing := KnownParents(parents);
        if |missing| > 0 {
          assert missing[0] in missing;
          return MissingParents(missing);
        }
        assert forall p :: p in parents ==> p !in missing;
        if validationError.Some? {
          return Invalid(validationError.value);
        }
      }
      r := Created(Rid(parents, payload, kind));
      if r.rid !in rows {
        rows := rows + [r.rid];
      }
    }

    method GetFrontier() returns (tips: seq<Rid>)
      requires NoDuplicates(rows)
      ensures NoDuplicates(tips)
      ensures forall r :: r in tips <==> r in Frontier(rows)
    {
      tips := [];
      for i := 0 to |rows|
        invariant NoDuplicates(tips)
        invariant forall r :: r in tips <==> r in rows[..i] && IsTip(rows, r)
      {
        if forall c :: c in rows ==> rows[i] !in c.parents {
          assert rows[i] !in rows[..i];
          tips := tips + [rows[i]];
        }
      }
      assert rows[..|rows|] == rows;
    }

    /**
     * The two steps of an emit, with no other emit in between. Explicit parents replace the frontier;
     * a frontier that cannot be read counts as empty; a failed insert is logged and swallowed.
     */
    method EmitContribution(payload: string, kind: Kind, explicit: seq<Rid>, frontierFails: bool,
                            hashError: Option<string>, insertFails: bool) returns (rid: Option<Rid>)
      requires NoDuplicates(rows)
      modifies this
      ensures rid.None? <==> hashError.Some? || insertFails
      ensures rid.Some? ==> rid.value.payload == payload && rid.value.kind == kind
      ensures rid.Some? && explicit != [] ==> rid.value.parents == explicit
      ensures rid.Some? && explicit == [] && frontierFails ==> rid.value.parents == []
      ensures rid.Some? && explicit == [] && !frontierFails ==>
                NoDuplicates(rid.value.parents) && forall p :: p in rid.value.parents <==> p in Frontier(old(rows))
      ensures rows == (if rid.Some? then Insert(old(rows), rid.value) else old(rows)) && NoDuplicates(rows)
    {
      var parents := explicit;
      if |parents| == 0 {
        if !frontierFails {
          parents := GetFrontier();
        }
      }
      if insertFails {
        return None;
      }
      var r := CreateContribution(parents, payload, kind, false, hashError, None);
      rid := if r.Created? then Some(r.rid) else None;
    }

    method GetCausalCone(rid: Rid) returns (cone: seq<Rid>)
      ensures rid !in rows ==> cone == []
      ensures rid in rows ==> IsConeOf(rows, rid, cone)
    {
      if rid !in rows {
        return [];
      }
      var walk := new ConeWalk(rows);
      walk.Collect(rid);
      cone := walk.out;
      forall x | InCone(rows, x, rid)
        ensures x in cone
      {
        ParentsFirstCoversCone(rows, cone, x, rid);
      }
    }
  }
}
