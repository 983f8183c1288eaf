/**
 * Syncs of one scope that overlap (src/factsToSemanticGraph.ts). A sync runs in a transaction that
 * takes no lock and sets no isolation level (src/db.ts): it reads the contradictions once, and what it
 * appends becomes visible to others when it commits. At most k syncs are open at once.
 */
module FactsOverlap {
  import opened Options
  import opened FactsSpec
  import opened FactsPhases
  import opened Sets

  /** The committed nodes, and what each open sync has read of them. */
  datatype Sys = Sys(nodes: seq<GNode>, open: map<nat, seq<GNode>>)

  const EMPTY: Sys := Sys([], map[])

  datatype Event =
    | ReadNodes(sync: nat)
    | CommitSync(sync: nat, env: Env, resolvedRows: seq<string>, strs: seq<string>)

  /** What the database and the settings answer may change from sync to sync. */
  ghost predicate Enabled(base: Env, k: nat, s: Sys, e: Event) {
    match e
    case ReadNodes(id) => id !in s.open && |s.open| < k
    case CommitSync(id, env, _, _) => id in s.open && SameKeys(base, env)
  }

  /** The contradictions of one sync, decided on the graph it read and applied to the graph that is there. */
  ghost function Committed(env: Env, resolvedRows: seq<string>, strs: seq<string>, read: seq<GNode>,
                           now: seq<GNode>): seq<GNode> {
    seq(|now|, i requires 0 <= i < |now| => Reactivated(now[i], ReferredBy(env, resolvedRows, strs, |strs|, read, i)))
    + NewContradictions(env, resolvedRows, strs, |strs|, read)
  }

  ghost function Apply(s: Sys, e: Event): Sys
    requires e.CommitSync? ==> e.sync in s.open
  {
    match e
    case ReadNodes(id) => s.(open := s.open[id := s.nodes])
    case CommitSync(id, env, rows, strs) => Sys(Committed(env, rows, strs, s.open[id], s.nodes), s.open - {id})
  }

  ghost predicate ValidRun(base: Env, k: nat, s: Sys, es: seq<Event>)
    decreases |es|
  {
    es == [] || (Enabled(base, k, s, es[0]) && ValidRun(base, k, Apply(s, es[0]), es[1..]))
  }

  ghost function Run(base: Env, k: nat, s: Sys, es: seq<Event>): Sys
    requires ValidRun(base, k, s, es)
    decreases |es|
  {
    if es == [] then s else Run(base, k, Apply(s, es[0]), es[1..])
  }

  /** In every run the pair keys stay pairwise different. */
  ghost predicate KeysSafe(base: Env, k: nat) {
    forall es :: ValidRun(base, k, EMPTY, es) ==> DistinctPairKeys(base, Run(base, k, EMPTY, es).nodes)
  }

  // ---------------------------------------------------------------------------------------------
  // One sync at a time
  // ---------------------------------------------------------------------------------------------

  /** What the one open sync has read is still what is there. */
  ghost predicate SerialInv(base: Env, s: Sys) {
    && DistinctPairKeys(base, s.nodes) && |s.open| <= 1
    && forall id :: id in s.open ==> s.open[id] == s.nodes
  }

  lemma CommittedAlone(env: Env, rows: seq<string>, strs: seq<string>, nodes: seq<GNode>)
    ensures Committed(env, rows, strs, nodes, nodes) == ContradictionsAfter(env, rows, strs, |strs|, nodes)
  {
    var a, b := Committed(env, rows, strs, nodes, nodes), ContradictionsAfter(env, rows, strs, |strs|, nodes);
    assert a[..|nodes|] == b[..|nodes|];
    assert a[|nodes|..] == b[|nodes|..];
    SplitAtEnd(nodes, a[..|nodes|], a[|nodes|..], a);
    SplitAtEnd(nodes, b[..|nodes|], b[|nodes|..], b);
  }

  lemma SerialStep(base: Env, k: nat, s: Sys, e: Event)
    requires k <= 1 && SerialInv(base, s) && Enabled(base, k, s, e)
    ensures SerialInv(base, Apply(s, e))
  {
    match e {
      case ReadNodes(id) =>
        assert s.open.Keys == {};
      case CommitSync(id, env, rows, strs) =>
        SameKeysSameDistinct(base, env, s.nodes);
        CommittedAlone(env, rows, strs, s.nodes);
        ContradictionsKeepKeys(env, rows, strs, |strs|, s.nodes);
        SameKeysSameDistinct(base, env, Apply(s, e).nodes);
        if j :| j in s.open && j != id {
          SubsetSize({j, id}, s.open.Keys);
        }
        assert s.open.Keys == {id};
        assert s.open - {id} == map[];
    }
  }

  lemma {:induction false} SerialRun(base: Env, k: nat, s: Sys, es: seq<Event>)
    requires k <= 1 && SerialInv(base, s) && ValidRun(base, k, s, es)
    ensures SerialInv(base, Run(base, k, s, es))
    decreases |es|
  {
    if es != [] {
      SerialStep(base, k, s, es[0]);
      SerialRun(base, k, Apply(s, es[0]), es[1..]);
    }
  }

  // ---------------------------------------------------------------------------------------------
  // Two syncs at a time
  // ---------------------------------------------------------------------------------------------

  lemma {:induction false} RunAppend(base: Env, k: nat, s: Sys, es: seq<Event>, e: Event)
    requires ValidRun(base, k, s, es) && Enabled(base, k, Run(base, k, s, es), e)
    ensures ValidRun(base, k, s, es + [e]) && Run(base, k, s, es + [e]) == Apply(Run(base, k, s, es), e)
    decreases |es|
  {
    if es != [] {
      RunAppend(base, k, Apply(s, es[0]), es[1..], e);
      assert (es + [e])[1..] == es[1..] + [e];
    }
  }

  /** Nothing is known to be resolved. */
  function NothingResolved(base: Env): Env {
    base.(embeddingResolved := s => false)
  }

  lemma NewPairIsAppended(base: Env, s: string, now: seq<GNode>)
    requires Trim(s) != []
    ensures Committed(NothingResolved(base), [], [s], [], now) == now + [NewContradiction(s)]
  {
    var env := NothingResolved(base);
    assert Processed(env, [], [s], 0);
    assert NewContradictions(env, [], [s], 0, []) == [];
    assert NewContradictions(env, [], [s], 1, []) == [NewContradiction(s)];
    forall i | 0 <= i < |now|
      ensures Committed(env, [], [s], [], now)[i] == now[i]
    {
      assert !ReferredBy(env, [], [s], 1, [], i);
    }
  }

  lemma TwoSyncsRead(base: Env, k: nat)
    requires k >= 2
    ensures ValidRun(base, k, EMPTY, [ReadNodes(0), ReadNodes(1)])
    ensures Run(base, k, EMPTY, [ReadNodes(0), ReadNodes(1)]) == Sys([], map[0 := [], 1 := []])
  {
    RunAppend(base, k, EMPTY, [], ReadNodes(0));
    RunAppend(base, k, EMPTY, [ReadNodes(0)], ReadNodes(1));
    assert [] + [ReadNodes(0)] == [ReadNodes(0)];
    assert [ReadNodes(0)] + [ReadNodes(1)] == [ReadNodes(0), ReadNodes(1)];
  }

  /** Both syncs read the empty graph, and both append the same pair. */
  lemma TwoSyncsRepeatKey(base: Env, k: nat, s: string) returns (es: seq<Event>)
    requires k >= 2 && Trim(s) != []
    ensures ValidRun(base, k, EMPTY, es)
    ensures Run(base, k, EMPTY, es).nodes == [NewContradiction(s), NewContradiction(s)]
  {
    var env := NothingResolved(base);
    var read := [ReadNodes(0), ReadNodes(1)];
    var first, second := CommitSync(0, env, [], [s]), CommitSync(1, env, [], [s]);
    TwoSyncsRead(base, k);
    NewPairIsAppended(base, s, []);
    RunAppend(base, k, EMPTY, read, first);
    NewPairIsAppended(base, s, [NewContradiction(s)]);
    RunAppend(base, k, EMPTY, read + [first], second);
    es := read + [first] + [second];
    assert [NewContradiction(s)] + [NewContradiction(s)] == [NewContradiction(s), NewContradiction(s)];
  }

  // ---------------------------------------------------------------------------------------------
  // Exactly when keys stay distinct
  // ---------------------------------------------------------------------------------------------

  ghost predicate HasNoKeys(base: Env, nodes: seq<GNode>) {
    forall i :: 0 <= i < |nodes| ==> PairKey(base, nodes[i].content).None?
  }

  lemma NewIsNotBlank(env: Env, rows: seq<string>, strs: seq<string>, read: seq<GNode>, n: GNode) returns (s: string)
    requires n in NewContradictions(env, rows, strs, |strs|, read)
    ensures Trim(s) != [] && n == NewContradiction(s)
  {
    NewContradictionsExactly(env, rows, strs, |strs|, read, n);
    var c :| 0 <= c < |strs| && Processed(env, rows, strs, c) && n == NewContradiction(strs[c]);
    s := strs[c];
  }

  lemma CommitWithoutKeys(base: Env, env: Env, rows: seq<string>, strs: seq<string>, read: seq<GNode>, now: seq<GNode>)
    requires SameKeys(base, env) && HasNoKeys(base, now)
    requires forall s :: Trim(s) != [] ==> PairKey(base, s).None?
    ensures HasNoKeys(base, Committed(env, rows, strs, read, now))
  {
    var next := Committed(env, rows, strs, read, now);
    forall i | 0 <= i < |next|
      ensures PairKey(base, next[i].content).None?
    {
      if i < |now| {
        assert next[i].content == now[i].content;
      } else {
        assert next[i] in NewContradictions(env, rows, strs, |strs|, read);
        var s := NewIsNotBlank(env, rows, strs, read, next[i]);
        TrimTwice(s);
      }
    }
  }

  lemma {:induction false} RunWithoutKeys(base: Env, k: nat, s: Sys, es: seq<Event>)
    requires ValidRun(base, k, s, es) && HasNoKeys(base, s.nodes)
    requires forall c :: Trim(c) != [] ==> PairKey(base, c).None?
    ensures HasNoKeys(base, Run(base, k, s, es).nodes)
    decreases |es|
  {
    if es != [] {
      if es[0].CommitSync? {
        CommitWithoutKeys(base, es[0].env, es[0].resolvedRows, es[0].strs, s.open[es[0].sync], s.nodes);
      }
      RunWithoutKeys(base, k, Apply(s, es[0]), es[1..]);
    }
  }

  /** Pair keys stay distinct in every run exactly when syncs of a scope do not overlap, or there are no keys. */
  lemma KeysSafeExactly(base: Env, k: nat)
    ensures KeysSafe(base, k) <==> k <= 1 || forall s :: Trim(s) != [] ==> PairKey(base, s).None?
  {
    if k <= 1 || forall s :: Trim(s) != [] ==> PairKey(base, s).None? {
      forall es | ValidRun(base, k, EMPTY, es)
        ensures DistinctPairKeys(base, Run(base, k, EMPTY, es).nodes)
      {
        if k <= 1 {
          SerialRun(base, k, EMPTY, es);
        } else {
          RunWithoutKeys(base, k, EMPTY, es);
        }
      }
    } else {
      var s :| Trim(s) != [] && PairKey(base, s).Some?;
      var es := TwoSyncsRepeatKey(base, k, s);
      TrimTwice(s);
      var nodes := Run(base, k, EMPTY, es).nodes;
      assert IsFact(nodes[0], Contradiction) && IsFact(nodes[1], Contradiction);
      assert !DistinctPairKeys(base, nodes);
    }
  }
}
