/**
 * Which goals, risks and contradictions the texts of a batch refer to, in terms of the rows found and
 * of the lookups' answers alone (src/factsToSemanticGraph.ts).
 */
module FactsReferences {
  import opened Options
  import opened FactsSpec
  import opened FactsPhases
  import opened FactsNodes
  import opened FactsMatching

  // ---------------------------------------------------------------------------------------------
  // Goals and risks
  // ---------------------------------------------------------------------------------------------

  function TextsOf(f: Facts, t: NodeType): seq<string> {
    match t
    case Goal => f.goals
    case Risk => f.risks
    case _ => []
  }

  /** A goal or risk of the batch makes the node active that the matcher answers, or becomes a new node. */
  lemma ItemIsActiveOrNew(env: Env, f: Facts, rows: seq<string>, pre: seq<GNode>, t: NodeType, q: nat)
    requires t == Goal || t == Risk
    requires q < |TextsOf(f, t)| && Trim(TextsOf(f, t)[q]) != []
    ensures var text, post := Trim(env.canonText(TextsOf(f, t)[q])), SyncedGraph(env, f, rows, pre);
            && (forall i: nat :: Answers(env, pre, t, text, i) ==>
                  i < |pre| && i < |post| && post[i] == pre[i].(status := Active))
            && ((forall i: nat :: !Answers(env, pre, t, text, i)) ==>
                  GNode(t, text, 1.0, Active, true, None, true) in post)
  {
    var text := Trim(env.canonText(TextsOf(f, t)[q]));
    forall i: nat | Answers(env, pre, t, text, i)
      ensures i < |pre| && i < |SyncedGraph(env, f, rows, pre)|
      ensures SyncedGraph(env, f, rows, pre)[i] == pre[i].(status := Active)
    {
      AnswersExactly(env, pre, t, text, i);
      assert Names(env, pre, t, TextsOf(f, t), q, Some(i));
      if t == Goal {
        SyncedGoal(env, f, rows, pre, i);
      } else {
        SyncedRisk(env, f, rows, pre, i);
      }
    }
    var r := ByText(env, pre, t, text);
    if r.Some? {
      AnswersExactly(env, pre, t, text, r.value);
    } else if t == Goal {
      GoalIsKept(env, f, rows, pre, q);
    } else {
      RiskIsKept(env, f, rows, pre, q);
    }
  }

  // ---------------------------------------------------------------------------------------------
  // Contradictions
  // ---------------------------------------------------------------------------------------------

  /**
   * One of the resolved checks recognises the string: by pair key, by its lowercased text, by shared
   * words, or by embedding.
   */
  ghost predicate Recognised(env: Env, rows: seq<string>, s: string) {
    || (exists k :: 0 <= k < |rows|
                    && var r := Trim(env.lower(rows[k]));
                       || (env.trimmedPairKey(Trim(s)).Some?
                           && env.trimmedPairKey(Trim(r)) == env.trimmedPairKey(Trim(s)))
                       || env.lower(Trim(s)) == r
                       || env.overlap(env.lower(Trim(s)), r) >= 0.55)
    || env.embeddingResolved(Trim(s))
  }

  lemma RecognisedExactly(env: Env, rows: seq<string>, s: string)
    ensures MatchesResolved(env, rows, s) <==> Recognised(env, rows, s)
  {
    var rs := ResolvedTexts(env, rows);
    forall k | 0 <= k < |rows|
      ensures rs[k] == Trim(env.lower(rows[k])) && rs[k] in rs
    {
    }
    assert forall r :: r in rs <==> exists k :: 0 <= k < |rows| && rs[k] == r;
  }

  /** The string is not blank, no earlier one of the batch has its pair key, and no check recognises it. */
  ghost predicate IsLookedAt(env: Env, rows: seq<string>, strs: seq<string>, c: nat) {
    && c < |strs| && Trim(strs[c]) != [] && !Recognised(env, rows, strs[c])
    && (env.trimmedPairKey(Trim(strs[c])).Some? ==>
          forall b :: 0 <= b < c && Trim(strs[b]) != [] ==>
            env.trimmedPairKey(Trim(strs[b])) != env.trimmedPairKey(Trim(strs[c])))
  }

  lemma LookedAtExactly(env: Env, rows: seq<string>, strs: seq<string>, c: nat)
    requires c < |strs|
    ensures Processed(env, rows, strs, c) <==> IsLookedAt(env, rows, strs, c)
  {
    RecognisedExactly(env, rows, strs[c]);
  }

  /** A facts-sync contradiction of the current view with the pair key of the string. */
  predicate SharesKey(env: Env, n: GNode, s: string) {
    && n.nodeType == Contradiction && n.factsSync && n.current
    && env.trimmedPairKey(Trim(s)).Some? && env.trimmedPairKey(Trim(n.content)) == env.trimmedPairKey(Trim(s))
  }

  ghost predicate FirstToShare(env: Env, pre: seq<GNode>, s: string, i: nat) {
    i < |pre| && SharesKey(env, pre[i], s)
    && exists k :: 0 <= k < |FactIds(env, pre, Contradiction)| && FactIds(env, pre, Contradiction)[k] == i
                   && forall j :: 0 <= j < k ==> !SharesKey(env, pre[FactIds(env, pre, Contradiction)[j]], s)
  }

  /** The node a string refers to: the first with its pair key; without one, the matcher's answer. */
  ghost predicate RefersTo(env: Env, pre: seq<GNode>, s: string, i: nat) {
    if exists j :: 0 <= j < |pre| && SharesKey(env, pre[j], s) then FirstToShare(env, pre, s, i)
    else Answers(env, pre, Contradiction, Trim(s), i)
  }

  lemma {:induction false} FirstWithKey(env: Env, pre: seq<GNode>, ids: seq<nat>, key: string) returns (k: nat)
    requires forall j :: 0 <= j < |ids| ==> ids[j] < |pre|
    requires ByPairKey(env, pre, ids, key).Some?
    ensures k < |ids| && Some(ids[k]) == ByPairKey(env, pre, ids, key)
    ensures PairKey(env, pre[ids[k]].content) == Some(key)
    ensures forall j :: 0 <= j < k ==> PairKey(env, pre[ids[j]].content) != Some(key)
  {
    if PairKey(env, pre[ids[0]].content) == Some(key) {
      k := 0;
    } else {
      k := FirstWithKey(env, pre, ids[1..], key);
      k := k + 1;
      assert forall j :: 0 < j < k ==> ids[j] == ids[1..][j - 1];
    }
  }

  lemma FirstIsUnique(env: Env, pre: seq<GNode>, s: string, i: nat, j: nat)
    requires FirstToShare(env, pre, s, i) && FirstToShare(env, pre, s, j)
    ensures i == j
  {
    var ids := FactIds(env, pre, Contradiction);
    var k :| 0 <= k < |ids| && ids[k] == i && forall m :: 0 <= m < k ==> !SharesKey(env, pre[ids[m]], s);
    var l :| 0 <= l < |ids| && ids[l] == j && forall m :: 0 <= m < l ==> !SharesKey(env, pre[ids[m]], s);
    assert !(k < l) && !(l < k);
  }

  lemma KeyDecides(env: Env, pre: seq<GNode>, s: string, i: nat)
    requires PairKey(env, s).Some?
    requires ByPairKey(env, pre, FactIds(env, pre, Contradiction), PairKey(env, s).value).Some?
    ensures ByPairKey(env, pre, FactIds(env, pre, Contradiction), PairKey(env, s).value) == Some(i)
            <==> FirstToShare(env, pre, s, i)
    ensures exists j :: 0 <= j < |pre| && SharesKey(env, pre[j], s)
  {
    var ids := FactIds(env, pre, Contradiction);
    var k := FirstWithKey(env, pre, ids, PairKey(env, s).value);
    assert SharesKey(env, pre[ids[k]], s);
    assert FirstToShare(env, pre, s, ids[k]);
    if FirstToShare(env, pre, s, i) {
      FirstIsUnique(env, pre, s, i, ids[k]);
    }
  }

  lemma RefersExactly(env: Env, pre: seq<GNode>, s: string, i: nat)
    ensures MatchContradiction(env, pre, s) == Some(i) <==> RefersTo(env, pre, s, i)
  {
    var ids := FactIds(env, pre, Contradiction);
    AnswersExactly(env, pre, Contradiction, Trim(s), i);
    if PairKey(env, s).Some? {
      if ByPairKey(env, pre, ids, PairKey(env, s).value).Some? {
        KeyDecides(env, pre, s, i);
      } else {
        forall j: nat | j < |pre|
          ensures !SharesKey(env, pre[j], s)
        {
          if IsFact(pre[j], Contradiction) {
            var k :| 0 <= k < |ids| && ids[k] == j;
          }
        }
      }
    }
  }

  /** A string that is looked at makes the node active that it refers to, or becomes a new node. */
  lemma ContradictionIsActiveOrNew(env: Env, f: Facts, rows: seq<string>, pre: seq<GNode>, c: nat)
    requires IsLookedAt(env, rows, f.contradictions, c)
    ensures var s, post := f.contradictions[c], SyncedGraph(env, f, rows, pre);
            && (forall i: nat :: RefersTo(env, pre, s, i) ==>
                  i < |pre| && i < |post| && post[i] == pre[i].(status := Active))
            && ((forall i: nat :: !RefersTo(env, pre, s, i)) ==>
                  GNode(Contradiction, Trim(s), 1.0, Active, true, None, true) in post)
  {
    var s := f.contradictions[c];
    LookedAtExactly(env, rows, f.contradictions, c);
    forall i: nat | RefersTo(env, pre, s, i)
      ensures i < |pre| && i < |SyncedGraph(env, f, rows, pre)|
      ensures SyncedGraph(env, f, rows, pre)[i] == pre[i].(status := Active)
    {
      RefersExactly(env, pre, s, i);
      assert Referred(env, rows, f.contradictions, pre, i);
      SyncedContradiction(env, f, rows, pre, i);
    }
    var r := MatchContradiction(env, pre, s);
    if r.Some? {
      RefersExactly(env, pre, s, r.value);
    } else {
      ContradictionIsKept(env, f, rows, pre, c);
    }
  }

  /** And only such strings do: any other contradiction of the graph stays as it was. */
  lemma OtherContradictionsStay(env: Env, f: Facts, rows: seq<string>, pre: seq<GNode>, i: nat)
    requires i < |pre| && pre[i].nodeType == Contradiction
    requires forall c: nat :: IsLookedAt(env, rows, f.contradictions, c) ==> !RefersTo(env, pre, f.contradictions[c], i)
    ensures i < |SyncedGraph(env, f, rows, pre)| && SyncedGraph(env, f, rows, pre)[i] == pre[i]
  {
    SyncedContradiction(env, f, rows, pre, i);
    if Referred(env, rows, f.contradictions, pre, i) {
      var c :| 0 <= c < |f.contradictions| && Processed(env, rows, f.contradictions, c)
               && MatchContradiction(env, pre, f.contradictions[c]) == Some(i);
      LookedAtExactly(env, rows, f.contradictions, c);
      RefersExactly(env, pre, f.contradictions[c], i);
    }
  }
}
