/**
 * One sync, node by node: what becomes of every node it finds, and where every new node comes from
 * (src/factsToSemanticGraph.ts).
 */
module FactsNodes {
  import opened Options
  import opened FactsSpec
  import opened FactsPhases

  // ---------------------------------------------------------------------------------------------
  // Every phase sees the nodes of its own type as they were when the sync began
  // ---------------------------------------------------------------------------------------------

  lemma ClaimsKeepView(env: Env, f: Facts, pre: seq<GNode>, t: NodeType)
    requires t != Claim
    ensures SameView(pre, AfterClaims(env, f, pre), t)
  {
    ClaimsHold(env, pre, ClaimEntries(env, f), f.confidence, |ClaimEntries(env, f)|);
    ClaimsInvView(env, pre, AfterClaims(env, f, pre), ClaimEntries(env, f), f.confidence, |ClaimEntries(env, f)|, t);
  }

  lemma OldRowView(env: Env, pre: seq<GNode>, now: seq<GNode>, entries: seq<Entry>, confidence: real, k: nat,
                   t: NodeType, i: nat)
    requires k <= |entries| && |pre| <= |now| && OldClaims(env, pre, now, entries, confidence, k)
    requires t != Claim && i < |pre|
    ensures IsFact(now[i], t) == IsFact(pre[i], t) && (IsFact(pre[i], t) ==> now[i].content == pre[i].content)
  {
  }

  lemma ClaimsInvView(env: Env, pre: seq<GNode>, now: seq<GNode>, entries: seq<Entry>, confidence: real, k: nat,
                      t: NodeType)
    requires k <= |entries| && ClaimsInv(env, pre, now, entries, confidence, k) && t != Claim
    ensures SameView(pre, now, t)
  {
    forall i | 0 <= i < |pre|
      ensures IsFact(now[i], t) == IsFact(pre[i], t) && (IsFact(pre[i], t) ==> now[i].content == pre[i].content)
    {
      OldRowView(env, pre, now, entries, confidence, k, t, i);
    }
  }

  lemma GoalsKeepView(env: Env, f: Facts, pre: seq<GNode>, t: NodeType)
    requires t != Claim && t != Goal
    ensures SameView(pre, AfterGoals(env, f, pre), t)
  {
    ClaimsKeepView(env, f, pre, t);
    AccumulatedView(env, AfterClaims(env, f, pre), Goal, f.goals, |f.goals|, t);
    SameViewComposes(pre, AfterClaims(env, f, pre), AfterGoals(env, f, pre), t);
  }

  lemma RisksKeepView(env: Env, f: Facts, pre: seq<GNode>)
    ensures SameView(pre, AfterRisks(env, f, pre), Contradiction)
  {
    GoalsKeepView(env, f, pre, Contradiction);
    AccumulatedView(env, AfterGoals(env, f, pre), Risk, f.risks, |f.risks|, Contradiction);
    SameViewComposes(pre, AfterGoals(env, f, pre), AfterRisks(env, f, pre), Contradiction);
  }

  lemma StalingKeepsView(env: Env, f: Facts, pre: seq<GNode>)
    ensures SameView(pre, AfterStaling(env, f, pre), Contradiction)
  {
    RisksKeepView(env, f, pre);
    assert SameView(AfterRisks(env, f, pre), AfterStaling(env, f, pre), Contradiction);
    SameViewComposes(pre, AfterRisks(env, f, pre), AfterStaling(env, f, pre), Contradiction);
  }

  lemma NamesInView(env: Env, pre: seq<GNode>, now: seq<GNode>, t: NodeType, texts: seq<string>)
    requires SameView(pre, now, t)
    ensures forall q, target :: 0 <= q < |texts| ==>
              (Names(env, now, t, texts, q, target) <==> Names(env, pre, t, texts, q, target))
  {
    forall q | 0 <= q < |texts|
      ensures ByText(env, now, t, ItemText(env, texts[q])) == ByText(env, pre, t, ItemText(env, texts[q]))
    {
      SameMatches(env, pre, now, t, ItemText(env, texts[q]));
    }
  }

  lemma NamedInView(env: Env, pre: seq<GNode>, now: seq<GNode>, t: NodeType, texts: seq<string>, i: nat)
    requires SameView(pre, now, t)
    ensures Named(env, now, t, texts, i) <==> Named(env, pre, t, texts, i)
  {
    NamesInView(env, pre, now, t, texts);
  }

  lemma FromTextInView(env: Env, pre: seq<GNode>, now: seq<GNode>, t: NodeType, texts: seq<string>, n: GNode)
    requires SameView(pre, now, t)
    ensures FromText(env, now, t, texts, |texts|, n) <==> FromText(env, pre, t, texts, |texts|, n)
  {
    NamesInView(env, pre, now, t, texts);
  }

  lemma ReferredInView(env: Env, resolvedRows: seq<string>, strs: seq<string>, pre: seq<GNode>, now: seq<GNode>, i: nat)
    requires SameView(pre, now, Contradiction)
    ensures Referred(env, resolvedRows, strs, now, i) <==> Referred(env, resolvedRows, strs, pre, i)
  {
    forall c | 0 <= c < |strs|
      ensures MatchContradiction(env, now, strs[c]) == MatchContradiction(env, pre, strs[c])
    {
      SameContradictionMatches(env, pre, now, strs[c]);
    }
  }

  lemma FromStringInView(env: Env, resolvedRows: seq<string>, strs: seq<string>, pre: seq<GNode>, now: seq<GNode>,
                         n: GNode)
    requires SameView(pre, now, Contradiction)
    ensures FromString(env, resolvedRows, strs, |strs|, now, n) <==> FromString(env, resolvedRows, strs, |strs|, pre, n)
  {
    forall c | 0 <= c < |strs|
      ensures MatchContradiction(env, now, strs[c]) == MatchContradiction(env, pre, strs[c])
    {
      SameContradictionMatches(env, pre, now, strs[c]);
    }
  }

  // ---------------------------------------------------------------------------------------------
  // Phase by phase, for one row
  // ---------------------------------------------------------------------------------------------

  lemma AccumulateLeaves(env: Env, pre: seq<GNode>, t: NodeType, texts: seq<string>, i: nat)
    requires i < |pre| && pre[i].nodeType != t
    ensures Accumulated(env, pre, t, texts, |texts|)[i] == pre[i]
  {
    OnlyOwnTypeNamed(env, pre, t, texts, |texts|, i);
  }

  lemma ContradictionsLeave(env: Env, resolvedRows: seq<string>, strs: seq<string>, pre: seq<GNode>, i: nat)
    requires i < |pre| && pre[i].nodeType != Contradiction
    ensures ContradictionsAfter(env, resolvedRows, strs, |strs|, pre)[i] == pre[i]
  {
  }

  /** The lengths of the graphs only grow. */
  lemma GraphsGrow(env: Env, f: Facts, resolvedRows: seq<string>, pre: seq<GNode>)
    ensures |pre| <= |AfterClaims(env, f, pre)| <= |AfterGoals(env, f, pre)| <= |AfterRisks(env, f, pre)|
    ensures |AfterRisks(env, f, pre)| == |AfterStaling(env, f, pre)| <= |SyncedGraph(env, f, resolvedRows, pre)|
  {
  }

  /** Rows that were not touched by the claims phase. */
  lemma ClaimsLeave(env: Env, f: Facts, pre: seq<GNode>, i: nat)
    requires i < |pre| && pre[i].nodeType != Claim
    ensures AfterClaims(env, f, pre)[i] == pre[i] && !Touched(env, pre, ClaimEntries(env, f), f.confidence, i)
  {
    ClaimsHold(env, pre, ClaimEntries(env, f), f.confidence, |ClaimEntries(env, f)|);
  }

  /** After the claims phase a claim can only go stale. */
  lemma LaterPhasesLeaveClaim(env: Env, f: Facts, resolvedRows: seq<string>, pre: seq<GNode>, i: nat)
    requires i < |AfterClaims(env, f, pre)| && AfterClaims(env, f, pre)[i].nodeType == Claim
    ensures i < |SyncedGraph(env, f, resolvedRows, pre)|
    ensures SyncedGraph(env, f, resolvedRows, pre)[i]
            == if i < |pre| && IsFact(pre[i], Claim) && pre[i].status == Active
                  && !Touched(env, pre, ClaimEntries(env, f), f.confidence, i)
               then AfterClaims(env, f, pre)[i].(status := Irrelevant) else AfterClaims(env, f, pre)[i]
  {
    GraphsGrow(env, f, resolvedRows, pre);
    AccumulateLeaves(env, AfterClaims(env, f, pre), Goal, f.goals, i);
    AccumulateLeaves(env, AfterGoals(env, f, pre), Risk, f.risks, i);
    ContradictionsLeave(env, resolvedRows, f.contradictions, AfterStaling(env, f, pre), i);
  }

  /** Staling leaves everything but claims alone. */
  lemma StalingLeaves(env: Env, f: Facts, pre: seq<GNode>, i: nat)
    requires i < |AfterRisks(env, f, pre)|
    requires i < |pre| ==> pre[i].nodeType != Claim
    ensures AfterStaling(env, f, pre)[i] == AfterRisks(env, f, pre)[i]
  {
  }

  // ---------------------------------------------------------------------------------------------
  // What becomes of a node
  // ---------------------------------------------------------------------------------------------

  lemma BelowThreshold(env: Env, f: Facts, pre: seq<GNode>, i: nat)
    ensures Touched(env, pre, ClaimEntries(env, f), f.confidence, i) <==> ClaimedBy(env, f, pre, i)
  {
  }

  /** A claim is raised if the batch goes to it; otherwise an active facts-sync claim goes stale and any other stays. */
  lemma SyncedClaim(env: Env, f: Facts, resolvedRows: seq<string>, pre: seq<GNode>, i: nat)
    requires i < |pre| && pre[i].nodeType == Claim
    ensures i < |SyncedGraph(env, f, resolvedRows, pre)|
    ensures var b := SyncedGraph(env, f, resolvedRows, pre)[i];
            if ClaimedBy(env, f, pre, i) then RaisedClaim(env, pre[i], b, f.confidence)
            else b == if pre[i].factsSync && pre[i].current && pre[i].status == Active
                      then pre[i].(status := Irrelevant) else pre[i]
  {
    ClaimsHold(env, pre, ClaimEntries(env, f), f.confidence, |ClaimEntries(env, f)|);
    BelowThreshold(env, f, pre, i);
    LaterPhasesLeaveClaim(env, f, resolvedRows, pre, i);
  }

  /** A goal becomes active if a text of the batch matches it; otherwise it stays as it was. */
  lemma SyncedGoal(env: Env, f: Facts, resolvedRows: seq<string>, pre: seq<GNode>, i: nat)
    requires i < |pre| && pre[i].nodeType == Goal
    ensures i < |SyncedGraph(env, f, resolvedRows, pre)|
    ensures SyncedGraph(env, f, resolvedRows, pre)[i] == Reactivated(pre[i], Named(env, pre, Goal, f.goals, i))
  {
    GraphsGrow(env, f, resolvedRows, pre);
    ClaimsLeave(env, f, pre, i);
    ClaimsKeepView(env, f, pre, Goal);
    NamedInView(env, pre, AfterClaims(env, f, pre), Goal, f.goals, i);
    AccumulateLeaves(env, AfterGoals(env, f, pre), Risk, f.risks, i);
    StalingLeaves(env, f, pre, i);
    ContradictionsLeave(env, resolvedRows, f.contradictions, AfterStaling(env, f, pre), i);
  }

  lemma SyncedRisk(env: Env, f: Facts, resolvedRows: seq<string>, pre: seq<GNode>, i: nat)
    requires i < |pre| && pre[i].nodeType == Risk
    ensures i < |SyncedGraph(env, f, resolvedRows, pre)|
    ensures SyncedGraph(env, f, resolvedRows, pre)[i] == Reactivated(pre[i], Named(env, pre, Risk, f.risks, i))
  {
    GraphsGrow(env, f, resolvedRows, pre);
    ClaimsLeave(env, f, pre, i);
    AccumulateLeaves(env, AfterClaims(env, f, pre), Goal, f.goals, i);
    GoalsKeepView(env, f, pre, Risk);
    NamedInView(env, pre, AfterGoals(env, f, pre), Risk, f.risks, i);
    StalingLeaves(env, f, pre, i);
    ContradictionsLeave(env, resolvedRows, f.contradictions, AfterStaling(env, f, pre), i);
  }

  /** Up to the contradictions phase the nodes of the two remaining types are left alone. */
  lemma UntouchedSoFar(env: Env, f: Facts, pre: seq<GNode>, i: nat)
    requires i < |pre| && (pre[i].nodeType == Contradiction || pre[i].nodeType == OtherType)
    ensures i < |AfterStaling(env, f, pre)| && AfterStaling(env, f, pre)[i] == pre[i]
  {
    GraphsGrow(env, f, [], pre);
    ClaimsLeave(env, f, pre, i);
    AccumulateLeaves(env, AfterClaims(env, f, pre), Goal, f.goals, i);
    AccumulateLeaves(env, AfterGoals(env, f, pre), Risk, f.risks, i);
    StalingLeaves(env, f, pre, i);
  }

  /** A contradiction becomes active if a string of the batch is processed and refers to it. */
  lemma SyncedContradiction(env: Env, f: Facts, resolvedRows: seq<string>, pre: seq<GNode>, i: nat)
    requires i < |pre| && pre[i].nodeType == Contradiction
    ensures i < |SyncedGraph(env, f, resolvedRows, pre)|
    ensures SyncedGraph(env, f, resolvedRows, pre)[i]
            == Reactivated(pre[i], Referred(env, resolvedRows, f.contradictions, pre, i))
  {
    UntouchedSoFar(env, f, pre, i);
    StalingKeepsView(env, f, pre);
    ReferredInView(env, resolvedRows, f.contradictions, pre, AfterStaling(env, f, pre), i);
  }

  lemma SyncedOther(env: Env, f: Facts, resolvedRows: seq<string>, pre: seq<GNode>, i: nat)
    requires i < |pre| && pre[i].nodeType == OtherType
    ensures i < |SyncedGraph(env, f, resolvedRows, pre)| && SyncedGraph(env, f, resolvedRows, pre)[i] == pre[i]
  {
    UntouchedSoFar(env, f, pre, i);
    ContradictionsLeave(env, resolvedRows, f.contradictions, AfterStaling(env, f, pre), i);
  }

  /** No sync changes what kind of node a node is. */
  lemma SyncedIdentity(env: Env, f: Facts, resolvedRows: seq<string>, pre: seq<GNode>, i: nat)
    requires i < |pre|
    ensures i < |SyncedGraph(env, f, resolvedRows, pre)|
            && SameIdentity(pre[i], SyncedGraph(env, f, resolvedRows, pre)[i])
  {
    match pre[i].nodeType {
      case Claim => SyncedClaim(env, f, resolvedRows, pre, i);
      case Goal => SyncedGoal(env, f, resolvedRows, pre, i);
      case Risk => SyncedRisk(env, f, resolvedRows, pre, i);
      case Contradiction => SyncedContradiction(env, f, resolvedRows, pre, i);
      case OtherType => SyncedOther(env, f, resolvedRows, pre, i);
    }
  }

  // ---------------------------------------------------------------------------------------------
  // Where new nodes come from
  // ---------------------------------------------------------------------------------------------

  /** A new node is an active facts-sync node that carries an item of the batch which matched nothing. */
  ghost predicate FromBatch(env: Env, f: Facts, resolvedRows: seq<string>, pre: seq<GNode>, i: nat, n: GNode) {
    && n.factsSync && n.current && n.status == Active
    && match n.nodeType
       case Claim =>
         && n.confidence == f.confidence && ClaimedBy(env, f, pre, i)
         && FromEntry(env, pre, ClaimEntries(env, f), |ClaimEntries(env, f)|, n)
       case Goal => FromText(env, pre, Goal, f.goals, |f.goals|, n)
       case Risk => FromText(env, pre, Risk, f.risks, |f.risks|, n)
       case Contradiction => FromString(env, resolvedRows, f.contradictions, |f.contradictions|, pre, n)
       case OtherType => false
  }

  lemma NewClaimFromBatch(env: Env, f: Facts, resolvedRows: seq<string>, pre: seq<GNode>, i: nat)
    requires |pre| <= i < |AfterClaims(env, f, pre)|
    ensures i < |SyncedGraph(env, f, resolvedRows, pre)|
    ensures FromBatch(env, f, resolvedRows, pre, i, SyncedGraph(env, f, resolvedRows, pre)[i])
  {
    ClaimsHold(env, pre, ClaimEntries(env, f), f.confidence, |ClaimEntries(env, f)|);
    BelowThreshold(env, f, pre, i);
    LaterPhasesLeaveClaim(env, f, resolvedRows, pre, i);
  }

  lemma NewGoalFromBatch(env: Env, f: Facts, resolvedRows: seq<string>, pre: seq<GNode>, i: nat)
    requires |AfterClaims(env, f, pre)| <= i < |AfterGoals(env, f, pre)|
    ensures i < |SyncedGraph(env, f, resolvedRows, pre)|
    ensures FromBatch(env, f, resolvedRows, pre, i, SyncedGraph(env, f, resolvedRows, pre)[i])
  {
    GraphsGrow(env, f, resolvedRows, pre);
    var n := AfterGoals(env, f, pre)[i];
    AppendedItem(env, AfterClaims(env, f, pre), Goal, f.goals, |f.goals|, i);
    ClaimsKeepView(env, f, pre, Goal);
    FromTextInView(env, pre, AfterClaims(env, f, pre), Goal, f.goals, n);
    AccumulateLeaves(env, AfterGoals(env, f, pre), Risk, f.risks, i);
    StalingLeaves(env, f, pre, i);
    ContradictionsLeave(env, resolvedRows, f.contradictions, AfterStaling(env, f, pre), i);
  }

  lemma NewRiskFromBatch(env: Env, f: Facts, resolvedRows: seq<string>, pre: seq<GNode>, i: nat)
    requires |AfterGoals(env, f, pre)| <= i < |AfterRisks(env, f, pre)|
    ensures i < |SyncedGraph(env, f, resolvedRows, pre)|
    ensures FromBatch(env, f, resolvedRows, pre, i, SyncedGraph(env, f, resolvedRows, pre)[i])
  {
    GraphsGrow(env, f, resolvedRows, pre);
    var n := AfterRisks(env, f, pre)[i];
    AppendedItem(env, AfterGoals(env, f, pre), Risk, f.risks, |f.risks|, i);
    GoalsKeepView(env, f, pre, Risk);
    FromTextInView(env, pre, AfterGoals(env, f, pre), Risk, f.risks, n);
    StalingLeaves(env, f, pre, i);
    ContradictionsLeave(env, resolvedRows, f.contradictions, AfterStaling(env, f, pre), i);
  }

  lemma NewContradictionFromBatch(env: Env, f: Facts, resolvedRows: seq<string>, pre: seq<GNode>, i: nat)
    requires |AfterStaling(env, f, pre)| <= i < |SyncedGraph(env, f, resolvedRows, pre)|
    ensures FromBatch(env, f, resolvedRows, pre, i, SyncedGraph(env, f, resolvedRows, pre)[i])
  {
    StalingKeepsView(env, f, pre);
    AppendedContradiction(env, resolvedRows, f.contradictions, |f.contradictions|, AfterStaling(env, f, pre), i);
    FromStringInView(env, resolvedRows, f.contradictions, pre, AfterStaling(env, f, pre),
                     SyncedGraph(env, f, resolvedRows, pre)[i]);
  }

  /** A sync invents nothing. */
  lemma NothingInvented(env: Env, f: Facts, resolvedRows: seq<string>, pre: seq<GNode>, i: nat)
    requires |pre| <= i < |SyncedGraph(env, f, resolvedRows, pre)|
    ensures FromBatch(env, f, resolvedRows, pre, i, SyncedGraph(env, f, resolvedRows, pre)[i])
  {
    GraphsGrow(env, f, resolvedRows, pre);
    if i < |AfterClaims(env, f, pre)| {
      NewClaimFromBatch(env, f, resolvedRows, pre, i);
    } else if i < |AfterGoals(env, f, pre)| {
      NewGoalFromBatch(env, f, resolvedRows, pre, i);
    } else if i < |AfterRisks(env, f, pre)| {
      NewRiskFromBatch(env, f, resolvedRows, pre, i);
    } else {
      NewContradictionFromBatch(env, f, resolvedRows, pre, i);
    }
  }

  // ---------------------------------------------------------------------------------------------
  // And nothing of the batch is lost
  // ---------------------------------------------------------------------------------------------

  /**
   * Wherever a claim of the batch goes there is an active claim, which reads like it unless it was
   * matched by similarity.
   */
  lemma ClaimIsKept(env: Env, f: Facts, resolvedRows: seq<string>, pre: seq<GNode>, k: nat)
    requires k < |ClaimEntries(env, f)|
    ensures Kept(env, pre, SyncedGraph(env, f, resolvedRows, pre), ClaimEntries(env, f), f.confidence, k)
  {
    var entries := ClaimEntries(env, f);
    ClaimsAreKept(env, pre, entries, f.confidence, |entries|, k);
    var target := TargetOf(env, pre, entries, f.confidence, k);
    if target.Some? {
      LaterPhasesLeaveClaim(env, f, resolvedRows, pre, target.value);
      assert Touched(env, pre, entries, f.confidence, target.value);
    }
  }

  /** A goal of the batch that is not blank is in the graph: the node it matches, or a new one. */
  lemma GoalIsKept(env: Env, f: Facts, resolvedRows: seq<string>, pre: seq<GNode>, q: nat)
    requires q < |f.goals| && Trim(f.goals[q]) != []
    ensures match ByText(env, pre, Goal, ItemText(env, f.goals[q]))
            case Some(i) => SyncedGraph(env, f, resolvedRows, pre)[i].status == Active
            case None => NewItem(env, Goal, f.goals[q]) in SyncedGraph(env, f, resolvedRows, pre)
  {
    var target := ByText(env, pre, Goal, ItemText(env, f.goals[q]));
    GraphsGrow(env, f, resolvedRows, pre);
    if target.Some? {
      assert Names(env, pre, Goal, f.goals, q, target);
      SyncedGoal(env, f, resolvedRows, pre, target.value);
    } else {
      GoalIsNew(env, f, resolvedRows, pre, q);
    }
  }

  lemma GoalIsNew(env: Env, f: Facts, resolvedRows: seq<string>, pre: seq<GNode>, q: nat)
    requires q < |f.goals| && Names(env, pre, Goal, f.goals, q, None)
    ensures NewItem(env, Goal, f.goals[q]) in SyncedGraph(env, f, resolvedRows, pre)
  {
    var g1, g2 := AfterClaims(env, f, pre), AfterGoals(env, f, pre);
    var n := NewItem(env, Goal, f.goals[q]);
    GraphsGrow(env, f, resolvedRows, pre);
    ClaimsKeepView(env, f, pre, Goal);
    NamesInView(env, pre, g1, Goal, f.goals);
    NewItemsExactly(env, g1, Goal, f.goals, |f.goals|, n);
    assert n in g2[|g1|..];
    var i :| |g1| <= i < |g2| && g2[i] == n;
    AccumulateLeaves(env, g2, Risk, f.risks, i);
    StalingLeaves(env, f, pre, i);
    ContradictionsLeave(env, resolvedRows, f.contradictions, AfterStaling(env, f, pre), i);
    assert SyncedGraph(env, f, resolvedRows, pre)[i] == n;
  }

  lemma RiskIsKept(env: Env, f: Facts, resolvedRows: seq<string>, pre: seq<GNode>, q: nat)
    requires q < |f.risks| && Trim(f.risks[q]) != []
    ensures match ByText(env, pre, Risk, ItemText(env, f.risks[q]))
            case Some(i) => SyncedGraph(env, f, resolvedRows, pre)[i].status == Active
            case None => NewItem(env, Risk, f.risks[q]) in SyncedGraph(env, f, resolvedRows, pre)
  {
    var target := ByText(env, pre, Risk, ItemText(env, f.risks[q]));
    GraphsGrow(env, f, resolvedRows, pre);
    if target.Some? {
      assert Names(env, pre, Risk, f.risks, q, target);
      SyncedRisk(env, f, resolvedRows, pre, target.value);
    } else {
      RiskIsNew(env, f, resolvedRows, pre, q);
    }
  }

  lemma RiskIsNew(env: Env, f: Facts, resolvedRows: seq<string>, pre: seq<GNode>, q: nat)
    requires q < |f.risks| && Names(env, pre, Risk, f.risks, q, None)
    ensures NewItem(env, Risk, f.risks[q]) in SyncedGraph(env, f, resolvedRows, pre)
  {
    var g2, g3 := AfterGoals(env, f, pre), AfterRisks(env, f, pre);
    var n := NewItem(env, Risk, f.risks[q]);
    GraphsGrow(env, f, resolvedRows, pre);
    GoalsKeepView(env, f, pre, Risk);
    NamesInView(env, pre, g2, Risk, f.risks);
    NewItemsExactly(env, g2, Risk, f.risks, |f.risks|, n);
    assert n in g3[|g2|..];
    var i :| |g2| <= i < |g3| && g3[i] == n;
    StalingLeaves(env, f, pre, i);
    ContradictionsLeave(env, resolvedRows, f.contradictions, AfterStaling(env, f, pre), i);
    assert SyncedGraph(env, f, resolvedRows, pre)[i] == n;
  }

  /** A contradiction of the batch that is processed and refers to nothing has a new node. */
  lemma ContradictionIsKept(env: Env, f: Facts, resolvedRows: seq<string>, pre: seq<GNode>, c: nat)
    requires c < |f.contradictions| && Processed(env, resolvedRows, f.contradictions, c)
    requires MatchContradiction(env, pre, f.contradictions[c]) == None
    ensures NewContradiction(f.contradictions[c]) in SyncedGraph(env, f, resolvedRows, pre)
  {
    var g4 := AfterStaling(env, f, pre);
    var n := NewContradiction(f.contradictions[c]);
    StalingKeepsView(env, f, pre);
    SameContradictionMatches(env, pre, g4, f.contradictions[c]);
    NewContradictionsExactly(env, resolvedRows, f.contradictions, |f.contradictions|, g4, n);
    assert n in SyncedGraph(env, f, resolvedRows, pre)[|g4|..];
  }
}
