/**
 * What holds over every sequence of syncs, with other processes acting in between
 * (src/factsToSemanticGraph.ts, src/resolutionService.ts, src/equivalenceTrace.ts).
 */
module FactsRuns {
  import opened Options
  import opened FactsSpec
  import opened FactsPhases
  import opened FactsNodes
  import TextOverlap

  /**
   * A sync with its batch and what its lookups answer; or a status set by a resolution, a human or the
   * evaluation of goals; or a claim rewritten by an approved equivalence; or another creator's node.
   */
  datatype Step =
    | Sync(env: Env, facts: Facts, resolvedRows: seq<string>)
    | SetStatus(id: nat, status: Status)
    | Merge(id: nat, content: string)
    | AppendOther(node: GNode)

  predicate StepEnabled(graph: seq<GNode>, step: Step) {
    match step
    case Sync(_, _, _) => true
    case SetStatus(id, _) => id < |graph|
    case Merge(id, _) => id < |graph| && graph[id].nodeType == Claim
    case AppendOther(n) => !n.factsSync
  }

  ghost function AfterStep(graph: seq<GNode>, step: Step): seq<GNode>
    requires StepEnabled(graph, step)
  {
    match step
    case Sync(env, f, rows) => SyncedGraph(env, f, rows, graph)
    case SetStatus(id, status) => graph[id := graph[id].(status := status)]
    case Merge(id, content) => graph[id := graph[id].(content := content)]
    case AppendOther(n) => graph + [n]
  }

  /**
   * graphs[k] is the graph before step k, and the last one the graph after all of them. What the
   * database and the settings answer may change from sync to sync; keys are computed by one program.
   */
  ghost predicate Trace(base: Env, graphs: seq<seq<GNode>>, steps: seq<Step>) {
    && |graphs| == |steps| + 1
    && forall k :: 0 <= k < |steps| ==> IsNext(base, graphs, steps, k)
  }

  ghost predicate IsNext(base: Env, graphs: seq<seq<GNode>>, steps: seq<Step>, k: nat)
    requires k < |steps| && |graphs| == |steps| + 1
  {
    && StepEnabled(graphs[k], steps[k]) && graphs[k + 1] == AfterStep(graphs[k], steps[k])
    && (steps[k].Sync? ==> SameKeys(base, steps[k].env))
  }

  lemma NodeIsKept(base: Env, graphs: seq<seq<GNode>>, steps: seq<Step>, k: nat, i: nat)
    requires Trace(base, graphs, steps) && k < |steps| && i < |graphs[k]|
    ensures i < |graphs[k + 1]| && SameIdentity(graphs[k][i], graphs[k + 1][i])
  {
    assert IsNext(base, graphs, steps, k);
    if steps[k].Sync? {
      SyncedIdentity(steps[k].env, steps[k].facts, steps[k].resolvedRows, graphs[k], i);
    }
  }

  /** No node is ever removed or changes its kind, creator or dimension. */
  lemma {:induction false} NodesAreKept(base: Env, graphs: seq<seq<GNode>>, steps: seq<Step>, a: nat, b: nat, i: nat)
    requires Trace(base, graphs, steps) && a <= b < |graphs| && i < |graphs[a]|
    ensures i < |graphs[b]| && SameIdentity(graphs[a][i], graphs[b][i])
  {
    if a != b {
      NodesAreKept(base, graphs, steps, a, b - 1, i);
      NodeIsKept(base, graphs, steps, b - 1, i);
    }
  }

  // ---------------------------------------------------------------------------------------------
  // Claims
  // ---------------------------------------------------------------------------------------------

  /** The step is a sync whose batch reaches its threshold and has a claim that goes to row i. */
  ghost predicate Claims(graph: seq<GNode>, step: Step, i: nat) {
    step.Sync? && ClaimedBy(step.env, step.facts, graph, i)
  }

  /** A step that claims row i raises its confidence to that of the batch, if that is greater. */
  ghost function ConfidenceAfter(graph: seq<GNode>, step: Step, i: nat, confidence: real): real {
    if Claims(graph, step, i) then MaxReal(confidence, step.facts.confidence) else confidence
  }

  /** The greatest of an initial confidence and the batch confidences of those steps from a to b. */
  ghost function MaxConfidence(graphs: seq<seq<GNode>>, steps: seq<Step>, a: nat, b: nat, i: nat, start: real): real
    requires a <= b <= |steps| && |graphs| == |steps| + 1
    decreases b
  {
    if a == b then start
    else ConfidenceAfter(graphs[b - 1], steps[b - 1], i, MaxConfidence(graphs, steps, a, b - 1, i, start))
  }

  lemma StepConfidence(base: Env, graphs: seq<seq<GNode>>, steps: seq<Step>, k: nat, i: nat)
    requires Trace(base, graphs, steps) && k < |steps| && i < |graphs[k]| && graphs[k][i].nodeType == Claim
    ensures i < |graphs[k + 1]|
    ensures graphs[k + 1][i].confidence == ConfidenceAfter(graphs[k], steps[k], i, graphs[k][i].confidence)
  {
    assert IsNext(base, graphs, steps, k);
    if steps[k].Sync? {
      SyncedClaim(steps[k].env, steps[k].facts, steps[k].resolvedRows, graphs[k], i);
    }
  }

  /** A claim's confidence is the maximum it ever earned: it never falls, and nothing else raises it. */
  lemma {:induction false} ConfidenceIsMaximum(base: Env, graphs: seq<seq<GNode>>, steps: seq<Step>, a: nat, b: nat,
                                               i: nat)
    requires Trace(base, graphs, steps) && a <= b < |graphs| && i < |graphs[a]| && graphs[a][i].nodeType == Claim
    ensures i < |graphs[b]|
    ensures graphs[b][i].confidence == MaxConfidence(graphs, steps, a, b, i, graphs[a][i].confidence)
  {
    NodesAreKept(base, graphs, steps, a, b, i);
    if a != b {
      NodesAreKept(base, graphs, steps, a, b - 1, i);
      ConfidenceIsMaximum(base, graphs, steps, a, b - 1, i);
      StepConfidence(base, graphs, steps, b - 1, i);
    }
  }

  /** The text of the last equivalence from a to b that was approved for row i, or else the initial one. */
  function LastMerged(steps: seq<Step>, a: nat, b: nat, i: nat, start: string): string
    requires a <= b <= |steps|
    decreases b
  {
    if a == b then start
    else if steps[b - 1].Merge? && steps[b - 1].id == i then steps[b - 1].content
    else LastMerged(steps, a, b - 1, i, start)
  }

  lemma StepReading(base: Env, graphs: seq<seq<GNode>>, steps: seq<Step>, k: nat, i: nat)
    requires Trace(base, graphs, steps) && k < |steps| && i < |graphs[k]| && graphs[k][i].nodeType == Claim
    ensures i < |graphs[k + 1]|
    ensures base.claimKey(graphs[k + 1][i].content)
            == base.claimKey(if steps[k].Merge? && steps[k].id == i then steps[k].content else graphs[k][i].content)
  {
    assert IsNext(base, graphs, steps, k);
    if steps[k].Sync? {
      SyncedClaim(steps[k].env, steps[k].facts, steps[k].resolvedRows, graphs[k], i);
    }
  }

  /** The canonical reading of a claim changes by approved equivalences only, whatever is synced. */
  lemma {:induction false} ClaimReadingIsKept(base: Env, graphs: seq<seq<GNode>>, steps: seq<Step>, a: nat, b: nat,
                                              i: nat)
    requires Trace(base, graphs, steps) && a <= b < |graphs| && i < |graphs[a]| && graphs[a][i].nodeType == Claim
    ensures i < |graphs[b]|
    ensures base.claimKey(graphs[b][i].content) == base.claimKey(LastMerged(steps, a, b, i, graphs[a][i].content))
  {
    NodesAreKept(base, graphs, steps, a, b, i);
    if a != b {
      NodesAreKept(base, graphs, steps, a, b - 1, i);
      ClaimReadingIsKept(base, graphs, steps, a, b - 1, i);
      StepReading(base, graphs, steps, b - 1, i);
    }
  }

  /**
   * After each sync a facts-sync claim is active exactly if the batch reached the threshold and one
   * of its claims was matched to it, was merged into it, or created it.
   */
  lemma ClaimActiveExactly(base: Env, graphs: seq<seq<GNode>>, steps: seq<Step>, k: nat, i: nat)
    requires Trace(base, graphs, steps) && k < |steps| && steps[k].Sync?
    requires i < |graphs[k + 1]| && IsFact(graphs[k + 1][i], Claim)
    ensures graphs[k + 1][i].status == Active <==> ClaimedBy(steps[k].env, steps[k].facts, graphs[k], i)
  {
    assert IsNext(base, graphs, steps, k);
    if i < |graphs[k]| {
      SyncedIdentity(steps[k].env, steps[k].facts, steps[k].resolvedRows, graphs[k], i);
      SyncedClaim(steps[k].env, steps[k].facts, steps[k].resolvedRows, graphs[k], i);
    } else {
      NothingInvented(steps[k].env, steps[k].facts, steps[k].resolvedRows, graphs[k], i);
    }
  }

  /** What it means for the batch to go to row i: by a match, by an equal text, or by a new row. */
  lemma ClaimedExactly(env: Env, f: Facts, pre: seq<GNode>, i: nat)
    ensures ClaimedBy(env, f, pre, i)
            <==> f.confidence >= env.minClaimConfidence
                 && exists k :: 0 <= k < |ClaimEntries(env, f)| && GoesTo(env, f, pre, k, i)
  {
    var entries := ClaimEntries(env, f);
    forall k | 0 <= k < |entries|
      ensures GoesTo(env, f, pre, k, i) <==> TargetOf(env, pre, entries, f.confidence, k) == Some(i)
    {
    }
  }

  ghost predicate GoesTo(env: Env, f: Facts, pre: seq<GNode>, k: nat, i: nat)
    requires k < |ClaimEntries(env, f)|
  {
    var entries := ClaimEntries(env, f);
    var now := ClaimsAfter(env, pre, entries, f.confidence, k);
    && Trim(entries[k].content) != []
    && match MatchClaim(env, pre, entries[k])
       case Some(j) => j == i
       case None =>
         if exists j :: 0 <= j < |now| && IsActiveClaim(now[j]) && now[j].content == ClaimText(env, entries[k])
         then DuplicateOf(env, now, ClaimText(env, entries[k])) == Some(i)
         else i == |now|
  }

  /** A batch below the threshold leaves no facts-sync claim active. */
  lemma LowConfidenceStalesAll(base: Env, graphs: seq<seq<GNode>>, steps: seq<Step>, k: nat, i: nat)
    requires Trace(base, graphs, steps) && k < |steps| && steps[k].Sync?
    requires steps[k].facts.confidence < steps[k].env.minClaimConfidence
    requires i < |graphs[k + 1]| && IsFact(graphs[k + 1][i], Claim)
    ensures graphs[k + 1][i].status != Active
  {
    ClaimActiveExactly(base, graphs, steps, k, i);
  }

  // ---------------------------------------------------------------------------------------------
  // Goals, risks and contradictions
  // ---------------------------------------------------------------------------------------------

  /** After each sync a goal or risk is active exactly if it was, or a text of the batch matches it, or it is new. */
  lemma ItemActiveExactly(base: Env, graphs: seq<seq<GNode>>, steps: seq<Step>, k: nat, i: nat)
    requires Trace(base, graphs, steps) && k < |steps| && steps[k].Sync? && i < |graphs[k + 1]|
    requires graphs[k + 1][i].nodeType == Goal || graphs[k + 1][i].nodeType == Risk
    ensures var t := graphs[k + 1][i].nodeType;
            var texts := if t == Goal then steps[k].facts.goals else steps[k].facts.risks;
            graphs[k + 1][i].status == Active
            <==> i >= |graphs[k]| || graphs[k][i].status == Active || Named(steps[k].env, graphs[k], t, texts, i)
  {
    assert IsNext(base, graphs, steps, k);
    var env, f, rows, pre := steps[k].env, steps[k].facts, steps[k].resolvedRows, graphs[k];
    if i < |pre| {
      SyncedIdentity(env, f, rows, pre, i);
      if pre[i].nodeType == Goal {
        SyncedGoal(env, f, rows, pre, i);
      } else {
        SyncedRisk(env, f, rows, pre, i);
      }
    } else {
      NothingInvented(env, f, rows, pre, i);
    }
  }

  lemma OneSyncKeepsActive(env: Env, f: Facts, rows: seq<string>, pre: seq<GNode>, i: nat)
    requires i < |pre| && pre[i].nodeType != Claim && pre[i].status == Active
    ensures i < |SyncedGraph(env, f, rows, pre)| && SyncedGraph(env, f, rows, pre)[i] == pre[i]
  {
    match pre[i].nodeType {
      case Goal => SyncedGoal(env, f, rows, pre, i);
      case Risk => SyncedRisk(env, f, rows, pre, i);
      case Contradiction => SyncedContradiction(env, f, rows, pre, i);
      case OtherType => SyncedOther(env, f, rows, pre, i);
    }
  }

  /** The step sets the status of row i. */
  predicate SetsStatus(step: Step, i: nat) {
    step.SetStatus? && step.id == i
  }

  lemma StepKeepsActive(base: Env, graphs: seq<seq<GNode>>, steps: seq<Step>, k: nat, i: nat)
    requires Trace(base, graphs, steps) && k < |steps| && i < |graphs[k]| && !SetsStatus(steps[k], i)
    requires graphs[k][i].nodeType != Claim && graphs[k][i].status == Active
    ensures i < |graphs[k + 1]| && graphs[k + 1][i] == graphs[k][i]
  {
    assert IsNext(base, graphs, steps, k);
    if steps[k].Sync? {
      OneSyncKeepsActive(steps[k].env, steps[k].facts, steps[k].resolvedRows, graphs[k], i);
    }
  }

  /** A goal, a risk or a contradiction leaves active only where another process sets its status, never by a sync. */
  lemma {:induction false} OthersStayActive(base: Env, graphs: seq<seq<GNode>>, steps: seq<Step>, a: nat, b: nat,
                                            i: nat)
    requires Trace(base, graphs, steps) && a <= b < |graphs| && i < |graphs[a]|
    requires forall k :: a <= k < b ==> !SetsStatus(steps[k], i)
    requires graphs[a][i].nodeType != Claim && graphs[a][i].status == Active
    ensures i < |graphs[b]| && graphs[b][i] == graphs[a][i]
  {
    if a != b {
      OthersStayActive(base, graphs, steps, a, b - 1, i);
      StepKeepsActive(base, graphs, steps, b - 1, i);
    }
  }

  /** The pair keys of facts-sync contradictions, once pairwise different, stay so, whatever the lookups answer. */
  lemma {:induction false} PairKeysStayDistinct(base: Env, graphs: seq<seq<GNode>>, steps: seq<Step>, a: nat, b: nat)
    requires Trace(base, graphs, steps) && a <= b < |graphs| && DistinctPairKeys(base, graphs[a])
    ensures DistinctPairKeys(base, graphs[b])
  {
    if a != b {
      PairKeysStayDistinct(base, graphs, steps, a, b - 1);
      StepKeepsKeys(base, graphs, steps, b - 1);
    }
  }

  lemma StepKeepsKeys(base: Env, graphs: seq<seq<GNode>>, steps: seq<Step>, k: nat)
    requires Trace(base, graphs, steps) && k < |steps| && DistinctPairKeys(base, graphs[k])
    ensures DistinctPairKeys(base, graphs[k + 1])
  {
    assert IsNext(base, graphs, steps, k);
    if steps[k].Sync? {
      SameKeysSameDistinct(base, steps[k].env, graphs[k]);
      OneSyncKeepsKeys(steps[k].env, steps[k].facts, steps[k].resolvedRows, graphs[k]);
      SameKeysSameDistinct(base, steps[k].env, graphs[k + 1]);
    } else {
      OutsideKeepsKeys(base, graphs[k], steps[k]);
    }
  }

  lemma OutsideKeepsKeys(base: Env, graph: seq<GNode>, step: Step)
    requires StepEnabled(graph, step) && !step.Sync? && DistinctPairKeys(base, graph)
    ensures DistinctPairKeys(base, AfterStep(graph, step))
  {
  }

  lemma OneSyncKeepsKeys(env: Env, f: Facts, rows: seq<string>, pre: seq<GNode>)
    requires DistinctPairKeys(env, pre)
    ensures DistinctPairKeys(env, SyncedGraph(env, f, rows, pre))
  {
    StalingKeepsView(env, f, pre);
    ViewKeepsKeys(env, pre, AfterStaling(env, f, pre));
    ContradictionsKeepKeys(env, rows, f.contradictions, |f.contradictions|, AfterStaling(env, f, pre));
  }

  lemma ViewKeepsKeys(env: Env, pre: seq<GNode>, now: seq<GNode>)
    requires DistinctPairKeys(env, pre) && SameView(pre, now, Contradiction)
    ensures DistinctPairKeys(env, now)
  {
    forall i, j | 0 <= i < j < |now| && IsFact(now[i], Contradiction) && IsFact(now[j], Contradiction)
                  && PairKey(env, now[j].content).Some?
      ensures PairKey(env, now[i].content) != PairKey(env, now[j].content)
    {
      assert now[i].content == pre[i].content && now[j].content == pre[j].content;
    }
  }

  // ---------------------------------------------------------------------------------------------
  // Resolution is not irreversible
  // ---------------------------------------------------------------------------------------------

  /**
   * A resolved contradiction stays resolved exactly if no string of the batch that the resolved
   * checks let through refers to it.
   */
  lemma ResolvedStaysExactly(base: Env, graphs: seq<seq<GNode>>, steps: seq<Step>, k: nat, i: nat)
    requires Trace(base, graphs, steps) && k < |steps| && steps[k].Sync? && i < |graphs[k]|
    requires graphs[k][i].nodeType == Contradiction && graphs[k][i].status == Resolved
    ensures i < |graphs[k + 1]|
    ensures graphs[k + 1][i].status == Resolved
            <==> !Referred(steps[k].env, steps[k].resolvedRows, steps[k].facts.contradictions, graphs[k], i)
  {
    assert IsNext(base, graphs, steps, k);
    SyncedContradiction(steps[k].env, steps[k].facts, steps[k].resolvedRows, graphs[k], i);
  }

  /**
   * The same contradiction extracted again: of the facts-sync contradictions with its pair key the
   * first, when resolved, stays resolved exactly if the resolved checks recognise the string.
   */
  lemma SameKeyReopensExactly(env: Env, f: Facts, rows: seq<string>, pre: seq<GNode>, s: string, i: nat)
    requires f.contradictions == [s] && Trim(s) != [] && PairKey(env, s).Some?
    requires ByPairKey(env, pre, FactIds(env, pre, Contradiction), PairKey(env, s).value) == Some(i)
    requires pre[i].status == Resolved
    ensures i < |SyncedGraph(env, f, rows, pre)|
    ensures SyncedGraph(env, f, rows, pre)[i].status == Resolved <==> MatchesResolved(env, rows, s)
  {
    SyncedContradiction(env, f, rows, pre, i);
    assert MatchContradiction(env, pre, [s][0]) == Some(i);
    if !MatchesResolved(env, rows, s) {
      assert Processed(env, rows, [s], 0);
    }
  }

  /** If keys did not depend on case, a listed resolved contradiction would never be referred to by its pair key. */
  lemma CaseBlindKeysProtect(env: Env, resolvedRows: seq<string>, strs: seq<string>, c: nat, content: string)
    requires forall s :: PairKey(env, env.lower(s)) == PairKey(env, s)
    requires content in resolvedRows && c < |strs| && Processed(env, resolvedRows, strs, c)
             && PairKey(env, strs[c]).Some?
    ensures PairKey(env, strs[c]) != PairKey(env, content)
  {
    var k :| 0 <= k < |resolvedRows| && resolvedRows[k] == content;
    var r := ResolvedTexts(env, resolvedRows)[k];
    assert r in ResolvedTexts(env, resolvedRows);
    TrimTwice(env.lower(content));
    assert PairKey(env, r) == PairKey(env, env.lower(content));
  }

  /**
   * Nor is it where the overlap sees it: a string with the same significant words as a listed
   * resolved contradiction, and at least one, is recognised whatever its key.
   */
  lemma SameWordsProtect(env: Env, words: string -> set<string>, resolvedRows: seq<string>, content: string, s: string)
    requires forall a, b :: env.overlap(a, b) == TextOverlap.Overlap(words(a), words(b))
    requires content in resolvedRows
    requires words(env.lower(Trim(s))) == words(Trim(env.lower(content))) != {}
    ensures MatchesResolved(env, resolvedRows, s)
  {
    var k :| 0 <= k < |resolvedRows| && resolvedRows[k] == content;
    var r := ResolvedTexts(env, resolvedRows)[k];
    assert r in ResolvedTexts(env, resolvedRows);
    TextOverlap.FullOverlapExactly(words(env.lower(Trim(s))), words(r));
    assert env.overlap(env.lower(Trim(s)), r) == 1.0;
  }
}
