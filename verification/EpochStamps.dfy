/**
 * The run id an action is stamped with, against the run it commits in (src/agentLoop.ts,
 * src/agents/governanceAgent.ts, src/stateGraph.ts).
 */
module EpochStamps {
  import opened Options
  import opened StateGraph
  import opened EpochRuns
  import opened EpochSafety
  import opened EpochTheorems

  /** The event puts another run on the row. */
  predicate StartsRun(s: Sys, e: Event) {
    match e
    case Init(_, _) => s.db.row.None?
    case Reset(_, _) => s.db.row.Some?
    case Reinit(_) => true
    case _ => false
  }

  predicate SomeRunStarts(w: World, s: Sys, es: seq<Event>)
    requires ValidRun(w, s, es)
    decreases |es|
  {
    es != [] && (StartsRun(s, es[0]) || SomeRunStarts(w, Apply(s, es[0]), es[1..]))
  }

  ghost predicate RunKnown(s: Sys) {
    s.db.row.Some? ==> s.db.row.value.runId in s.runs
  }

  /** Run r has been handed out, and the row, if any, is in it. */
  ghost predicate InRun(s: Sys, r: RunId) {
    r in s.runs && (s.db.row.Some? ==> s.db.row.value.runId == r)
  }

  /** Run r has been handed out, and the row, if any, is in another. */
  ghost predicate OutOfRun(s: Sys, r: RunId) {
    r in s.runs && (s.db.row.Some? ==> s.db.row.value.runId != r)
  }

  lemma StepKeepsKnown(s: Sys, e: Event)
    requires RunKnown(s) && Enabled(s, e)
    ensures RunKnown(Apply(s, e))
  {
  }

  lemma {:induction false} RunKeepsKnown(w: World, s: Sys, es: seq<Event>)
    requires RunKnown(s) && ValidRun(w, s, es)
    ensures RunKnown(Run(w, s, es))
    decreases |es|
  {
    if es != [] {
      StepKeepsKnown(s, es[0]);
      RunKeepsKnown(w, Apply(s, es[0]), es[1..]);
    }
  }

  lemma StepLeavesRunExactly(s: Sys, e: Event, r: RunId)
    requires InRun(s, r) && Enabled(s, e)
    ensures if StartsRun(s, e) then OutOfRun(Apply(s, e), r) else InRun(Apply(s, e), r)
  {
  }

  lemma StepStaysOut(s: Sys, e: Event, r: RunId)
    requires OutOfRun(s, r) && Enabled(s, e)
    ensures OutOfRun(Apply(s, e), r)
  {
  }

  lemma {:induction false} RunStaysOut(w: World, s: Sys, es: seq<Event>, r: RunId)
    requires OutOfRun(s, r) && ValidRun(w, s, es)
    ensures OutOfRun(Run(w, s, es), r)
    decreases |es|
  {
    if es != [] {
      StepStaysOut(s, es[0], r);
      RunStaysOut(w, Apply(s, es[0]), es[1..], r);
    }
  }

  /** A run id is left for good by the first event that starts another run, and by nothing else. */
  lemma {:induction false} RunLeftExactly(w: World, s: Sys, es: seq<Event>, r: RunId)
    requires InRun(s, r) && ValidRun(w, s, es)
    ensures if SomeRunStarts(w, s, es) then OutOfRun(Run(w, s, es), r)
            else InRun(Run(w, s, es), r)
    decreases |es|
  {
    if es != [] {
      var s' := Apply(s, es[0]);
      StepLeavesRunExactly(s, es[0], r);
      if StartsRun(s, es[0]) {
        RunStaysOut(w, s', es[1..], r);
      } else {
        RunLeftExactly(w, s', es[1..], r);
      }
    }
  }

  // ---------------------------------------------------------------------------------------------
  // Stamps
  // ---------------------------------------------------------------------------------------------

  /** The event builds a payload with the run id of the row it reads. */
  predicate Stamps(s: Sys, e: Event, p: Payload) {
    && s.db.row.Some?
    && match e
       case Propose => p == ProposalFor(s.db.row.value)
       case Consider(_, q) => p == Restamped(s, q)
       case _ => false
  }

  /** An executor about to commit an action with this payload. */
  predicate Commits(s: Sys, x: nat, p: Payload) {
    WouldCommit(s, x) && s.execs[x].delivery.action.payload == Some(p)
  }

  /** The audit event of the commit. */
  function AuditOf(s: Sys, x: nat): AuditEvent
    requires WouldCommit(s, x)
  {
    var log := CommitExec(s, x).db.log;
    log[|log| - 1]
  }

  /**
   * From any state of any run: an action commits in the run it was stamped with exactly if no init,
   * reset or re-init put another run on the row between the stamping and the commit.
   */
  lemma StampExactly(w: World, before: seq<Event>, e: Event, between: seq<Event>, x: nat, p: Payload)
    requires ValidRun(w, START, before)
    requires var s := Run(w, START, before);
             Enabled(s, e) && Stamps(s, e, p) && ValidRun(w, Apply(s, e), between)
    requires Commits(Run(w, Apply(Run(w, START, before), e), between), x, p)
    ensures var s := Apply(Run(w, START, before), e);
            p.runId == Some(AuditOf(Run(w, s, between), x).runId) <==> !SomeRunStarts(w, s, between)
  {
    var s := Run(w, START, before);
    RunKeepsKnown(w, START, before);
    StepLeavesRunExactly(s, e, s.db.row.value.runId);
    RunLeftExactly(w, Apply(s, e), between, s.db.row.value.runId);
  }

  // ---------------------------------------------------------------------------------------------
  // Every action made from an agent's proposal has been stamped
  // ---------------------------------------------------------------------------------------------

  lemma {:induction false} LastStep(w: World, s: Sys, es: seq<Event>)
    requires es != [] && ValidRun(w, s, es)
    ensures var n := |es| - 1;
            && ValidRun(w, s, es[..n]) && Enabled(Run(w, s, es[..n]), es[n])
            && Run(w, s, es) == Apply(Run(w, s, es[..n]), es[n])
    decreases |es|
  {
    var n := |es| - 1;
    if n > 0 {
      LastStep(w, Apply(s, es[0]), es[1..]);
      assert es[1..][..n - 1] == es[..n][1..];
    } else {
      assert es[1..] == [] && es[..0] == [];
    }
  }

  /** Event k of the run stamps the payload. */
  ghost predicate StampedAt(w: World, es: seq<Event>, k: nat, p: Payload) {
    k < |es| && ValidRun(w, START, es[..k]) && Stamps(Run(w, START, es[..k]), es[k], p)
  }

  ghost predicate Stamped(w: World, es: seq<Event>, p: Payload) {
    exists k: nat :: StampedAt(w, es, k, p)
  }

  ghost predicate ItemsStamped(w: World, es: seq<Event>, items: map<nat, PendingItem>) {
    forall id :: id in items && items[id].fromAgent ==> Stamped(w, es, items[id].payload)
  }

  ghost predicate PayloadsStamped(w: World, es: seq<Event>, payloads: map<nat, Payload>) {
    forall g :: g in payloads ==> Stamped(w, es, payloads[g])
  }

  ghost predicate ActionsStamped(w: World, es: seq<Event>, actions: set<Action>) {
    forall a :: a in actions ==> a.payload.Some? && Stamped(w, es, a.payload.value)
  }

  lemma StampedLonger(w: World, es: seq<Event>, p: Payload)
    requires es != [] && Stamped(w, es[..|es| - 1], p)
    ensures Stamped(w, es, p)
  {
    var front := es[..|es| - 1];
    var k: nat :| StampedAt(w, front, k, p);
    assert front[..k] == es[..k];
    assert StampedAt(w, es, k, p);
  }

  lemma ItemsStampedLonger(w: World, es: seq<Event>, items: map<nat, PendingItem>)
    requires es != [] && ItemsStamped(w, es[..|es| - 1], items)
    ensures ItemsStamped(w, es, items)
  {
    forall id | id in items && items[id].fromAgent
      ensures Stamped(w, es, items[id].payload)
    {
      StampedLonger(w, es, items[id].payload);
    }
  }

  lemma PayloadsStampedLonger(w: World, es: seq<Event>, payloads: map<nat, Payload>)
    requires es != [] && PayloadsStamped(w, es[..|es| - 1], payloads)
    ensures PayloadsStamped(w, es, payloads)
  {
    forall g | g in payloads
      ensures Stamped(w, es, payloads[g])
    {
      StampedLonger(w, es, payloads[g]);
    }
  }

  lemma ActionsStampedLonger(w: World, es: seq<Event>, actions: set<Action>)
    requires es != [] && ActionsStamped(w, es[..|es| - 1], actions)
    ensures ActionsStamped(w, es, actions)
  {
    forall a | a in actions
      ensures a.payload.Some? && Stamped(w, es, a.payload.value)
    {
      StampedLonger(w, es, a.payload.value);
    }
  }

  /** What one step does to the payloads made from agents' proposals. */
  lemma StepOfGoverning(s: Sys, e: Event)
    requires Enabled(s, e)
    ensures forall g :: g in Apply(s, e).governing ==>
              || Stamps(s, e, Apply(s, e).governing[g])
              || (g in s.governing && Apply(s, e).governing[g] == s.governing[g])
  {
  }

  lemma StepOfPending(s: Sys, e: Event)
    requires Enabled(s, e)
    ensures forall id :: id in Apply(s, e).pending && Apply(s, e).pending[id].fromAgent ==>
              || (e.Park? && Apply(s, e).pending[id].payload == s.governing[e.gov])
              || (id in s.pending && Apply(s, e).pending[id] == s.pending[id])
  {
  }

  lemma StepOfHeld(s: Sys, e: Event)
    requires Enabled(s, e)
    ensures forall h :: h in Apply(s, e).held && Apply(s, e).held[h].fromAgent ==>
              || (e.HumanRead? && e.id in s.pending && Apply(s, e).held[h] == s.pending[e.id])
              || (h in s.held && Apply(s, e).held[h] == s.held[h])
  {
  }

  lemma {:induction false} RunIsStamped(w: World, es: seq<Event>)
    requires ValidRun(w, START, es)
    ensures var s := Run(w, START, es);
            && ItemsStamped(w, es, s.pending) && ItemsStamped(w, es, s.held) && PayloadsStamped(w, es, s.governing)
            && ActionsStamped(w, es, s.agentActions)
    decreases |es|
  {
    if es != [] {
      var front, e := es[..|es| - 1], es[|es| - 1];
      LastStep(w, START, es);
      RunIsStamped(w, front);
      var s := Run(w, START, front);
      ItemsStampedLonger(w, es, s.pending);
      ItemsStampedLonger(w, es, s.held);
      PayloadsStampedLonger(w, es, s.governing);
      ActionsStampedLonger(w, es, s.agentActions);
      StampedNow(w, es);
      StepStamped(w, es, s, e, Apply(s, e));
    }
  }

  lemma StepStamped(w: World, es: seq<Event>, s: Sys, e: Event, s': Sys)
    requires Enabled(s, e) && s' == Apply(s, e)
    requires ItemsStamped(w, es, s.pending) && ItemsStamped(w, es, s.held) && PayloadsStamped(w, es, s.governing)
    requires ActionsStamped(w, es, s.agentActions)
    requires forall p :: Stamps(s, e, p) ==> Stamped(w, es, p)
    ensures ItemsStamped(w, es, s'.pending) && ItemsStamped(w, es, s'.held) && PayloadsStamped(w, es, s'.governing)
    ensures ActionsStamped(w, es, s'.agentActions)
  {
    StepOfGoverning(s, e);
    StepOfPending(s, e);
    StepOfHeld(s, e);
    AgentActionsChange(s, e);
  }

  lemma StampedNow(w: World, es: seq<Event>)
    requires es != [] && ValidRun(w, START, es[..|es| - 1])
    ensures forall p :: Stamps(Run(w, START, es[..|es| - 1]), es[|es| - 1], p) ==> Stamped(w, es, p)
  {
    forall p | Stamps(Run(w, START, es[..|es| - 1]), es[|es| - 1], p)
      ensures Stamped(w, es, p)
    {
      assert StampedAt(w, es, |es| - 1, p);
    }
  }

  /** So the theorem covers every action that governance or a human made from an agent's proposal. */
  lemma AgentActionsAreStamped(w: World, es: seq<Event>, a: Action)
    requires ValidRun(w, START, es) && a in Run(w, START, es).agentActions
    ensures a.payload.Some? && Stamped(w, es, a.payload.value)
  {
    RunIsStamped(w, es);
  }
}
