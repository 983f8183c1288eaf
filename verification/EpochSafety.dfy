/**
 * Why a compare-and-swap on the epoch alone is enough, although resets put the epoch back to zero:
 * when every init and reset starts at one node, the node is a function of the epoch.
 */
module EpochSafety {
  import opened Options
  import opened StateGraph
  import opened EpochRuns

  // ---------------------------------------------------------------------------------------------
  // The audit log of one run
  // ---------------------------------------------------------------------------------------------

  /** The audit events of one run id, in commit order. */
  function RunLog(log: seq<AuditEvent>, r: RunId): seq<AuditEvent> {
    if log == [] then []
    else
      var front := RunLog(log[..|log| - 1], r);
      if log[|log| - 1].runId == r then front + [log[|log| - 1]] else front
  }

  /** Epochs 1 to n of a run, each event one transition further. */
  function Chain(start: Node, r: RunId, n: nat): (c: seq<AuditEvent>)
    ensures |c| == n
  {
    if n == 0 then []
    else Chain(start, r, n - 1) + [AuditEvent(NodeAt(start, n - 1), NodeAt(start, n), n, r)]
  }

  lemma {:induction false} ChainAt(start: Node, r: RunId, n: nat, k: nat)
    requires k < n
    ensures Chain(start, r, n)[k] == AuditEvent(NodeAt(start, k), NodeAt(start, k + 1), k + 1, r)
  {
    if k < n - 1 {
      ChainAt(start, r, n - 1, k);
    }
  }

  lemma {:induction false} RunLogPosition(log: seq<AuditEvent>, i: nat)
    requires i < |log|
    ensures var r := log[i].runId;
            |RunLog(log[..i], r)| < |RunLog(log, r)| && RunLog(log, r)[|RunLog(log[..i], r)|] == log[i]
  {
    var front := log[..|log| - 1];
    if i < |front| {
      RunLogPosition(front, i);
      assert front[..i] == log[..i];
    } else {
      assert log[..i] == front;
    }
  }

  lemma {:induction false} RunLogGrows(log: seq<AuditEvent>, i: nat, j: nat, r: RunId)
    requires i <= j <= |log|
    ensures |RunLog(log[..i], r)| <= |RunLog(log[..j], r)|
  {
    if i < j {
      RunLogGrows(log, i, j - 1, r);
      assert log[..j][..j - 1] == log[..j - 1];
    }
  }

  // ---------------------------------------------------------------------------------------------
  // Invariants
  // ---------------------------------------------------------------------------------------------

  ghost predicate RowInv(start: Node, s: Sys) {
    s.db.row.Some? ==> s.db.row.value.lastNode == NodeAt(start, s.db.row.value.epoch) && s.db.row.value.runId in s.runs
  }

  ghost predicate LogInv(start: Node, log: seq<AuditEvent>) {
    forall i :: 0 <= i < |log| ==>
      && log[i].epoch >= 1
      && log[i].from == NodeAt(start, log[i].epoch - 1)
      && log[i].to == NodeAt(start, log[i].epoch)
  }

  /** An executor's remembered edge is the edge of its epoch, and the epoch is the action's. */
  ghost predicate ExecInv(start: Node, s: Sys, x: Executor) {
    match x
    case Loaded(d, e, from, next) => ClaimInv(start, s, d.action, e, from, next)
    case Checked(d, e, from, next) => ClaimInv(start, s, d.action, e, from, next) && MayCommit(d, from, next)
    case Committed(n) =>
      && n.epoch >= 1
      && AuditEvent(NodeAt(start, n.epoch - 1), n.lastNode, n.epoch, n.runId) in s.db.log
                         && n.lastNode == NodeAt(start, n.epoch)
  }

  ghost predicate ClaimInv(start: Node, s: Sys, a: Action, e: nat, from: Node, next: Node) {
    && from == NodeAt(start, e) && next == Transition(from)
    && a in s.actions && a.payload.Some? && a.payload.value.expectedEpoch == Some(e)
  }

  ghost predicate ExecsInv(start: Node, s: Sys) {
    forall x :: x in s.execs ==> ExecInv(start, s, s.execs[x])
  }

  ghost predicate ChainInv(start: Node, s: Sys) {
    && (forall r :: RunLog(s.db.log, r) == Chain(start, r, |RunLog(s.db.log, r)|))
    && (forall r :: r !in s.runs ==> RunLog(s.db.log, r) == [])
    && (s.db.row.Some? ==> |RunLog(s.db.log, s.db.row.value.runId)| == s.db.row.value.epoch)
  }

  /** What is known about the delivery that committed an audit event. */
  ghost predicate CauseOf(s: Sys, c: Delivery, a: AuditEvent) {
    && c.action in s.actions && c.action.payload.Some? && c.action.payload.value.expectedEpoch == Some(a.epoch - 1)
    && MayCommit(c, a.from, a.to)
  }

  ghost predicate CauseInv(s: Sys) {
    && |s.causes| == |s.db.log|
    && forall i :: 0 <= i < |s.causes| ==> CauseOf(s, s.causes[i], s.db.log[i])
  }

  /** The payload names an edge of the cycle at its own epoch. */
  ghost predicate OnEdge(start: Node, p: Payload) {
    && p.expectedEpoch.Some? && p.expectedEpoch.value >= 0
    && p.from == Some(NodeAt(start, p.expectedEpoch.value))
    && p.to == Some(NodeAt(start, p.expectedEpoch.value + 1))
  }

  /** An agent's payload, with the run id of the read it was built or stamped from. */
  ghost predicate AgentPayload(start: Node, s: Sys, p: Payload) {
    OnEdge(start, p) && p.runId.Some? && p.runId.value in s.runs
  }

  ghost predicate ItemsInv(start: Node, s: Sys, items: map<nat, PendingItem>) {
    forall id :: id in items && items[id].fromAgent ==> AgentPayload(start, s, items[id].payload)
  }

  ghost predicate GoverningInv(start: Node, s: Sys) {
    forall g :: g in s.governing ==> AgentPayload(start, s, s.governing[g])
  }

  ghost predicate ParkedInv(start: Node, s: Sys) {
    ItemsInv(start, s, s.pending) && ItemsInv(start, s, s.held) && GoverningInv(start, s)
  }

  ghost predicate ProposalInv(start: Node, s: Sys) {
    forall p :: p in s.proposals ==> AgentPayload(start, s, p)
  }

  ghost predicate AgentActionInv(start: Node, s: Sys) {
    forall a :: a in s.agentActions ==> a.payload.Some? && AgentPayload(start, s, a.payload.value)
  }

  ghost predicate AgentInv(start: Node, s: Sys) {
    ProposalInv(start, s) && ParkedInv(start, s) && AgentActionInv(start, s)
  }

  ghost predicate AnnouncedInv(s: Sys) {
    forall a :: a in s.published ==> a in s.db.log
  }

  ghost predicate Inv(start: Node, s: Sys) {
    && RowInv(start, s) && LogInv(start, s.db.log) && ExecsInv(start, s)
    && ChainInv(start, s) && CauseInv(s) && AgentInv(start, s) && AnnouncedInv(s)
  }

  // ---------------------------------------------------------------------------------------------
  // Every step keeps the invariant
  // ---------------------------------------------------------------------------------------------

  /** What a step does to the row: nothing, a deletion, a start in a new run, or a commit. */
  lemma RowChange(w: World, s: Sys, e: Event)
    requires Possible(w, e) && Enabled(s, e)
    ensures var s' := Apply(s, e);
            && s.runs <= s'.runs
            && (s'.db.row == s.db.row || s'.db.row == None
                || (s'.db.row.value.epoch == 0 && s'.db.row.value.lastNode in w.starts
                    && s'.db.row.value.runId in s'.runs && s'.db.row.value.runId !in s.runs
                    && s'.db.log == s.db.log)
                || (Swaps(s, e) && s'.db.row == Some(Swapped(s, e.exec))))
  {
  }

  /** The event is a compare-and-swap that succeeds. */
  predicate Swaps(s: Sys, e: Event) {
    && e.Commit? && e.exec in s.execs && s.execs[e.exec].Checked?
    && s.db.row.Some? && s.db.row.value.epoch == s.execs[e.exec].expected
  }

  function Swapped(s: Sys, x: nat): GraphState
    requires x in s.execs && s.execs[x].Checked? && s.db.row.Some?
  {
    GraphState(s.db.row.value.runId, s.execs[x].next, s.execs[x].expected + 1)
  }

  lemma StepKeepsRow(start: Node, w: World, s: Sys, e: Event)
    requires RowInv(start, s) && ExecsInv(start, s) && Enabled(s, e)
    requires Possible(w, e) && w.starts <= {start}
    ensures RowInv(start, Apply(s, e))
  {
    RowChange(w, s, e);
    if Swaps(s, e) {
      assert ExecInv(start, s, s.execs[e.exec]);
    }
  }

  /** Only a commit writes the log, and it appends the edge the executor read. */
  lemma StepExtendsLog(s: Sys, e: Event)
    requires Enabled(s, e)
    ensures Apply(s, e).db.log == if Swaps(s, e) then s.db.log + [CommitEvent(s, e.exec)] else s.db.log
  {
  }

  function CommitEvent(s: Sys, x: nat): AuditEvent
    requires x in s.execs && s.execs[x].Checked? && s.db.row.Some?
  {
    AuditEvent(s.execs[x].from, s.execs[x].next, s.execs[x].expected + 1, s.db.row.value.runId)
  }

  lemma LogKept(start: Node, s: Sys, log: seq<AuditEvent>, e: Event)
    requires LogInv(start, s.db.log) && ExecsInv(start, s)
    requires log == if Swaps(s, e) then s.db.log + [CommitEvent(s, e.exec)] else s.db.log
    ensures LogInv(start, log)
  {
    if Swaps(s, e) {
      assert ExecInv(start, s, s.execs[e.exec]);
    }
  }

  lemma StepKeepsLog(start: Node, s: Sys, e: Event)
    requires LogInv(start, s.db.log) && ExecsInv(start, s) && Enabled(s, e)
    ensures LogInv(start, Apply(s, e).db.log)
  {
    StepExtendsLog(s, e);
    LogKept(start, s, Apply(s, e).db.log, e);
  }

  /** What an executor knows stays true while published actions and the log only grow. */
  lemma ExecInvPersists(start: Node, s: Sys, s': Sys, x: Executor)
    requires ExecInv(start, s, x) && s.actions <= s'.actions && s.db.log <= s'.db.log
    ensures ExecInv(start, s', x)
  {
    if x.Committed? {
      var a := AuditEvent(NodeAt(start, x.newState.epoch - 1), x.newState.lastNode, x.newState.epoch, x.newState.runId);
      var i :| 0 <= i < |s.db.log| && s.db.log[i] == a;
      assert s'.db.log[i] == a;
    }
  }

  lemma CommittedExec(start: Node, s: Sys, x: nat)
    requires ExecsInv(start, s) && x in s.execs && s.execs[x].Checked?
    requires s.db.row.Some? && s.db.row.value.epoch == s.execs[x].expected
    ensures ExecInv(start, CommitExec(s, x), CommitExec(s, x).execs[x])
  {
    var s' := CommitExec(s, x);
    assert ExecInv(start, s, s.execs[x]);
    assert s'.db.log[|s'.db.log| - 1] == CommitEvent(s, x);
  }

  /** What a step does to the executors: one of them takes its own step, the others stay. */
  lemma ExecsChange(s: Sys, e: Event)
    requires Enabled(s, e)
    ensures var s' := Apply(s, e);
            && s.actions <= s'.actions && s.db.log <= s'.db.log
            && forall x :: x in s'.execs ==>
                 || (x in s.execs && s'.execs[x] == s.execs[x])
                 || (e == Commit(x) && Swaps(s, e) && s' == CommitExec(s, x))
                 || (e == Check(x) && MayCommit(s.execs[x].delivery, s.execs[x].from, s.execs[x].next)
                     && s'.execs[x] == CheckedFrom(s.execs[x]))
                 || (e.Load? && e.exec == x && IsLoaded(s, e.delivery, s'.execs[x]))
  {
    StepExtendsLog(s, e);
  }

  function CheckedFrom(x: Executor): Executor
    requires x.Loaded?
  {
    Checked(x.delivery, x.expected, x.from, x.next)
  }

  /** The executor has read the row the action is meant for. */
  ghost predicate IsLoaded(s: Sys, d: Delivery, x: Executor) {
    && d.action in s.actions && d.action.payload.Some? && IsCurrent(s, d.action.payload.value)
    && var r := s.db.row.value; x == Loaded(d, r.epoch, r.lastNode, Transition(r.lastNode))
  }

  lemma ExecKept(start: Node, s: Sys, s': Sys, e: Event, x: nat)
    requires RowInv(start, s) && ExecsInv(start, s) && s.actions <= s'.actions && s.db.log <= s'.db.log
    requires x in s'.execs
    requires || (x in s.execs && s'.execs[x] == s.execs[x])
             || (e == Commit(x) && Swaps(s, e) && s' == CommitExec(s, x))
             || (x in s.execs && s.execs[x].Loaded?
                 && MayCommit(s.execs[x].delivery, s.execs[x].from, s.execs[x].next)
                 && s'.execs[x] == CheckedFrom(s.execs[x]))
             || (e.Load? && IsLoaded(s, e.delivery, s'.execs[x]))
    ensures ExecInv(start, s', s'.execs[x])
  {
    if x in s.execs && s'.execs[x] == s.execs[x] {
      ExecInvPersists(start, s, s', s.execs[x]);
    } else if e == Commit(x) && Swaps(s, e) && s' == CommitExec(s, x) {
      CommittedExec(start, s, x);
    } else if x in s.execs {
      assert ExecInv(start, s, s.execs[x]);
    }
  }

  lemma StepKeepsExecs(start: Node, s: Sys, e: Event)
    requires RowInv(start, s) && ExecsInv(start, s) && Enabled(s, e)
    ensures ExecsInv(start, Apply(s, e))
  {
    var s' := Apply(s, e);
    ExecsChange(s, e);
    forall x | x in s'.execs
      ensures ExecInv(start, s', s'.execs[x])
    {
      ExecKept(start, s, s', e, x);
    }
  }

  lemma RunLogAppend(log: seq<AuditEvent>, a: AuditEvent, r: RunId)
    ensures RunLog(log + [a], r) == if a.runId == r then RunLog(log, r) + [a] else RunLog(log, r)
  {
    assert (log + [a])[..|log|] == log;
  }

  lemma CommitKeepsChain(start: Node, s: Sys, x: nat)
    requires RowInv(start, s) && ExecsInv(start, s) && ChainInv(start, s)
    requires x in s.execs && s.execs[x].Checked?
    requires s.db.row.Some? && s.db.row.value.epoch == s.execs[x].expected
    ensures ChainInv(start, CommitExec(s, x))
  {
    var s' := CommitExec(s, x);
    assert ExecInv(start, s, s.execs[x]);
    var a := CommitEvent(s, x);
    assert s'.db.log == s.db.log + [a];
    forall r
      ensures RunLog(s'.db.log, r) == if a.runId == r then RunLog(s.db.log, r) + [a] else RunLog(s.db.log, r)
    {
      RunLogAppend(s.db.log, a, r);
    }
  }

  lemma ChainKept(start: Node, s: Sys, s': Sys)
    requires ChainInv(start, s) && s'.db.log == s.db.log && s.runs <= s'.runs
    requires s'.db.row == s.db.row || s'.db.row == None
             || (s'.db.row.value.epoch == 0 && s'.db.row.value.runId !in s.runs)
    ensures ChainInv(start, s')
  {
  }

  lemma StepKeepsChain(start: Node, w: World, s: Sys, e: Event)
    requires RowInv(start, s) && ExecsInv(start, s) && ChainInv(start, s) && Enabled(s, e) && Possible(w, e)
    ensures ChainInv(start, Apply(s, e))
  {
    if Swaps(s, e) {
      CommitKeepsChain(start, s, e.exec);
    } else {
      StepExtendsLog(s, e);
      RowChange(w, s, e);
      ChainKept(start, s, Apply(s, e));
    }
  }

  lemma CausesPersist(s: Sys, s': Sys)
    requires CauseInv(s) && s.actions <= s'.actions && s'.causes == s.causes && s'.db.log == s.db.log
    ensures CauseInv(s')
  {
    forall i | 0 <= i < |s'.causes|
      ensures CauseOf(s', s'.causes[i], s'.db.log[i])
    {
      assert CauseOf(s, s.causes[i], s.db.log[i]);
    }
  }

  lemma OnlyCommitsCause(s: Sys, e: Event)
    requires Enabled(s, e) && !e.Commit?
    ensures Apply(s, e).causes == s.causes && Apply(s, e).db.log == s.db.log
    ensures s.actions <= Apply(s, e).actions
  {
  }

  lemma CommitKeepsCauses(start: Node, s: Sys, x: nat)
    requires ExecsInv(start, s) && CauseInv(s) && x in s.execs && s.execs[x].Checked?
    ensures CauseInv(CommitExec(s, x))
  {
    var s' := CommitExec(s, x);
    assert ExecInv(start, s, s.execs[x]);
    forall i | 0 <= i < |s'.causes|
      ensures |s'.causes| == |s'.db.log| && CauseOf(s', s'.causes[i], s'.db.log[i])
    {
      if i < |s.causes| {
        assert CauseOf(s, s.causes[i], s.db.log[i]);
      }
    }
  }

  lemma StepKeepsCauses(start: Node, s: Sys, e: Event)
    requires ExecsInv(start, s) && CauseInv(s) && Enabled(s, e)
    ensures CauseInv(Apply(s, e))
  {
    if e.Commit? {
      CommitKeepsCauses(start, s, e.exec);
    } else {
      OnlyCommitsCause(s, e);
      CausesPersist(s, Apply(s, e));
    }
  }

  lemma ProposalsChange(s: Sys, e: Event)
    requires Enabled(s, e)
    ensures s.runs <= Apply(s, e).runs
    ensures Apply(s, e).proposals == if e.Propose? then s.proposals + {ProposalFor(s.db.row.value)} else s.proposals
  {
  }

  lemma ProposalsKept(start: Node, s: Sys, s': Sys)
    requires RowInv(start, s) && ProposalInv(start, s) && s.runs <= s'.runs
    requires s'.proposals == s.proposals
             || (s.db.row.Some? && s'.proposals == s.proposals + {ProposalFor(s.db.row.value)})
    ensures ProposalInv(start, s')
  {
    if s.db.row.Some? {
      assert AgentPayload(start, s, ProposalFor(s.db.row.value));
    }
  }

  lemma StepKeepsProposals(start: Node, s: Sys, e: Event)
    requires RowInv(start, s) && ProposalInv(start, s) && Enabled(s, e)
    ensures ProposalInv(start, Apply(s, e))
  {
    ProposalsChange(s, e);
    ProposalsKept(start, s, Apply(s, e));
  }

  lemma RunsGrow(s: Sys, e: Event)
    requires Enabled(s, e)
    ensures s.runs <= Apply(s, e).runs
  {
  }

  lemma ItemsPersist(start: Node, s: Sys, s': Sys, items: map<nat, PendingItem>)
    requires ItemsInv(start, s, items) && s.runs <= s'.runs
    ensures ItemsInv(start, s', items)
  {
  }

  lemma StepKeepsPending(start: Node, s: Sys, e: Event)
    requires GoverningInv(start, s) && ItemsInv(start, s, s.pending) && Enabled(s, e)
    ensures ItemsInv(start, Apply(s, e), Apply(s, e).pending)
  {
    if e.Park? {
      assert AgentPayload(start, s, s.governing[e.gov]);
    } else if !e.ParkOther? && !e.HumanRemove? {
      RunsGrow(s, e);
      PendingStays(s, e);
      ItemsPersist(start, s, Apply(s, e), s.pending);
    }
  }

  lemma PendingStays(s: Sys, e: Event)
    requires Enabled(s, e) && !e.Park? && !e.ParkOther? && !e.HumanRemove?
    ensures Apply(s, e).pending == s.pending
  {
  }

  lemma HeldStays(s: Sys, e: Event)
    requires Enabled(s, e) && !e.HumanRead? && !e.HumanPublish?
    ensures Apply(s, e).held == s.held
  {
  }

  lemma StepKeepsHeld(start: Node, s: Sys, e: Event)
    requires ParkedInv(start, s) && Enabled(s, e)
    ensures ItemsInv(start, Apply(s, e), Apply(s, e).held)
  {
    if !e.HumanRead? && !e.HumanPublish? {
      RunsGrow(s, e);
      HeldStays(s, e);
      ItemsPersist(start, s, Apply(s, e), s.held);
    }
  }

  lemma GoverningChange(s: Sys, e: Event)
    requires Enabled(s, e)
    ensures s.runs <= Apply(s, e).runs
    ensures forall g :: g in Apply(s, e).governing ==>
              || (g in s.governing && Apply(s, e).governing[g] == s.governing[g])
              || (e.Consider? && Apply(s, e).governing[g] == Restamped(s, e.proposal))
  {
  }

  lemma GoverningKept(start: Node, s: Sys, s': Sys, e: Event)
    requires RowInv(start, s) && ProposalInv(start, s) && GoverningInv(start, s) && Enabled(s, e)
    requires s.runs <= s'.runs
    requires forall g :: g in s'.governing ==>
               || (g in s.governing && s'.governing[g] == s.governing[g])
               || (e.Consider? && s'.governing[g] == Restamped(s, e.proposal))
    ensures GoverningInv(start, s')
  {
    if e.Consider? {
      assert AgentPayload(start, s, e.proposal);
    }
  }

  lemma StepKeepsGoverning(start: Node, s: Sys, e: Event)
    requires RowInv(start, s) && ProposalInv(start, s) && GoverningInv(start, s) && Enabled(s, e)
    ensures GoverningInv(start, Apply(s, e))
  {
    GoverningChange(s, e);
    GoverningKept(start, s, Apply(s, e), e);
  }

  lemma StepKeepsParked(start: Node, s: Sys, e: Event)
    requires RowInv(start, s) && ProposalInv(start, s) && ParkedInv(start, s) && Enabled(s, e)
    ensures ParkedInv(start, Apply(s, e))
  {
    StepKeepsPending(start, s, e);
    StepKeepsHeld(start, s, e);
    StepKeepsGoverning(start, s, e);
  }

  lemma AgentActionsChange(s: Sys, e: Event)
    requires Enabled(s, e)
    ensures s.runs <= Apply(s, e).runs
    ensures forall a :: a in Apply(s, e).agentActions ==>
              || a in s.agentActions
              || (e.Approve? && a == AutoAction(s.governing[e.gov]))
              || (e.HumanPublish? && s.held[e.human].fromAgent && a == HumanAction(s.held[e.human].payload))
  {
  }

  lemma AgentActionKept(start: Node, s: Sys, s': Sys, e: Event, a: Action)
    requires AgentInv(start, s) && s.runs <= s'.runs
    requires || a in s.agentActions
             || (e.Approve? && e.gov in s.governing && a == AutoAction(s.governing[e.gov]))
             || (e.HumanPublish? && e.human in s.held && s.held[e.human].fromAgent
                 && a == HumanAction(s.held[e.human].payload))
    ensures a.payload.Some? && AgentPayload(start, s', a.payload.value)
  {
    if a !in s.agentActions && e.Approve? {
      assert AgentPayload(start, s, s.governing[e.gov]);
    }
  }

  lemma StepKeepsAgentActions(start: Node, s: Sys, e: Event)
    requires AgentInv(start, s) && Enabled(s, e)
    ensures AgentActionInv(start, Apply(s, e))
  {
    AgentActionsChange(s, e);
    forall a | a in Apply(s, e).agentActions
      ensures a.payload.Some? && AgentPayload(start, Apply(s, e), a.payload.value)
    {
      AgentActionKept(start, s, Apply(s, e), e, a);
    }
  }

  lemma StepKeepsAgents(start: Node, s: Sys, e: Event)
    requires RowInv(start, s) && AgentInv(start, s) && Enabled(s, e)
    ensures AgentInv(start, Apply(s, e))
  {
    StepKeepsProposals(start, s, e);
    StepKeepsParked(start, s, e);
    StepKeepsAgentActions(start, s, e);
  }

  lemma StepKeepsAnnounced(start: Node, s: Sys, e: Event)
    requires ExecsInv(start, s) && AnnouncedInv(s) && Enabled(s, e)
    ensures AnnouncedInv(Apply(s, e))
  {
    if e.Announce? {
      assert ExecInv(start, s, s.execs[e.exec]);
      PredecessorInvertsTransition(NodeAt(start, s.execs[e.exec].newState.epoch - 1));
    }
  }

  lemma StepKeepsInv(start: Node, w: World, s: Sys, e: Event)
    requires Inv(start, s) && Enabled(s, e) && Possible(w, e) && w.starts <= {start}
    ensures Inv(start, Apply(s, e))
  {
    StepKeepsRow(start, w, s, e);
    StepKeepsLog(start, s, e);
    StepKeepsExecs(start, s, e);
    StepKeepsChain(start, w, s, e);
    StepKeepsCauses(start, s, e);
    StepKeepsAgents(start, s, e);
    StepKeepsAnnounced(start, s, e);
  }

  lemma {:induction false} RunKeepsInv(start: Node, w: World, s: Sys, es: seq<Event>)
    requires w.starts <= {start} && Inv(start, s) && ValidRun(w, s, es)
    ensures Inv(start, Run(w, s, es))
    decreases |es|
  {
    if es != [] {
      StepKeepsInv(start, w, s, es[0]);
      RunKeepsInv(start, w, Apply(s, es[0]), es[1..]);
    }
  }
}
