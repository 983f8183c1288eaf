/**
 * The processes of one scope in the form they have in the program: the agent that proposes an
 * advance (src/agentLoop.ts), governance (src/agents/governanceAgent.ts), the approval server
 * (src/mitlServer.ts) and the executor (src/actionExecutor.ts).
 *
 * Each method runs to its end undisturbed, and its contract says that it then performs the events of
 * EpochRuns in the order in which the interleaved system takes them one by one.
 */
module ScopeProcesses {
  import opened Options
  import opened StateGraph
  import opened EpochRuns
  import opened EpochSafety

  datatype ApproveResult = Approved | NotFound | UseFinalityResponse

  datatype Mode = Yolo | Mitl | Master

  /** What the agent publishes: the payload, the target node and the governance mode. */
  datatype Proposal = Proposal(target: Node, payload: Payload, mode: Mode)

  /** The kernel's verdict; an accepted proposal still needs the agent's permission. */
  datatype Verdict = Reject | Escalate | Accept(permitted: bool)

  datatype Ruling = Ignored | Rejected | Parked | AutoApproved

  datatype Job = ExtractFacts | CheckDrift | PropagateEvidence | ExtractDeltas

  /** getNextJobForNode */
  function NextJob(n: Node): Job {
    match n
    case ContextIngested => ExtractFacts
    case FactsExtracted => CheckDrift
    case DriftChecked => PropagateEvidence
    case EvidencePropagated => ExtractDeltas
    case DeltasExtracted => ExtractFacts
  }

  /** What the agents that propose advances require and do (AGENT_SPECS). */
  datatype AgentSpec = AgentSpec(job: Job, requiresNode: Option<Node>, requiresNodeList: seq<Node>, advancesTo: Node)

  const AGENT_SPECS: seq<AgentSpec> := [
    AgentSpec(ExtractFacts, Some(ContextIngested),
              [ContextIngested, DeltasExtracted, DriftChecked, EvidencePropagated], FactsExtracted),
    AgentSpec(CheckDrift, Some(FactsExtracted), [], DriftChecked),
    AgentSpec(PropagateEvidence, Some(DriftChecked), [], EvidencePropagated),
    AgentSpec(ExtractDeltas, Some(EvidencePropagated), [], DeltasExtracted)]

  /** The agent's node requirement: a list of nodes if it has one, else a single node, else none. */
  predicate AllowedNode(requiresNode: Option<Node>, requiresNodeList: seq<Node>, n: Node) {
    if requiresNodeList != [] then n in requiresNodeList
    else requiresNode.None? || n == requiresNode.value
  }

  /**
   * The cycle never stalls: the job published at a node is that of an agent allowed there. It is the
   * agent made for the node, whose target is the next node, except where the cycle closes.
   */
  lemma NextJobIsDue(n: Node)
    ensures exists k :: 0 <= k < |AGENT_SPECS| && IsDue(AGENT_SPECS[k], n)
  {
    match n {
      case ContextIngested => assert IsDue(AGENT_SPECS[0], n);
      case FactsExtracted => assert IsDue(AGENT_SPECS[1], n);
      case DriftChecked => assert IsDue(AGENT_SPECS[2], n);
      case EvidencePropagated => assert IsDue(AGENT_SPECS[3], n);
      case DeltasExtracted => assert IsDue(AGENT_SPECS[0], n);
    }
  }

  predicate IsDue(a: AgentSpec, n: Node) {
    && a.job == NextJob(n) && AllowedNode(a.requiresNode, a.requiresNodeList, n)
    && if n == DeltasExtracted then a.requiresNode == Some(Transition(n))
       else a.requiresNode == Some(n) && a.advancesTo == Transition(n)
  }

  /** Load, check, commit and announce with nothing in between; each of the first three may be the last. */
  function ExecuteAtOnce(s: Sys, x: nat, d: Delivery): Sys
    requires x !in s.execs
  {
    var loaded := LoadExec(s, x, d);
    if x !in loaded.execs then loaded
    else
      var checked := CheckExec(loaded, x);
      if x !in checked.execs then checked
      else
        var committed := CommitExec(checked, x);
        if x !in committed.execs then committed else AnnounceExec(committed, x)
  }

  function ApproveAtOnce(s: Sys, human: nat, id: nat): Sys
    requires Enabled(s, HumanRead(human, id))
  {
    Apply(Apply(Apply(s, HumanRead(human, id)), HumanPublish(human)), HumanRemove(id))
  }

  lemma ApproveOutcome(s: Sys, human: nat, id: nat)
    requires Enabled(s, HumanRead(human, id)) && human !in s.held
    ensures var item := s.pending[id];
            var a := HumanAction(item.payload);
            ApproveAtOnce(s, human, id)
            == s.(actions := s.actions + {a},
                  agentActions := if item.fromAgent then s.agentActions + {a} else s.agentActions,
                  pending := s.pending - {id})
  {
    var read := Apply(s, HumanRead(human, id));
    assert read.held == s.held[human := s.pending[id]];
    assert s.held[human := s.pending[id]] - {human} == s.held;
  }

  /** An undisturbed execution is one of the interleaved runs. */
  lemma ExecuteIsRun(w: World, s: Sys, x: nat, d: Delivery) returns (es: seq<Event>)
    requires Enabled(s, Load(x, d)) && Possible(w, Load(x, d))
    ensures es != [] && es[0] == Load(x, d)
    ensures ValidRun(w, s, es) && Run(w, s, es) == ExecuteAtOnce(s, x, d)
  {
    var loaded := LoadExec(s, x, d);
    if x !in loaded.execs {
      es := [Load(x, d)];
      OneStep(w, s, Load(x, d));
    } else {
      var later := CheckedIsRun(w, loaded, x);
      es := [Load(x, d)] + later;
      FirstStep(w, s, Load(x, d), later);
    }
  }

  lemma CheckedIsRun(w: World, loaded: Sys, x: nat) returns (es: seq<Event>)
    requires x in loaded.execs && loaded.execs[x].Loaded?
    ensures var checked := CheckExec(loaded, x);
            && ValidRun(w, loaded, es)
            && Run(w, loaded, es)
               == if x !in checked.execs then checked
                  else
                    var committed := CommitExec(checked, x);
                    if x !in committed.execs then committed else AnnounceExec(committed, x)
  {
    var checked := CheckExec(loaded, x);
    if x !in checked.execs {
      es := [Check(x)];
      OneStep(w, loaded, Check(x));
    } else {
      var committed := CommitExec(checked, x);
      if x !in committed.execs {
        es := [Check(x), Commit(x)];
        TwoSteps(w, loaded, Check(x), Commit(x));
      } else {
        es := [Check(x)] + [Commit(x), Announce(x)];
        TwoSteps(w, checked, Commit(x), Announce(x));
        FirstStep(w, loaded, Check(x), [Commit(x), Announce(x)]);
      }
    }
  }

  lemma FirstStep(w: World, s: Sys, e: Event, es: seq<Event>)
    requires Enabled(s, e) && Possible(w, e)
    ensures ValidRun(w, s, [e] + es) <==> ValidRun(w, Apply(s, e), es)
    ensures ValidRun(w, s, [e] + es) ==> Run(w, s, [e] + es) == Run(w, Apply(s, e), es)
  {
    assert ([e] + es)[1..] == es;
  }

  lemma OneStep(w: World, s: Sys, e: Event)
    requires Enabled(s, e) && Possible(w, e)
    ensures ValidRun(w, s, [e]) && Run(w, s, [e]) == Apply(s, e)
  {
    FirstStep(w, s, e, []);
    assert [e] + [] == [e];
  }

  lemma TwoSteps(w: World, s: Sys, e: Event, f: Event)
    requires Enabled(s, e) && Possible(w, e) && Enabled(Apply(s, e), f) && Possible(w, f)
    ensures ValidRun(w, s, [e, f])
    ensures Run(w, s, [e, f]) == Apply(Apply(s, e), f)
  {
    OneStep(w, Apply(s, e), f);
    FirstStep(w, s, e, [f]);
    assert [e] + [f] == [e, f];
  }

  /** The delivery advances the scope: well-formed, current, and allowed on the row's own edge. */
  predicate Advances(s: Sys, d: Delivery) {
    && d.action.approved && d.action.payload.Some? && d.action.isAdvance && IsCurrent(s, d.action.payload.value)
    && MayCommit(d, s.db.row.value.lastNode, Transition(s.db.row.value.lastNode))
  }

  function Advanced(s: Sys, d: Delivery): Sys
    requires s.db.row.Some?
  {
    var r := s.db.row.value;
    var db := AtomicAdvance(s.db, r.epoch);
    s.(db := db, causes := s.causes + [d], published := s.published + [db.log[|db.log| - 1]])
  }

  lemma CommitOutcome(s: Sys, x: nat, d: Delivery, r: GraphState)
    requires x !in s.execs && s.db.row == Some(r)
    ensures var checked := s.(execs := s.execs[x := Checked(d, r.epoch, r.lastNode, Transition(r.lastNode))]);
            var committed := CommitExec(checked, x);
            x in committed.execs && committed.execs[x].Committed? && AnnounceExec(committed, x) == Advanced(s, d)
  {
    PredecessorInvertsTransition(r.lastNode);
    var c := Checked(d, r.epoch, r.lastNode, Transition(r.lastNode));
    var n := Committed(NextState(r));
    assert s.execs[x := c][x := n] - {x} == s.execs;
  }

  /** An undisturbed execution is one atomic advance, announced as it was audited, or nothing at all. */
  lemma ExecuteOutcome(s: Sys, x: nat, d: Delivery)
    requires x !in s.execs
    ensures ExecuteAtOnce(s, x, d) == if Advances(s, d) then Advanced(s, d) else s
  {
    var loaded := LoadExec(s, x, d);
    if x in loaded.execs {
      var l := loaded.execs[x];
      var c := CheckedFrom(l);
      assert s.execs[x := l] - {x} == s.execs && s.execs[x := l][x := c] == s.execs[x := c];
      CommitOutcome(s, x, d, s.db.row.value);
    }
  }

  /**
   * When an undisturbed delivery advances the scope, and what it does then: a human approval on its
   * epoch alone, any other if the policy allows the row's edge under the stored report, under level
   * "none" without one, and always if the text parses to a falsy value.
   */
  lemma DeliveryAdvancesExactly(s: Sys, x: nat, d: Delivery)
    requires x !in s.execs
    ensures var a, after := d.action, ExecuteAtOnce(s, x, d);
            var current := s.db.row.Some? && a.payload.Some?
                           && a.payload.value.expectedEpoch == Some(s.db.row.value.epoch);
            if a.approved && a.isAdvance && current
               && (a.human
                   || match d.drift
                      case Parsed(r) => d.policy(s.db.row.value.lastNode, Transition(s.db.row.value.lastNode), r)
                      case NoFile =>
                        d.policy(s.db.row.value.lastNode, Transition(s.db.row.value.lastNode), DriftInput("none", []))
                      case ParsedFalsy => true)
            then
              var r := s.db.row.value;
              var audit := AuditEvent(r.lastNode, Transition(r.lastNode), r.epoch + 1, r.runId);
              after == s.(db := Db(Some(GraphState(r.runId, Transition(r.lastNode), r.epoch + 1)), s.db.log + [audit]),
                          causes := s.causes + [d], published := s.published + [audit])
            else after == s
  {
    ExecuteOutcome(s, x, d);
  }

  /** Governance parks or approves with nothing between its read of the row and the message or row it writes. */
  function ParkAtOnce(s: Sys, gov: nat, p: Payload, id: nat): Sys
    requires Enabled(s, Consider(gov, p))
  {
    Apply(Apply(s, Consider(gov, p)), Park(gov, id))
  }

  function ApproveProposalAtOnce(s: Sys, gov: nat, p: Payload): Sys
    requires Enabled(s, Consider(gov, p))
  {
    Apply(Apply(s, Consider(gov, p)), Approve(gov))
  }

  class Scope {
    const store: StateStore
    var proposals: set<Payload>
    var pending: map<nat, PendingItem>
    var actions: set<Action>
    var rejected: seq<nat>
    var published: seq<AuditEvent>
    var sent: seq<Proposal>
    var jobs: seq<Job>
    /** The remaining components of the interleaved system. */
    ghost var others: Sys

    constructor ()
      ensures fresh(store) && View() == START && rejected == [] && sent == [] && jobs == []
    {
      store := new StateStore();
      proposals, pending, actions, rejected, published, sent, jobs := {}, map[], {}, [], [], [], [];
      others := START;
    }

    ghost function View(): Sys
      reads this, store
    {
      others.(db := store.Contents(), proposals := proposals, pending := pending, actions := actions,
              published := published)
    }

    /** The last step of an agent that proposes advances; the mode is that of the scope's policy. */
    method ProposeAdvance(proposesAdvance: bool, advancesTo: Option<Node>, requiresNode: Option<Node>,
                          requiresNodeList: seq<Node>, mode: Option<Mode>)
      returns (emitted: bool)
      modifies this
      ensures emitted <==>
                && proposesAdvance && advancesTo.Some? && old(store.row).Some?
                && (if requiresNodeList != [] then old(store.row).value.lastNode in requiresNodeList
                    else requiresNode == None || requiresNode == Some(old(store.row).value.lastNode))
      ensures View() == if emitted then Apply(old(View()), Propose) else old(View())
      ensures emitted ==>
                sent == old(sent) + [Proposal(Transition(old(store.row).value.lastNode),
                                              ProposalFor(old(store.row).value),
                                              if mode.Some? then mode.value else Yolo)]
      ensures !emitted ==> sent == old(sent)
      ensures rejected == old(rejected) && jobs == old(jobs)
    {
      if !proposesAdvance || advancesTo.None? {
        return false;
      }
      var stateBefore := store.LoadState();
      if stateBefore.Some? && AllowedNode(requiresNode, requiresNodeList, stateBefore.value.lastNode) {
        var to := Transition(stateBefore.value.lastNode);
        var payload := Payload(Some(stateBefore.value.epoch), Some(stateBefore.value.runId),
                               Some(stateBefore.value.lastNode), Some(to));
        proposals := proposals + {payload};
        sent := sent + [Proposal(to, payload, if mode.Some? then mode.value else Yolo)];
        return true;
      }
      return false;
    }

    /** A second item under the same id replaces the first. */
    method AddPending(id: nat, item: PendingItem)
      modifies this`pending
      ensures pending == old(pending)[id := item]
    {
      pending := pending[id := item];
    }

    /**
     * Governance on a delivered proposal: the verdict is the kernel's, on the proposal's own edge. A
     * proposal for another epoch than the row's is rejected before the kernel is asked.
     */
    method Govern(proposal: Payload, isAdvance: bool, verdict: Verdict, id: nat, ghost gov: nat)
      returns (r: Ruling)
      requires proposal in proposals && gov !in View().governing
      modifies this
      ensures r == Ignored <==> !isAdvance
      ensures r == Parked <==> isAdvance && IsCurrent(old(View()), proposal) && verdict == Escalate
      ensures r == AutoApproved <==> isAdvance && IsCurrent(old(View()), proposal) && verdict == Accept(true)
      ensures View() == if r == Parked then ParkAtOnce(old(View()), gov, proposal, id)
                        else if r == AutoApproved then ApproveProposalAtOnce(old(View()), gov, proposal)
                        else old(View())
      ensures r == Parked ==>
                pending == old(pending)[id :=
                  PendingItem(proposal.(runId := Some(old(store.row).value.runId)), false, true)]
      ensures r != Parked ==> pending == old(pending)
      ensures r == AutoApproved ==>
                actions == old(actions)
                           + {Action(false, true, true, Some(proposal.(runId := Some(old(store.row).value.runId))))}
      ensures r != AutoApproved ==> actions == old(actions)
      ensures rejected == if r == Rejected then old(rejected) + [id] else old(rejected)
    {
      if !isAdvance {
        return Ignored;
      }
      var state := store.LoadState();
      if state.None? || proposal.expectedEpoch != Some(state.value.epoch) {
        rejected := rejected + [id];
        return Rejected;
      }
      var payload := proposal.(runId := Some(state.value.runId));
      assert others.governing[gov := payload] - {gov} == others.governing;
      match verdict {
        case Reject =>
          rejected := rejected + [id];
          return Rejected;
        case Escalate =>
          AddPending(id, PendingItem(payload, false, true));
          return Parked;
        case Accept(permitted) =>
          if !permitted {
            rejected := rejected + [id];
            return Rejected;
          }
          var action := AutoAction(payload);
          actions := actions + {action};
          others := others.(agentActions := others.agentActions + {action});
          return AutoApproved;
      }
    }

    /** The other processes that park something: resolutions and finality reviews. */
    method ParkOtherItem(id: nat, item: PendingItem)
      requires !item.fromAgent
      modifies this
      ensures View() == Apply(old(View()), ParkOther(id, item))
    {
      AddPending(id, item);
    }

    /** The action is published before the row is deleted. */
    method ApprovePending(id: nat, ghost human: nat) returns (r: ApproveResult)
      requires human !in View().held
      modifies this
      ensures r == NotFound <==> id !in old(pending)
      ensures r == UseFinalityResponse <==> id in old(pending) && old(pending)[id].finalityReview
      ensures View() == if r == Approved then ApproveAtOnce(old(View()), human, id) else old(View())
      ensures pending == if r == Approved then old(pending) - {id} else old(pending)
      ensures actions == if r == Approved then old(actions) + {Action(true, true, true, Some(old(pending)[id].payload))}
                         else old(actions)
    {
      if id !in pending {
        return NotFound;
      }
      var item := pending[id];
      if item.finalityReview {
        return UseFinalityResponse;
      }
      ApproveOutcome(View(), human, id);
      var action := HumanAction(item.payload);
      actions := actions + {action};
      pending := pending - {id};
      if item.fromAgent {
        others := others.(agentActions := others.agentActions + {action});
      }
      return Approved;
    }

    /** Rejecting publishes no action; it works for items of every kind. */
    method RejectPending(id: nat) returns (ok: bool)
      modifies this
      ensures ok <==> id in old(pending)
      ensures View() == if ok then Apply(old(View()), HumanRemove(id)) else old(View())
      ensures pending == (if ok then old(pending) - {id} else old(pending)) && actions == old(actions)
      ensures rejected == if ok then old(rejected) + [id] else old(rejected)
    {
      if id !in pending {
        return false;
      }
      rejected := rejected + [id];
      pending := pending - {id};
      return true;
    }

    /** A human approval passes no drift, and with no drift the store asks no governance. */
    method ExecuteActionInline(action: Action, drift: DriftFile, can: CanTransition)
      modifies this, store
      ensures var d := Delivery(action, drift, can);
              && View() == (if Advances(old(View()), d) then Advanced(old(View()), d) else old(View()))
              && jobs == if Advances(old(View()), d)
                         then old(jobs) + [NextJob(Transition(old(store.row).value.lastNode))] else old(jobs)
      ensures var advances :=
                && action.approved && action.isAdvance && action.payload.Some? && old(store.row).Some?
                && action.payload.value.expectedEpoch == Some(old(store.row).value.epoch)
                && (action.human
                    || match drift
                       case Parsed(r) =>
                         can(old(store.row).value.lastNode, Transition(old(store.row).value.lastNode), r)
                       case NoFile =>
                         can(old(store.row).value.lastNode, Transition(old(store.row).value.lastNode),
                             DriftInput("none", []))
                       case ParsedFalsy => true);
              if advances then
                var r := old(store.row).value;
                && store.row == Some(GraphState(r.runId, Transition(r.lastNode), r.epoch + 1))
                && published == old(published)
                                + [AuditEvent(r.lastNode, Transition(r.lastNode), r.epoch + 1, r.runId)]
              else store.row == old(store.row) && published == old(published) && jobs == old(jobs)
    {
      if !action.approved || action.payload.None? {
        return;
      }
      if !action.isAdvance {
        return;
      }
      var expectedEpoch := action.payload.value.expectedEpoch;
      ghost var edgeFrom := if store.row.Some? then store.row.value.lastNode else ContextIngested;
      var driftOption := if action.human then None else DriftOption(drift);
      var newState := store.AdvanceState(expectedEpoch, driftOption, can);
      if newState.None? {
        return;
      }
      others := others.(causes := others.causes + [Delivery(action, drift, can)]);
      jobs := jobs + [NextJob(newState.value.lastNode)];
      PredecessorInvertsTransition(edgeFrom);
      var fromNode := Predecessor(newState.value.lastNode);
      if fromNode.Some? {
        var n := newState.value;
        published := published + [AuditEvent(fromNode.value, n.lastNode, n.epoch, n.runId)];
      }
    }
  }
}
