/**
 * Every interleaving of agents, governance, human approvals, executors and scope resets on one
 * scope (src/agentLoop.ts, src/agents/governanceAgent.ts, src/mitlServer.ts, src/actionExecutor.ts,
 * src/stateGraph.ts).
 *
 * Each step between two awaits is one event. Published messages are never consumed: a proposal or
 * an action may be delivered any number of times, late, and in any order.
 */
module EpochRuns {
  import opened Options
  import opened StateGraph

  // ---------------------------------------------------------------------------------------------
  // Messages and system state
  // ---------------------------------------------------------------------------------------------

  /** Action payloads are JSON: any field may be missing. */
  datatype Payload = Payload(expectedEpoch: Option<int>, runId: Option<RunId>, from: Option<Node>, to: Option<Node>)

  /**
   * `human` is approved_by === "human"; the two flags are result === "approved" and action_type ===
   * "advance_state".
   */
  datatype Action = Action(human: bool, approved: bool, isAdvance: bool, payload: Option<Payload>)

  /** A row of mitl_pending; `fromAgent` records whether governance parked an agent's proposal there. */
  datatype PendingItem = PendingItem(payload: Payload, finalityReview: bool, fromAgent: bool)

  /** What the executor finds under the drift key; a text such as "null" parses to a falsy value. */
  datatype DriftFile = NoFile | Parsed(drift: DriftInput) | ParsedFalsy

  /** The drift option handed to advanceState; None makes it skip the governance check. */
  function DriftOption(f: DriftFile): Option<DriftInput> {
    match f
    case NoFile => Some(DriftInput("none", []))
    case Parsed(d) => Some(d)
    case ParsedFalsy => None
  }

  /** An action as it reaches an executor, which loads the drift text and the policy in force for it. */
  datatype Delivery = Delivery(action: Action, drift: DriftFile, policy: CanTransition)

  /** An executor between two awaits: after reading the row, after the governance check, after the commit. */
  datatype Executor =
    | Loaded(delivery: Delivery, expected: nat, from: Node, next: Node)
    | Checked(delivery: Delivery, expected: nat, from: Node, next: Node)
    | Committed(newState: GraphState)

  datatype Sys = Sys(
    db: Db,
    causes: seq<Delivery>,            // which delivery committed each audit event
    runs: set<RunId>,                 // run ids handed out so far
    proposals: set<Payload>,          // published by agents
    governing: map<nat, Payload>,     // proposals that governance has read the row for, as it will repeat them
    pending: map<nat, PendingItem>,   // mitl_pending
    held: map<nat, PendingItem>,      // items read by an approval in progress
    actions: set<Action>,             // published
    agentActions: set<Action>,        // those that governance or a human made from an agent's proposal
    execs: map<nat, Executor>,
    published: seq<AuditEvent>        // events the executors put on the bus
  )

  const START: Sys := Sys(Db(None, []), [], {}, {}, map[], map[], map[], {}, {}, map[], [])

  datatype Event =
    | Init(run: RunId, node: Node)
    | Reset(run: RunId, node: Node)
    | DeleteRow
    | Reinit(run: RunId)
    | Propose
    | Consider(gov: nat, proposal: Payload)
    | Approve(gov: nat)
    | Park(gov: nat, id: nat)
    | Reject(gov: nat)
    | ParkOther(id: nat, item: PendingItem)
    | HumanRead(human: nat, id: nat)
    | HumanPublish(human: nat)
    | HumanRemove(id: nat)
    | PublishOther(action: Action)
    | Load(exec: nat, delivery: Delivery)
    | Check(exec: nat)
    | Commit(exec: nat)
    | Announce(exec: nat)

  /** The proposal an agent builds from the row it has just read. */
  function ProposalFor(r: GraphState): Payload {
    Payload(Some(r.epoch), Some(r.runId), Some(r.lastNode), Some(Transition(r.lastNode)))
  }

  predicate IsCurrent(s: Sys, p: Payload) {
    s.db.row.Some? && p.expectedEpoch == Some(s.db.row.value.epoch)
  }

  /** Governance repeats the proposal's edge and epoch but stamps the run id of its own read. */
  function Restamped(s: Sys, p: Payload): Payload
    requires s.db.row.Some?
  {
    p.(runId := Some(s.db.row.value.runId))
  }

  function HumanAction(p: Payload): Action {
    Action(true, true, true, Some(p))
  }

  function AutoAction(p: Payload): Action {
    Action(false, true, true, Some(p))
  }

  /**
   * What surrounds a run: the nodes that callers pass to init and reset, the policies that may be in
   * force when an action is delivered, and whether a drift text can parse to a falsy value.
   */
  datatype World = World(starts: set<Node>, policies: CanTransition -> bool, falsyDrift: bool)

  /** The upsert after a scope reset names its own node. */
  predicate Possible(w: World, e: Event) {
    match e
    case Init(_, node) => node in w.starts
    case Reset(_, node) => node in w.starts
    case Reinit(_) => ContextIngested in w.starts
    case Load(_, d) => Deliverable(w, d)
    case _ => true
  }

  /** A human approval loads neither drift nor policy. */
  predicate Deliverable(w: World, d: Delivery) {
    d.action.human || (w.policies(d.policy) && (d.drift == ParsedFalsy ==> w.falsyDrift))
  }

  /** Run ids are random UUIDs, hence new. */
  predicate Enabled(s: Sys, e: Event) {
    match e
    case Init(run, _) => run !in s.runs
    case Reset(run, _) => run !in s.runs
    case DeleteRow => true
    case Reinit(run) => run !in s.runs
    case Propose => s.db.row.Some?
    case Consider(g, p) => p in s.proposals && IsCurrent(s, p) && g !in s.governing
    case Approve(g) => g in s.governing
    case Park(g, _) => g in s.governing
    case Reject(g) => g in s.governing
    case ParkOther(_, item) => !item.fromAgent
    case HumanRead(_, id) => id in s.pending && !s.pending[id].finalityReview
    case HumanPublish(h) => h in s.held
    case HumanRemove(_) => true
    case PublishOther(_) => true
    case Load(x, d) => d.action in s.actions && x !in s.execs
    case Check(x) => x in s.execs && s.execs[x].Loaded?
    case Commit(x) => x in s.execs && s.execs[x].Checked?
    case Announce(x) => x in s.execs && s.execs[x].Committed?
  }

  /** In no state can anything keep callers from the row, humans from the list, or others from the bus. */
  lemma OutsideIsNeverBlocked(s: Sys, run: RunId, node: Node, id: nat, item: PendingItem, a: Action)
    requires run !in s.runs && !item.fromAgent
    ensures Enabled(s, Init(run, node)) && Enabled(s, Reset(run, node)) && Enabled(s, DeleteRow)
    ensures Enabled(s, Reinit(run)) && Enabled(s, HumanRemove(id)) && Enabled(s, ParkOther(id, item))
    ensures Enabled(s, PublishOther(a))
  {
  }

  /** executeActionInline up to the read of the row inside advanceState. */
  function LoadExec(s: Sys, x: nat, d: Delivery): Sys {
    var a := d.action;
    if !a.approved || a.payload.None? || !a.isAdvance || !IsCurrent(s, a.payload.value) then s
    else
      var r := s.db.row.value;
      s.(execs := s.execs[x := Loaded(d, r.epoch, r.lastNode, Transition(r.lastNode))])
  }

  /** A human approval passes no drift; otherwise governance judges the edge that was read. */
  predicate MayCommit(d: Delivery, from: Node, next: Node) {
    d.action.human || DriftOption(d.drift).None? || d.policy(from, next, DriftOption(d.drift).value)
  }

  function CheckExec(s: Sys, x: nat): Sys
    requires x in s.execs && s.execs[x].Loaded?
  {
    var l := s.execs[x];
    if MayCommit(l.delivery, l.from, l.next)
    then s.(execs := s.execs[x := Checked(l.delivery, l.expected, l.from, l.next)])
    else s.(execs := s.execs - {x})
  }

  function CommitExec(s: Sys, x: nat): Sys
    requires x in s.execs && s.execs[x].Checked?
  {
    var c := s.execs[x];
    if s.db.row.Some? && s.db.row.value.epoch == c.expected then
      var db' := CommitDb(s.db, c.from, c.next, c.expected);
      s.(db := db', causes := s.causes + [c.delivery], execs := s.execs[x := Committed(db'.row.value)])
    else s.(execs := s.execs - {x})
  }

  /** The executor does not remember the edge: it looks the source node up by the target. */
  function AnnounceExec(s: Sys, x: nat): Sys
    requires x in s.execs && s.execs[x].Committed?
  {
    var n := s.execs[x].newState;
    var s' := s.(execs := s.execs - {x});
    match Predecessor(n.lastNode)
    case None => s'
    case Some(from) => s'.(published := s.published + [AuditEvent(from, n.lastNode, n.epoch, n.runId)])
  }

  function PublishHeld(s: Sys, h: nat): Sys
    requires h in s.held
  {
    var a := HumanAction(s.held[h].payload);
    s.(actions := s.actions + {a},
       agentActions := if s.held[h].fromAgent then s.agentActions + {a} else s.agentActions,
       held := s.held - {h})
  }

  function Apply(s: Sys, e: Event): Sys
    requires Enabled(s, e)
  {
    match e
    case Init(run, node) => s.(db := InitDb(s.db, run, node), runs := s.runs + {run})
    case Reset(run, node) => s.(db := ResetDb(s.db, run, node), runs := s.runs + {run})
    case DeleteRow => s.(db := DeleteDb(s.db))
    case Reinit(run) => s.(db := ReinitDb(s.db, run), runs := s.runs + {run})
    case Propose => s.(proposals := s.proposals + {ProposalFor(s.db.row.value)})
    case Consider(g, p) => s.(governing := s.governing[g := Restamped(s, p)])
    case Approve(g) =>
      var a := AutoAction(s.governing[g]);
      s.(actions := s.actions + {a}, agentActions := s.agentActions + {a}, governing := s.governing - {g})
    case Park(g, id) =>
      s.(pending := s.pending[id := PendingItem(s.governing[g], false, true)], governing := s.governing - {g})
    case Reject(g) => s.(governing := s.governing - {g})
    case ParkOther(id, item) => s.(pending := s.pending[id := item])
    case HumanRead(h, id) => s.(held := s.held[h := s.pending[id]])
    case HumanPublish(h) => PublishHeld(s, h)
    case HumanRemove(id) => s.(pending := s.pending - {id})
    case PublishOther(a) => s.(actions := s.actions + {a})
    case Load(x, d) => LoadExec(s, x, d)
    case Check(x) => CheckExec(s, x)
    case Commit(x) => CommitExec(s, x)
    case Announce(x) => AnnounceExec(s, x)
  }

  predicate ValidRun(w: World, s: Sys, es: seq<Event>)
    decreases |es|
  {
    es == [] || (Possible(w, es[0]) && Enabled(s, es[0]) && ValidRun(w, Apply(s, es[0]), es[1..]))
  }

  function Run(w: World, s: Sys, es: seq<Event>): Sys
    requires ValidRun(w, s, es)
    decreases |es|
  {
    if es == [] then s else Run(w, Apply(s, es[0]), es[1..])
  }
}
