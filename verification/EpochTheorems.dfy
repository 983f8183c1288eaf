/** What the epoch compare-and-swap guarantees over every run, and exactly when. */
module EpochTheorems {
  import opened Options
  import opened StateGraph
  import opened EpochRuns
  import opened EpochSafety

  /** The run starts before the scope has a row, and all its inits and resets name one start node. */
  ghost predicate FromStart(w: World, start: Node, es: seq<Event>) {
    w.starts <= {start} && ValidRun(w, START, es)
  }

  ghost function After(w: World, start: Node, es: seq<Event>): Sys
    requires FromStart(w, start, es)
  {
    Run(w, START, es)
  }

  lemma InvAfter(w: World, start: Node, es: seq<Event>)
    requires FromStart(w, start, es)
    ensures Inv(start, After(w, start, es))
  {
    RunKeepsInv(start, w, START, es);
  }

  // ---------------------------------------------------------------------------------------------
  // Refinement of the atomic advance
  // ---------------------------------------------------------------------------------------------

  /** The row operations, with the advance as one indivisible step. */
  datatype AtomicOp =
    | DoNothing
    | DoInit(run: RunId, node: Node)
    | DoReset(run: RunId, node: Node)
    | DoDelete
    | DoReinit(run: RunId)
    | DoAdvance(expectedEpoch: nat)

  function ApplyAtomic(db: Db, op: AtomicOp): Db {
    match op
    case DoNothing => db
    case DoInit(run, node) => InitDb(db, run, node)
    case DoReset(run, node) => ResetDb(db, run, node)
    case DoDelete => DeleteDb(db)
    case DoReinit(run) => ReinitDb(db, run)
    case DoAdvance(e) => AtomicAdvance(db, e)
  }

  function AtomicRun(db: Db, ops: seq<AtomicOp>): Db
    decreases |ops|
  {
    if ops == [] then db else AtomicRun(ApplyAtomic(db, ops[0]), ops[1..])
  }

  /** A commit is the advance; the read and the check before it do nothing to the database. */
  function OpOf(s: Sys, e: Event): AtomicOp
    requires Enabled(s, e)
  {
    match e
    case Init(run, node) => DoInit(run, node)
    case Reset(run, node) => DoReset(run, node)
    case DeleteRow => DoDelete
    case Reinit(run) => DoReinit(run)
    case Commit(x) => DoAdvance(s.execs[x].expected)
    case _ => DoNothing
  }

  function OpsOf(w: World, s: Sys, es: seq<Event>): (ops: seq<AtomicOp>)
    requires ValidRun(w, s, es)
    ensures |ops| == |es|
    decreases |es|
  {
    if es == [] then [] else [OpOf(s, es[0])] + OpsOf(w, Apply(s, es[0]), es[1..])
  }

  lemma StepRefinesAtomic(start: Node, s: Sys, e: Event)
    requires RowInv(start, s) && ExecsInv(start, s) && Enabled(s, e)
    ensures Apply(s, e).db == ApplyAtomic(s.db, OpOf(s, e))
  {
    if e.Commit? {
      assert ExecInv(start, s, s.execs[e.exec]);
    }
  }

  lemma {:induction false} RunRefinesAtomicFrom(w: World, start: Node, s: Sys, es: seq<Event>)
    requires w.starts <= {start} && Inv(start, s) && ValidRun(w, s, es)
    ensures Run(w, s, es).db == AtomicRun(s.db, OpsOf(w, s, es))
    decreases |es|
  {
    if es != [] {
      var s' := Apply(s, es[0]);
      StepKeepsInv(start, w, s, es[0]);
      StepRefinesAtomic(start, s, es[0]);
      RunRefinesAtomicFrom(w, start, s', es[1..]);
      assert OpsOf(w, s, es)[1..] == OpsOf(w, s', es[1..]);
    }
  }

  /** Read, check and commit with anything in between have the effect of one atomic advance at the commit. */
  lemma RunRefinesAtomic(w: World, start: Node, es: seq<Event>)
    requires FromStart(w, start, es)
    ensures After(w, start, es).db == AtomicRun(Db(None, []), OpsOf(w, START, es))
  {
    RunRefinesAtomicFrom(w, start, START, es);
  }

  // ---------------------------------------------------------------------------------------------
  // A stale read is harmless exactly when there is one start node
  // ---------------------------------------------------------------------------------------------

  /** The executor's compare-and-swap would succeed now. */
  predicate WouldCommit(s: Sys, x: nat) {
    x in s.execs && s.execs[x].Checked? && s.db.row.Some? && s.db.row.value.epoch == s.execs[x].expected
  }

  /** In no run can a compare-and-swap succeed on a row that is not at the node the executor read. */
  ghost predicate EdgeSafe(w: World) {
    forall es, x :: ValidRun(w, START, es) && WouldCommit(Run(w, START, es), x) ==>
      Run(w, START, es).db.row.value.lastNode == Run(w, START, es).execs[x].from
  }

  lemma OneStartIsEdgeSafe(w: World, start: Node)
    requires w.starts <= {start}
    ensures EdgeSafe(w)
  {
    forall es, x | ValidRun(w, START, es) && WouldCommit(Run(w, START, es), x)
      ensures Run(w, START, es).db.row.value.lastNode == Run(w, START, es).execs[x].from
    {
      RunKeepsInv(start, w, START, es);
      var s := Run(w, START, es);
      assert ExecInv(start, s, s.execs[x]);
    }
  }

  lemma {:induction false} RunAppend(w: World, s: Sys, es: seq<Event>, e: Event)
    requires ValidRun(w, s, es) && Possible(w, e) && Enabled(Run(w, s, es), e)
    ensures ValidRun(w, s, es + [e])
    ensures Run(w, s, es + [e]) == Apply(Run(w, s, es), e)
    decreases |es|
  {
    if es != [] {
      RunAppend(w, Apply(s, es[0]), es[1..], e);
      assert (es + [e])[1..] == es[1..] + [e];
    }
  }

  lemma Extend(w: World, es: seq<Event>, e: Event) returns (es': seq<Event>, s': Sys)
    requires ValidRun(w, START, es) && Possible(w, e) && Enabled(Run(w, START, es), e)
    ensures ValidRun(w, START, es') && s' == Run(w, START, es') == Apply(Run(w, START, es), e)
  {
    RunAppend(w, START, es, e);
    es', s' := es + [e], Run(w, START, es + [e]);
  }

  /** From any state with a row: governance is about to decide on an agent's proposal. */
  lemma AgentProposalConsidered(w: World, es0: seq<Event>) returns (es: seq<Event>, s: Sys)
    requires ValidRun(w, START, es0) && Run(w, START, es0).db.row.Some? && 0 !in Run(w, START, es0).governing
    ensures ValidRun(w, START, es) && s == Run(w, START, es)
    ensures var s0 := Run(w, START, es0);
            var p := ProposalFor(s0.db.row.value);
            s == s0.(proposals := s0.proposals + {p}, governing := s0.governing[0 := p])
  {
    es, s := Extend(w, es0, Propose);
    es, s := Extend(w, es, Consider(0, ProposalFor(s.db.row.value)));
  }

  /** And it becomes an action, approved by a human or by governance. */
  lemma AgentActionPublished(w: World, es0: seq<Event>, human: bool) returns (es: seq<Event>, s: Sys, a: Action)
    requires ValidRun(w, START, es0) && Run(w, START, es0).db.row.Some? && 0 !in Run(w, START, es0).governing
    ensures ValidRun(w, START, es) && s == Run(w, START, es)
    ensures var s0 := Run(w, START, es0);
            && s.db == s0.db && s.causes == s0.causes && s.runs == s0.runs && s.execs == s0.execs
            && 0 !in s.governing
            && a == Action(human, true, true, Some(ProposalFor(s0.db.row.value)))
    ensures a in s.actions && a in s.agentActions
  {
    a := Action(human, true, true, Some(ProposalFor(Run(w, START, es0).db.row.value)));
    es, s := AgentProposalConsidered(w, es0);
    if human {
      es, s := Extend(w, es, Park(0, 0));
      es, s := Extend(w, es, HumanRead(0, 0));
      es, s := Extend(w, es, HumanPublish(0));
    } else {
      es, s := Extend(w, es, Approve(0));
    }
  }

  lemma Begun(w: World, m: Node) returns (es: seq<Event>, s: Sys)
    requires m in w.starts
    ensures ValidRun(w, START, es) && s == Run(w, START, es)
    ensures s == START.(db := Db(Some(GraphState(0, m, 0)), []), runs := {0})
  {
    es, s := Extend(w, [], Init(0, m));
  }

  /**
   * The ABA run: a human approves an agent's proposal from run 0 at node m, an executor reads the
   * row, the scope is reset to run 1 at node n, and only then does the executor go on.
   */
  lemma ResetBetweenReadAndCommit(w: World, m: Node, n: Node) returns (es: seq<Event>, s: Sys)
    requires m in w.starts && n in w.starts
    ensures ValidRun(w, START, es) && s == Run(w, START, es)
    ensures WouldCommit(s, 0) && s.execs[0].from == m && s.execs[0].next == Transition(m)
    ensures s.db == Db(Some(GraphState(1, n, 0)), []) && s.causes == []
    ensures s.execs[0].delivery.action in s.agentActions
    ensures s.execs[0].delivery.action.payload == Some(ProposalFor(GraphState(0, m, 0)))
  {
    var a: Action;
    es, s := Begun(w, m);
    es, s, a := AgentActionPublished(w, es, true);
    es, s := Extend(w, es, Load(0, Delivery(a, NoFile, (from, to, d) => false)));
    es, s := Extend(w, es, Reset(1, n));
    es, s := Extend(w, es, Check(0));
  }

  /**
   * The epoch alone protects the edge exactly when callers of init and reset agree on one node.
   * Whatever governance allows, two different start nodes admit a run that breaks it.
   */
  lemma EdgeSafeExactly(w: World)
    ensures EdgeSafe(w) <==> forall m, n :: m in w.starts && n in w.starts ==> m == n
  {
    if forall m, n :: m in w.starts && n in w.starts ==> m == n {
      var start :| w.starts == {} || start in w.starts;
      OneStartIsEdgeSafe(w, start);
    } else {
      var m, n :| m in w.starts && n in w.starts && m != n;
      var es, s := ResetBetweenReadAndCommit(w, m, n);
      assert WouldCommit(Run(w, START, es), 0);
    }
  }

  // ---------------------------------------------------------------------------------------------
  // The audit log
  // ---------------------------------------------------------------------------------------------

  /** The audit events of each run are its epochs 1..n along the cycle; the current run's n is the row's epoch. */
  lemma AuditLogIsChain(w: World, start: Node, es: seq<Event>, r: RunId)
    requires FromStart(w, start, es)
    ensures var s := After(w, start, es);
            var audit := RunLog(s.db.log, r);
            && (forall k :: 0 <= k < |audit| ==>
                audit[k] == AuditEvent(NodeAt(start, k), NodeAt(start, k + 1), k + 1, r))
            && (s.db.row.Some? && s.db.row.value.runId == r ==> |audit| == s.db.row.value.epoch)
  {
    InvAfter(w, start, es);
    var audit := RunLog(After(w, start, es).db.log, r);
    forall k | 0 <= k < |audit|
      ensures audit[k] == AuditEvent(NodeAt(start, k), NodeAt(start, k + 1), k + 1, r)
    {
      ChainAt(start, r, |audit|, k);
    }
  }

  /** However often actions are delivered, an epoch of a run is committed at most once, and epochs rise in log order. */
  lemma OneCommitPerEpoch(w: World, start: Node, es: seq<Event>, i: nat, j: nat)
    requires FromStart(w, start, es)
    requires i < j < |After(w, start, es).db.log|
    requires After(w, start, es).db.log[i].runId == After(w, start, es).db.log[j].runId
    ensures After(w, start, es).db.log[i].epoch < After(w, start, es).db.log[j].epoch
  {
    InvAfter(w, start, es);
    var log := After(w, start, es).db.log;
    var r := log[i].runId;
    RunLogPosition(log, i);
    RunLogPosition(log, j);
    ChainAt(start, r, |RunLog(log, r)|, |RunLog(log[..i], r)|);
    ChainAt(start, r, |RunLog(log, r)|, |RunLog(log[..j], r)|);
    RunLogGrows(log, i + 1, j, r);
    assert log[..i + 1][..i] == log[..i];
  }

  /** Every event an executor puts on the bus, its source node recovered by lookup, is in the audit log. */
  lemma AnnouncementsAreAudited(w: World, start: Node, es: seq<Event>, a: AuditEvent)
    requires FromStart(w, start, es) && a in After(w, start, es).published
    ensures a in After(w, start, es).db.log
  {
    InvAfter(w, start, es);
  }

  // ---------------------------------------------------------------------------------------------
  // The edge of an agent's action
  // ---------------------------------------------------------------------------------------------

  /**
   * The executor ignores the edge in the payload, yet commits it: an agent-built action moves the row
   * along its own edge.
   */
  lemma AgentActionsCommitTheirEdge(w: World, start: Node, es: seq<Event>, i: nat)
    requires FromStart(w, start, es) && i < |After(w, start, es).db.log|
    ensures var s := After(w, start, es);
            && |s.causes| == |s.db.log|
            && (s.causes[i].action in s.agentActions ==>
                  && s.causes[i].action.payload.Some?
                  && s.causes[i].action.payload.value.from == Some(s.db.log[i].from)
                  && s.causes[i].action.payload.value.to == Some(s.db.log[i].to)
                  && s.causes[i].action.payload.value.expectedEpoch == Some(s.db.log[i].epoch - 1))
  {
    InvAfter(w, start, es);
    var s := After(w, start, es);
    assert CauseOf(s, s.causes[i], s.db.log[i]);
  }

  /** The run id of the payload carries no such promise: an action stamped with run 0 commits in run 1. */
  lemma StaleRunCommits(w: World, start: Node) returns (es: seq<Event>)
    requires w.starts == {start}
    ensures FromStart(w, start, es)
    ensures var s := After(w, start, es);
            && s.db.log == [AuditEvent(start, Transition(start), 1, 1)]
            && |s.causes| == 1 && s.causes[0].action in s.agentActions
            && s.causes[0].action.payload == Some(ProposalFor(GraphState(0, start, 0)))
  {
    var s;
    es, s := ResetBetweenReadAndCommit(w, start, start);
    es, s := Extend(w, es, Commit(0));
  }

  /** It does hold as long as only one run id has been handed out, that is, before any reset. */
  lemma SingleRunStamp(w: World, start: Node, es: seq<Event>, i: nat)
    requires FromStart(w, start, es) && i < |After(w, start, es).db.log|
    requires forall q, r :: q in After(w, start, es).runs && r in After(w, start, es).runs ==> q == r
    ensures var s := After(w, start, es);
            && |s.causes| == |s.db.log|
            && (s.causes[i].action in s.agentActions ==>
                  s.causes[i].action.payload.Some? && s.causes[i].action.payload.value.runId == Some(s.db.log[i].runId))
  {
    InvAfter(w, start, es);
    var s := After(w, start, es);
    RunLogPosition(s.db.log, i);
  }
}
