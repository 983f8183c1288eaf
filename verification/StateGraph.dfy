/**
 * The state graph of one scope: the five-node cycle, the swarm_state row, the audit events that
 * share its transactions, and the operations on both (src/stateGraph.ts, src/scopeReset.ts).
 *
 * Every transaction is a function on the pair of row and audit log. The class StateStore performs
 * them one after the other; EpochRuns interleaves them.
 */
module StateGraph {
  import opened Options

  datatype Node =
    | ContextIngested
    | FactsExtracted
    | DriftChecked
    | EvidencePropagated
    | DeltasExtracted

  type RunId = nat

  datatype GraphState = GraphState(runId: RunId, lastNode: Node, epoch: nat)

  datatype AuditEvent = AuditEvent(from: Node, to: Node, epoch: nat, runId: RunId)

  datatype DriftInput = DriftInput(level: string, types: seq<string>)

  /** The governance verdict on an edge under a drift report; the rule engine itself is a parameter. */
  type CanTransition = (Node, Node, DriftInput) -> bool

  function Transition(n: Node): Node {
    match n
    case ContextIngested => FactsExtracted
    case FactsExtracted => DriftChecked
    case DriftChecked => EvidencePropagated
    case EvidencePropagated => DeltasExtracted
    case DeltasExtracted => ContextIngested
  }

  /** The pipeline in order, and back to its beginning. */
  lemma CycleOfFive(n: Node, epoch: nat)
    ensures [NodeAt(ContextIngested, 0), NodeAt(ContextIngested, 1), NodeAt(ContextIngested, 2),
             NodeAt(ContextIngested, 3), NodeAt(ContextIngested, 4), NodeAt(ContextIngested, 5)]
            == [ContextIngested, FactsExtracted, DriftChecked, EvidencePropagated, DeltasExtracted, ContextIngested]
    ensures NodeAt(n, epoch + 5) == NodeAt(n, epoch)
  {
    var m := NodeAt(n, epoch);
    assert NodeAt(n, epoch + 2) == Transition(NodeAt(n, epoch + 1)) == Transition(Transition(m));
    assert NodeAt(n, epoch + 4) == Transition(NodeAt(n, epoch + 3));
  }

  function NextState(s: GraphState): GraphState {
    GraphState(s.runId, Transition(s.lastNode), s.epoch + 1)
  }

  /** The node reached from a start node after the given number of transitions. */
  function NodeAt(start: Node, epoch: nat): Node {
    if epoch == 0 then start else Transition(NodeAt(start, epoch - 1))
  }

  /** The first node, in table order, whose transition leads to the given one. */
  function Predecessor(to: Node): Option<Node> {
    if Transition(ContextIngested) == to then Some(ContextIngested)
    else if Transition(FactsExtracted) == to then Some(FactsExtracted)
    else if Transition(DriftChecked) == to then Some(DriftChecked)
    else if Transition(EvidencePropagated) == to then Some(EvidencePropagated)
    else if Transition(DeltasExtracted) == to then Some(DeltasExtracted)
    else None
  }

  /** Looking an edge up by its target finds the edge that was taken. */
  lemma PredecessorInvertsTransition(n: Node)
    ensures Predecessor(Transition(n)) == Some(n)
  {
    match n {
      case ContextIngested =>
      case FactsExtracted =>
      case DriftChecked =>
      case EvidencePropagated =>
      case DeltasExtracted =>
    }
  }

  /** The swarm_state row of the scope, if any, and its state_transition audit events in commit order. */
  datatype Db = Db(row: Option<GraphState>, log: seq<AuditEvent>)

  /** INSERT ... ON CONFLICT DO NOTHING. */
  function InitDb(db: Db, runId: RunId, start: Node): Db {
    if db.row.Some? then db else db.(row := Some(GraphState(runId, start, 0)))
  }

  /** UPDATE of an existing row: nothing happens when there is none. */
  function ResetDb(db: Db, runId: RunId, node: Node): Db {
    if db.row.None? then db else db.(row := Some(GraphState(runId, node, 0)))
  }

  /** The upsert that ends a scope reset. */
  function ReinitDb(db: Db, runId: RunId): Db {
    db.(row := Some(GraphState(runId, ContextIngested, 0)))
  }

  /** The row deletion that begins a scope reset. */
  function DeleteDb(db: Db): Db {
    db.(row := None)
  }

  /**
   * The advance transaction: the update tests the epoch only and keeps the row's run id; the audit
   * event takes its source node from the earlier read and everything else from the updated row.
   */
  function CommitDb(db: Db, from: Node, next: Node, expectedEpoch: nat): Db {
    match db.row
    case None => db
    case Some(r) =>
      if r.epoch != expectedEpoch then db
      else
        var r' := GraphState(r.runId, next, expectedEpoch + 1);
        Db(Some(r'), db.log + [AuditEvent(from, r'.lastNode, r'.epoch, r'.runId)])
  }

  /** The advance as one indivisible step on the current row. */
  function AtomicAdvance(db: Db, expectedEpoch: int): Db {
    match db.row
    case None => db
    case Some(r) =>
      if r.epoch != expectedEpoch then db
      else Db(Some(NextState(r)), db.log + [AuditEvent(r.lastNode, Transition(r.lastNode), r.epoch + 1, r.runId)])
  }

  class StateStore {
    var row: Option<GraphState>
    var contextEvents: seq<AuditEvent>

    function Contents(): Db
      reads this
    {
      Db(row, contextEvents)
    }

    constructor ()
      ensures Contents() == Db(None, [])
    {
      row, contextEvents := None, [];
    }

    method LoadState() returns (r: Option<GraphState>)
      ensures r == row
    {
      r := row;
    }

    method InitState(runId: RunId, startNode: Node) returns (r: GraphState)
      modifies this
      ensures Contents() == InitDb(old(Contents()), runId, startNode)
      ensures row == Some(r) && contextEvents == old(contextEvents)
      ensures r == if old(row).Some? then old(row).value else GraphState(runId, startNode, 0)
    {
      if row.None? {
        row := Some(GraphState(runId, startNode, 0));
      }
      r := row.value;
    }

    method ResetStateTo(node: Node, runId: RunId) returns (r: Option<GraphState>)
      modifies this
      ensures Contents() == ResetDb(old(Contents()), runId, node)
      ensures r == row && contextEvents == old(contextEvents)
      ensures row == if old(row).Some? then Some(GraphState(runId, node, 0)) else None
    {
      if row.Some? {
        row := Some(GraphState(runId, node, 0));
      }
      r := row;
    }

    method ResetScopeAndReinit(runId: RunId)
      modifies this
      ensures Contents() == ReinitDb(DeleteDb(old(Contents())), runId)
      ensures row == Some(GraphState(runId, ContextIngested, 0)) && contextEvents == old(contextEvents)
    {
      row := None;
      row := Some(GraphState(runId, ContextIngested, 0));
    }

    /** Compare-and-swap on the epoch together with the audit insert. */
    method CommitAdvance(from: Node, next: Node, expectedEpoch: nat) returns (r: Option<GraphState>)
      modifies this
      ensures Contents() == CommitDb(old(Contents()), from, next, expectedEpoch)
      ensures r == if old(row).Some? && old(row).value.epoch == expectedEpoch then row else None
      ensures r.Some? ==>
                && r.value == GraphState(old(row).value.runId, next, expectedEpoch + 1)
                && contextEvents == old(contextEvents) + [AuditEvent(from, next, expectedEpoch + 1, r.value.runId)]
      ensures r.None? ==> row == old(row) && contextEvents == old(contextEvents)
    {
      if row.None? || row.value.epoch != expectedEpoch {
        return None;
      }
      row := Some(GraphState(row.value.runId, next, expectedEpoch + 1));
      contextEvents := contextEvents + [AuditEvent(from, row.value.lastNode, row.value.epoch, row.value.runId)];
      r := row;
    }

    /**
     * Read, check, compare-and-swap with nothing in between. A request without an epoch, or one
     * whose edge governance refuses, changes nothing; otherwise the store takes the atomic step.
     */
    method AdvanceState(expectedEpoch: Option<int>, drift: Option<DriftInput>, can: CanTransition)
      returns (r: Option<GraphState>)
      modifies this
      ensures r.Some? <==>
                && old(row).Some?
                && expectedEpoch == Some(old(row).value.epoch)
                && (drift.Some? ==> can(old(row).value.lastNode, Transition(old(row).value.lastNode), drift.value))
      ensures r.Some? ==> r == row && Contents() == AtomicAdvance(old(Contents()), expectedEpoch.value)
      ensures r.None? ==> Contents() == old(Contents())
    {
      var current := LoadState();
      if current.None? || Some(current.value.epoch) != expectedEpoch {
        return None;
      }
      var next := Transition(current.value.lastNode);
      if drift.Some? && !can(current.value.lastNode, next, drift.value) {
        return None;
      }
      r := CommitAdvance(current.value.lastNode, next, current.value.epoch);
    }
  }
}
