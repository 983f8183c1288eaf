/**
 * Which commits governance has allowed (src/actionExecutor.ts, src/stateGraph.ts). The executor loads
 * the policy and the drift report anew for each action; a drift text that parses to a falsy value makes
 * it skip the check.
 */
module EpochGovernance {
  import opened Options
  import opened StateGraph
  import opened EpochRuns
  import opened EpochTheorems

  // ---------------------------------------------------------------------------------------------
  // What every commit went through
  // ---------------------------------------------------------------------------------------------

  /** The edge goes one transition, under a delivery that could be made and passed the check. */
  ghost predicate Passed(w: World, d: Delivery, from: Node, to: Node) {
    to == Transition(from) && Deliverable(w, d) && MayCommit(d, from, to)
  }

  ghost predicate ExecPasses(w: World, x: Executor) {
    match x
    case Loaded(d, _, from, next) => next == Transition(from) && Deliverable(w, d)
    case Checked(d, _, from, next) => Passed(w, d, from, next)
    case Committed(_) => true
  }

  ghost predicate CommitsPassed(w: World, s: Sys) {
    && |s.causes| == |s.db.log|
    && forall i :: 0 <= i < |s.causes| ==> Passed(w, s.causes[i], s.db.log[i].from, s.db.log[i].to)
  }

  ghost predicate PassInv(w: World, s: Sys) {
    && (forall x :: x in s.execs ==> ExecPasses(w, s.execs[x]))
    && CommitsPassed(w, s)
    && (w.starts == {} ==> s.db == Db(None, []))
  }

  lemma CommitPasses(w: World, s: Sys, x: nat)
    requires PassInv(w, s) && Enabled(s, Commit(x))
    ensures PassInv(w, CommitExec(s, x))
  {
    assert ExecPasses(w, s.execs[x]);
  }

  lemma StepPasses(w: World, s: Sys, e: Event)
    requires PassInv(w, s) && Possible(w, e) && Enabled(s, e)
    ensures PassInv(w, Apply(s, e))
  {
    if e.Commit? {
      CommitPasses(w, s, e.exec);
    } else if e.Check? {
      assert ExecPasses(w, s.execs[e.exec]);
    }
  }

  lemma {:induction false} RunPasses(w: World, s: Sys, es: seq<Event>)
    requires PassInv(w, s) && ValidRun(w, s, es)
    ensures PassInv(w, Run(w, s, es))
    decreases |es|
  {
    if es != [] {
      StepPasses(w, s, es[0]);
      RunPasses(w, Apply(s, es[0]), es[1..]);
    }
  }

  /**
   * A commit that no human approved was allowed for exactly the audited edge, by the policy and under
   * the drift report that the executor loaded, or level "none" where there is no report. The one
   * exception is a falsy drift text.
   */
  lemma CommitsAreGoverned(w: World, es: seq<Event>, i: nat)
    requires ValidRun(w, START, es) && i < |Run(w, START, es).db.log|
    ensures var s := Run(w, START, es);
            && |s.causes| == |s.db.log|
            && var cause, edge := s.causes[i], s.db.log[i];
               !cause.action.human ==>
                 match cause.drift
                 case Parsed(d) => cause.policy(edge.from, edge.to, d)
                 case NoFile => cause.policy(edge.from, edge.to, DriftInput("none", []))
                 case ParsedFalsy => true
  {
    RunPasses(w, START, es);
    var s := Run(w, START, es);
    assert Passed(w, s.causes[i], s.db.log[i].from, s.db.log[i].to);
  }

  // ---------------------------------------------------------------------------------------------
  // The exception reaches every edge
  // ---------------------------------------------------------------------------------------------

  /** Nothing is in progress. */
  predicate Quiet(s: Sys) {
    s.execs == map[] && 0 !in s.governing
  }

  lemma UncheckedRead(w: World, es0: seq<Event>, d: Delivery) returns (es: seq<Event>, s: Sys)
    requires ValidRun(w, START, es0) && Possible(w, Load(0, d)) && d.drift == ParsedFalsy
    requires var s0 := Run(w, START, es0);
             && s0.execs == map[] && s0.db.row.Some? && d.action in s0.actions
             && d.action == AutoAction(ProposalFor(s0.db.row.value))
    ensures ValidRun(w, START, es) && s == Run(w, START, es)
    ensures var s0 := Run(w, START, es0);
            var r := s0.db.row.value;
            s == s0.(execs := map[0 := Checked(d, r.epoch, r.lastNode, Transition(r.lastNode))])
  {
    var s0 := Run(w, START, es0);
    var r := s0.db.row.value;
    es, s := Extend(w, es0, Load(0, d));
    assert s == s0.(execs := map[0 := Loaded(d, r.epoch, r.lastNode, Transition(r.lastNode))]);
    es, s := Extend(w, es, Check(0));
    assert map[0 := Loaded(d, r.epoch, r.lastNode, Transition(r.lastNode))][0 := s.execs[0]] == map[0 := s.execs[0]];
  }

  lemma WriteOf(s: Sys, d: Delivery, r: GraphState)
    requires s.db.row == Some(r) && s.execs == map[0 := Checked(d, r.epoch, r.lastNode, Transition(r.lastNode))]
    ensures var s' := CommitExec(s, 0);
            && s'.db == AtomicAdvance(s.db, r.epoch) && s'.causes == s.causes + [d]
            && s'.execs == map[0 := Committed(NextState(r))] && s'.governing == s.governing
  {
    assert s.execs[0 := Committed(NextState(r))] == map[0 := Committed(NextState(r))];
  }

  lemma AnnounceOf(s: Sys, n: GraphState)
    requires s.execs == map[0 := Committed(n)]
    ensures var s' := AnnounceExec(s, 0);
            s'.db == s.db && s'.causes == s.causes && s'.execs == map[] && s'.governing == s.governing
  {
    assert s.execs - {0} == map[];
  }

  lemma UncheckedWrite(w: World, es0: seq<Event>, d: Delivery, r: GraphState) returns (es: seq<Event>, s: Sys)
    requires ValidRun(w, START, es0) && Run(w, START, es0).db.row == Some(r)
    requires Run(w, START, es0).execs == map[0 := Checked(d, r.epoch, r.lastNode, Transition(r.lastNode))]
    ensures ValidRun(w, START, es) && s == Run(w, START, es)
    ensures var s0 := Run(w, START, es0);
            && s.db == AtomicAdvance(s0.db, r.epoch) && s.causes == s0.causes + [d]
            && s.execs == map[] && s.governing == s0.governing
  {
    WriteOf(Run(w, START, es0), d, r);
    es, s := Extend(w, es0, Commit(0));
    AnnounceOf(s, NextState(r));
    es, s := Extend(w, es, Announce(0));
  }

  /** With a falsy drift text an agent's action commits, whatever the policy in force says. */
  lemma UncheckedCommit(w: World, es0: seq<Event>, policy: CanTransition) returns (es: seq<Event>, s: Sys)
    requires w.falsyDrift && w.policies(policy)
    requires ValidRun(w, START, es0) && Quiet(Run(w, START, es0)) && Run(w, START, es0).db.row.Some?
    ensures ValidRun(w, START, es) && s == Run(w, START, es) && Quiet(s)
    ensures var s0 := Run(w, START, es0);
            && s.db == AtomicAdvance(s0.db, s0.db.row.value.epoch)
            && |s.causes| == |s0.causes| + 1
            && var cause := s.causes[|s0.causes|]; !cause.action.human && cause.policy == policy
  {
    var s0 := Run(w, START, es0);
    var a: Action;
    es, s, a := AgentActionPublished(w, es0, false);
    var d := Delivery(a, ParsedFalsy, policy);
    es, s := UncheckedRead(w, es, d);
    es, s := UncheckedWrite(w, es, d, s0.db.row.value);
  }

  /** So the row can be walked any number of transitions without anybody's approval. */
  lemma {:induction false} UncheckedWalk(w: World, start: Node, policy: CanTransition, k: nat)
    returns (es: seq<Event>, s: Sys)
    requires start in w.starts && w.falsyDrift && w.policies(policy)
    ensures ValidRun(w, START, es) && s == Run(w, START, es) && Quiet(s)
    ensures s.db.row == Some(GraphState(0, NodeAt(start, k), k)) && |s.db.log| == |s.causes| == k
  {
    if k == 0 {
      es, s := Begun(w, start);
    } else {
      es, s := UncheckedWalk(w, start, policy, k - 1);
      es, s := UncheckedCommit(w, es, policy);
    }
  }

  lemma CycleReaches(start: Node, m: Node) returns (k: nat)
    ensures NodeAt(start, k) == m
  {
    k :| k < 5 && NodeAt(start, k) == m;
  }

  /** The exception is real on every edge and under every policy that may be in force. */
  lemma FalsyDriftSkipsGovernance(w: World, m: Node, policy: CanTransition) returns (es: seq<Event>, i: nat)
    requires w.starts != {} && w.falsyDrift && w.policies(policy)
    ensures ValidRun(w, START, es)
    ensures var s := Run(w, START, es);
            && i < |s.db.log| == |s.causes| && !s.causes[i].action.human && s.causes[i].policy == policy
            && s.db.log[i].from == m && s.db.log[i].to == Transition(m)
  {
    var start :| start in w.starts;
    i := CycleReaches(start, m);
    var s;
    es, s := UncheckedWalk(w, start, policy, i);
    es, s := UncheckedCommit(w, es, policy);
  }

  // ---------------------------------------------------------------------------------------------
  // Exactly when every commit is allowed
  // ---------------------------------------------------------------------------------------------

  /** The policy allows the edge under some drift report. */
  ghost predicate Allows(policy: CanTransition, from: Node, to: Node) {
    exists d :: policy(from, to, d)
  }

  /** In every run, each commit no human approved is on an edge that its policy allows under some report. */
  ghost predicate AlwaysGoverned(w: World) {
    forall es, i: nat :: ValidRun(w, START, es) && i < |Run(w, START, es).db.log| ==> GovernedAt(Run(w, START, es), i)
  }

  ghost predicate GovernedAt(s: Sys, i: nat)
    requires i < |s.db.log|
  {
    i < |s.causes| && (s.causes[i].action.human || Allows(s.causes[i].policy, s.db.log[i].from, s.db.log[i].to))
  }

  lemma GovernedIf(w: World, es: seq<Event>, i: nat)
    requires ValidRun(w, START, es) && i < |Run(w, START, es).db.log|
    requires !w.falsyDrift || forall policy, m :: w.policies(policy) ==> Allows(policy, m, Transition(m))
    ensures GovernedAt(Run(w, START, es), i)
  {
    RunPasses(w, START, es);
    var s := Run(w, START, es);
    var from := s.db.log[i].from;
    assert Passed(w, s.causes[i], from, s.db.log[i].to);
    if !s.causes[i].action.human && w.falsyDrift {
      assert w.policies(s.causes[i].policy) && Allows(s.causes[i].policy, from, Transition(from));
    }
  }

  /**
   * Every commit is human or allowed, in every run, exactly if no drift text is falsy or there is no
   * edge that a policy in use refuses under every report.
   */
  lemma AlwaysGovernedExactly(w: World)
    ensures AlwaysGoverned(w)
            <==> w.starts == {} || !w.falsyDrift
                 || forall policy, m :: w.policies(policy) ==> Allows(policy, m, Transition(m))
  {
    if w.starts == {} {
      forall es | ValidRun(w, START, es)
        ensures Run(w, START, es).db.log == []
      {
        RunPasses(w, START, es);
      }
    } else if !w.falsyDrift || forall policy, m :: w.policies(policy) ==> Allows(policy, m, Transition(m)) {
      forall es, i: nat | ValidRun(w, START, es) && i < |Run(w, START, es).db.log|
        ensures GovernedAt(Run(w, START, es), i)
      {
        GovernedIf(w, es, i);
      }
    } else {
      var policy, m :| w.policies(policy) && !Allows(policy, m, Transition(m));
      var es, i := FalsyDriftSkipsGovernance(w, m, policy);
      assert !GovernedAt(Run(w, START, es), i);
    }
  }
}
