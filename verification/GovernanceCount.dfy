/**
 * The supervisor's count of governance agents over every run (src/hatchery.ts). A spawn raises it and
 * the end of a drain lowers it, but an exit does not.
 */
module GovernanceCount {
  import opened SlidingWindow
  import opened Hatchery
  import opened HatcheryRuns

  predicate IsGovernanceAgent(config: Config, h: Hatch, id: string) {
    id in h.agents && IsGovernance(config, h.agents[id].role)
  }

  function GovernanceIds(config: Config, h: Hatch): set<string> {
    set id | id in h.agents && IsGovernanceAgent(config, h, id)
  }

  /** By how much the count exceeds the number of governance agents. */
  function Surplus(config: Config, h: Hatch): int {
    h.governanceCount - |GovernanceIds(config, h)|
  }

  // ---------------------------------------------------------------------------------------------
  // What each step adds
  // ---------------------------------------------------------------------------------------------

  function One(b: bool): int {
    if b then 1 else 0
  }

  /** A drain that ends for an agent that is gone lowers the count for nothing. */
  function DrainAdds(config: Config, h: Hatch, id: string, role: string): int {
    One(IsGovernanceAgent(config, h, id))
    - One((role == "governance" || IsGovernance(config, role)) && h.governanceCount > 0)
  }

  function Added(config: Config, s: Sys, e: Event): int
    requires Enabled(s, e)
  {
    match e
    case AgentExit(id, _) => One(IsGovernanceAgent(config, s.h, id))
    case DrainEnd(d) => DrainAdds(config, s.h, s.drains[d].id, s.drains[d].role)
    case PauseDrained(p) => DrainAdds(config, s.h, s.pausers[p].id, s.pausers[p].role)
    case _ => 0
  }

  function AddedOver(config: Config, s: Sys, es: seq<Event>): int
    requires ValidRun(config, s, es)
    decreases |es|
  {
    if es == [] then 0 else Added(config, s, es[0]) + AddedOver(config, Apply(config, s, es[0]), es[1..])
  }

  lemma SameRolesSameSurplus(config: Config, h: Hatch, h': Hatch)
    requires h'.governanceCount == h.governanceCount && h'.agents.Keys == h.agents.Keys
    requires forall id :: id in h.agents ==> h'.agents[id].role == h.agents[id].role
    ensures Surplus(config, h') == Surplus(config, h)
  {
    assert GovernanceIds(config, h') == GovernanceIds(config, h);
  }

  lemma RemovalAdds(config: Config, h: Hatch, id: string)
    ensures Surplus(config, h.(agents := h.agents - {id})) == Surplus(config, h) + One(IsGovernanceAgent(config, h, id))
  {
    assert GovernanceIds(config, h.(agents := h.agents - {id})) == GovernanceIds(config, h) - {id};
  }

  lemma SpawnAddsNothing(config: Config, h: Hatch, role: string)
    requires AgentId(role, NextId(h, role)) !in h.agents
    ensures Surplus(config, Spawn(config, h, role)) == Surplus(config, h)
  {
    var h' := Spawn(config, h, role);
    if h.paused || role !in config.roles {
      assert GovernanceIds(config, h') == GovernanceIds(config, h);
    } else {
      GovernanceIdsGrow(config, h, h', AgentId(role, NextId(h, role)), Instance(role, Alive, []));
    }
  }

  lemma GovernanceIdsGrow(config: Config, h: Hatch, h': Hatch, id: string, agent: Instance)
    requires id !in h.agents && h'.agents == h.agents[id := agent]
    ensures |GovernanceIds(config, h')| == |GovernanceIds(config, h)| + One(IsGovernance(config, agent.role))
  {
    if IsGovernance(config, agent.role) {
      assert GovernanceIds(config, h') == GovernanceIds(config, h) + {id};
    } else {
      assert GovernanceIds(config, h') == GovernanceIds(config, h);
    }
  }

  lemma DrainEndAdds(config: Config, h: Hatch, id: string, role: string)
    ensures Surplus(config, FinishDrain(config, h, id, role)) == Surplus(config, h) + DrainAdds(config, h, id, role)
  {
    RemovalAdds(config, h, id);
    assert GovernanceIds(config, FinishDrain(config, h, id, role))
           == GovernanceIds(config, h.(agents := h.agents - {id}));
  }

  lemma ExitAdds(config: Config, s: Sys, id: string, now: int)
    requires IdInv(s) && now >= s.clock
    ensures Surplus(config, ExitStep(config, s, id, now).h)
            == Surplus(config, s.h) + One(IsGovernanceAgent(config, s.h, id))
  {
    var gone := s.h.(agents := s.h.agents - {id});
    ExitStepIsExit(config, s, id, now);
    RemovalAdds(config, s.h, id);
    if id in s.h.agents {
      NextIdIsNew(s.h, s.h.agents[id].role);
      assert NextId(gone, s.h.agents[id].role) == NextId(s.h, s.h.agents[id].role);
      SpawnAddsNothing(config, gone, s.h.agents[id].role);
    } else {
      assert gone.agents == s.h.agents;
    }
  }

  predicate IsOther(e: Event) {
    !e.SpawnAgent? && !e.AgentExit? && !e.DrainEnd? && !e.PauseDrained?
  }

  lemma OtherStepsKeepRoles(config: Config, s: Sys, e: Event)
    requires Enabled(s, e) && IsOther(e)
    ensures var h' := Apply(config, s, e).h;
            && h'.governanceCount == s.h.governanceCount && h'.agents.Keys == s.h.agents.Keys
            && forall id :: id in s.h.agents ==> h'.agents[id].role == s.h.agents[id].role
  {
    if e.PauseNext? {
      VisitKeepsRoles(s, e.pauser);
    }
  }

  lemma VisitKeepsRoles(s: Sys, p: nat)
    requires p in s.pausers && s.pausers[p].Looping?
    ensures var h' := PauseVisit(s, p).h;
            && h'.governanceCount == s.h.governanceCount && h'.agents.Keys == s.h.agents.Keys
            && forall id :: id in s.h.agents ==> h'.agents[id].role == s.h.agents[id].role
  {
    var todo := s.pausers[p].todo;
    if todo != [] && todo[0] in s.h.agents && s.h.agents[todo[0]].state == Alive {
      assert PauseVisit(s, p).h == BeginDrain(s.h, todo[0]);
    } else {
      assert PauseVisit(s, p).h == s.h;
    }
  }

  lemma StepAdds(config: Config, s: Sys, e: Event)
    requires IdInv(s) && Enabled(s, e)
    ensures Surplus(config, Apply(config, s, e).h) == Surplus(config, s.h) + Added(config, s, e)
  {
    match e {
      case SpawnAgent(role) =>
        NextIdIsNew(s.h, role);
        SpawnAddsNothing(config, s.h, role);
      case AgentExit(id, now) => ExitAdds(config, s, id, now);
      case DrainEnd(d) => DrainEndAdds(config, s.h, s.drains[d].id, s.drains[d].role);
      case PauseDrained(p) => DrainEndAdds(config, s.h, s.pausers[p].id, s.pausers[p].role);
      case _ =>
        OtherStepsKeepRoles(config, s, e);
        SameRolesSameSurplus(config, s.h, Apply(config, s, e).h);
    }
  }

  lemma {:induction false} RunAdds(config: Config, s: Sys, es: seq<Event>)
    requires IdInv(s) && ValidRun(config, s, es)
    ensures Surplus(config, Run(config, s, es).h) == Surplus(config, s.h) + AddedOver(config, s, es)
    decreases |es|
  {
    if es != [] {
      StepAdds(config, s, es[0]);
      StepKeepsIds(config, s, es[0]);
      RunAdds(config, Apply(config, s, es[0]), es[1..]);
    }
  }

  /**
   * In any state of any run, the count exceeds the number of governance agents by the number of them
   * that exited, less the drains that ended for none.
   */
  lemma SurplusIsExits(config: Config, now: int, es: seq<Event>)
    requires ValidRun(config, StartState(config, now), es)
    ensures Surplus(config, Run(config, StartState(config, now), es).h)
            == AddedOver(config, StartState(config, now), es)
  {
    RunAdds(config, StartState(config, now), es);
    assert GovernanceIds(config, StartState(config, now).h) == {};
  }

  // ---------------------------------------------------------------------------------------------
  // Exactly when the count is right
  // ---------------------------------------------------------------------------------------------

  /** The drain found its agent, and its role counts as governance by name and by configuration alike. */
  predicate DrainIsOrderly(config: Config, h: Hatch, id: string, role: string) {
    id in h.agents && h.agents[id].role == role && (role == "governance" ==> IsGovernance(config, role))
  }

  /** No governance agent exits, and drains end while their agents are there. */
  predicate IsOrderly(config: Config, s: Sys, e: Event)
    requires Enabled(s, e)
  {
    match e
    case AgentExit(id, _) => !IsGovernanceAgent(config, s.h, id)
    case DrainEnd(d) => DrainIsOrderly(config, s.h, s.drains[d].id, s.drains[d].role)
    case PauseDrained(p) => DrainIsOrderly(config, s.h, s.pausers[p].id, s.pausers[p].role)
    case _ => true
  }

  predicate OrderlyRun(config: Config, s: Sys, es: seq<Event>)
    requires ValidRun(config, s, es)
    decreases |es|
  {
    es == [] || (IsOrderly(config, s, es[0]) && OrderlyRun(config, Apply(config, s, es[0]), es[1..]))
  }

  ghost predicate CountRun(config: Config, now: int, es: seq<Event>, orderly: bool) {
    && ValidRun(config, StartState(config, now), es)
    && (orderly ==> OrderlyRun(config, StartState(config, now), es))
  }

  /** In every run, or in every orderly run, the count is the number of governance agents. */
  ghost predicate CountIsRight(config: Config, orderly: bool) {
    forall now, es :: CountRun(config, now, es, orderly) ==>
      Surplus(config, Run(config, StartState(config, now), es).h) == 0
  }

  lemma OrderlyAddsNothing(config: Config, s: Sys, e: Event)
    requires Surplus(config, s.h) == 0 && Enabled(s, e) && IsOrderly(config, s, e)
    ensures Added(config, s, e) == 0
  {
    if e.DrainEnd? {
      OrderlyDrainAddsNothing(config, s.h, s.drains[e.drain].id, s.drains[e.drain].role);
    } else if e.PauseDrained? {
      OrderlyDrainAddsNothing(config, s.h, s.pausers[e.pauser].id, s.pausers[e.pauser].role);
    }
  }

  lemma OrderlyDrainAddsNothing(config: Config, h: Hatch, id: string, role: string)
    requires Surplus(config, h) == 0 && DrainIsOrderly(config, h, id, role)
    ensures DrainAdds(config, h, id, role) == 0
  {
    if IsGovernance(config, role) {
      assert id in GovernanceIds(config, h);
    }
  }

  lemma {:induction false} OrderlyRunIsRight(config: Config, s: Sys, es: seq<Event>)
    requires IdInv(s) && Surplus(config, s.h) == 0 && ValidRun(config, s, es) && OrderlyRun(config, s, es)
    ensures Surplus(config, Run(config, s, es).h) == 0
    decreases |es|
  {
    if es != [] {
      OrderlyAddsNothing(config, s, es[0]);
      StepAdds(config, s, es[0]);
      StepKeepsIds(config, s, es[0]);
      OrderlyRunIsRight(config, Apply(config, s, es[0]), es[1..]);
    }
  }

  ghost predicate HasGovernance(config: Config) {
    exists role :: IsGovernance(config, role)
  }

  lemma StepCountsNothing(config: Config, s: Sys, e: Event)
    requires !HasGovernance(config) && s.h.governanceCount == 0 && Enabled(s, e)
    ensures Apply(config, s, e).h.governanceCount == 0
  {
    match e {
      case SpawnAgent(role) => assert !IsGovernance(config, role);
      case AgentExit(id, now) =>
        ExitStepIsExit(config, s, id, now);
        assert id in s.h.agents ==> !IsGovernance(config, s.h.agents[id].role);
      case DrainEnd(d) =>
      case PauseDrained(p) =>
      case _ => OtherStepsKeepRoles(config, s, e);
    }
  }

  /** Without governance roles nothing is ever counted. */
  lemma {:induction false} NothingCounted(config: Config, s: Sys, es: seq<Event>)
    requires !HasGovernance(config) && s.h.governanceCount == 0 && ValidRun(config, s, es)
    ensures Run(config, s, es).h.governanceCount == 0
    decreases |es|
  {
    if es != [] {
      StepCountsNothing(config, s, es[0]);
      NothingCounted(config, Apply(config, s, es[0]), es[1..]);
    }
  }

  lemma CountAfterCrash(config: Config, h: Hatch, id: string, now: int)
    requires !h.paused && !h.shuttingDown && IsGovernanceAgent(config, h, id)
    requires h.agents[id].state == Alive && h.agents[id].restartTimestamps == []
    ensures Exit(config, h, id, now).governanceCount == h.governanceCount + One(config.maxRestarts >= 1)
  {
    SinceAppend(Millis, [], now, now - config.restartWindowMs);
    assert [] + [now] == [now];
  }

  /** One crash of the only governance agent: the count no longer is the number of governance agents. */
  lemma CrashLeavesCount(config: Config, now: int, role: string) returns (es: seq<Event>)
    requires IsGovernance(config, role)
    ensures ValidRun(config, StartState(config, now), es)
    ensures var h := Run(config, StartState(config, now), es).h;
            && Surplus(config, h) == 1
            && h.governanceCount == if config.maxRestarts == 0 then 1 else 2
  {
    var s0 := StartState(config, now);
    var id := AgentId(role, NextId(s0.h, role));
    var s1 := SpawnStep(config, s0, role, []);
    RunAppend(config, s0, [], SpawnAgent(role));
    RunAppend(config, s0, [] + [SpawnAgent(role)], AgentExit(id, now));
    es := [] + [SpawnAgent(role)] + [AgentExit(id, now)];
    ExitStepIsExit(config, s1, id, now);
    CountAfterCrash(config, s1.h, id, now);
    SpawnAddsNothing(config, s0.h, role);
    assert GovernanceIds(config, s0.h) == {};
    NextIdIsNew(s0.h, role);
    StepKeepsIds(config, s0, SpawnAgent(role));
    ExitAdds(config, s1, id, now);
  }

  /**
   * The count is right in every run exactly if runs are orderly, which the program does not make them
   * be, or no governance role is configured.
   */
  lemma CountIsRightExactly(config: Config, orderly: bool)
    ensures CountIsRight(config, orderly) <==> orderly || !HasGovernance(config)
  {
    if orderly || !HasGovernance(config) {
      forall now, es | CountRun(config, now, es, orderly)
        ensures Surplus(config, Run(config, StartState(config, now), es).h) == 0
      {
        var s0 := StartState(config, now);
        assert GovernanceIds(config, s0.h) == {};
        if orderly {
          OrderlyRunIsRight(config, s0, es);
        } else {
          NothingCounted(config, s0, es);
          assert GovernanceIds(config, Run(config, s0, es).h) == {};
        }
      }
    } else {
      var role :| IsGovernance(config, role);
      var es := CrashLeavesCount(config, 0, role);
      assert CountRun(config, 0, es, false);
    }
  }
}
