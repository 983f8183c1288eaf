/**
 * Every interleaving of the supervisor's undivided stretches (src/hatchery.ts). Scale ticks,
 * heartbeat ticks, rebinds, resume and start reach the agents only by spawning and draining them,
 * so a spawn or a drain may happen at any moment, whatever its caller decided earlier.
 */
module HatcheryRuns {
  import opened Options
  import opened SlidingWindow
  import opened Hatchery

  /** A pauseAll call: the ids of its snapshot still to visit; `since` counts the unpausings before the call. */
  datatype Pauser =
    | Looping(todo: seq<string>, since: nat)
    | Waiting(id: string, role: string, todo: seq<string>, since: nat)
    | Returned(since: nat)

  datatype Drain = Drain(id: string, role: string)

  datatype Sys = Sys(
    h: Hatch,
    drains: map<nat, Drain>,
    pausers: map<nat, Pauser>,
    handovers: map<string, seq<int>>,  // restart histories on their way to successors
    issued: set<string>,               // every id ever given to an agent
    succession: map<string, seq<int>>, // per id, the exits of all agents it succeeds, oldest first
    clock: int,
    unpauses: nat)

  datatype Event =
    | SpawnAgent(role: string)
    | DrainStart(drain: nat, id: string)
    | DrainEnd(drain: nat)
    | AgentExit(id: string, now: int)
    | HandOver(id: string)
    | Unpause
    | PauseFlag
    | Shutdown
    | PauseCall(pauser: nat, ids: seq<string>)
    | PauseNext(pauser: nat)
    | PauseDrained(pauser: nat)

  function StartState(config: Config, now: int): Sys {
    Sys(Hatch(false, false, map[], map role | role in config.roles :: 1, 0), map[], map[], map[], {}, map[], now, 0)
  }

  /** The clock does not run back. */
  predicate Enabled(s: Sys, e: Event) {
    match e
    case SpawnAgent(_) => true
    case DrainStart(d, id) => d !in s.drains && id in s.h.agents && s.h.agents[id].state != Dead
    case DrainEnd(d) => d in s.drains
    case AgentExit(_, now) => now >= s.clock
    case HandOver(id) => id in s.handovers
    case Unpause => true
    case PauseFlag => true
    case Shutdown => true
    case PauseCall(p, ids) => p !in s.pausers && forall id :: id in s.h.agents ==> id in ids
    case PauseNext(p) => p in s.pausers && s.pausers[p].Looping?
    case PauseDrained(p) => p in s.pausers && s.pausers[p].Waiting?
  }

  function SpawnStep(config: Config, s: Sys, role: string, history: seq<int>): Sys {
    var s' := s.(h := Spawn(config, s.h, role));
    match SpawnedId(config, s.h, role)
    case None => s'
    case Some(id) => s'.(issued := s.issued + {id}, succession := s.succession[id := history])
  }

  /** The exits that a successor of the agent inherits. */
  function ExitSuccession(s: Sys, id: string, now: int): seq<int> {
    (if id in s.succession then s.succession[id] else []) + [now]
  }

  /** The supervisor without the agent that has exited. */
  function Gone(s: Sys, id: string, now: int): Sys {
    s.(h := s.h.(agents := s.h.agents - {id}), clock := now)
  }

  function ExitStep(config: Config, s: Sys, id: string, now: int): Sys
    requires now >= s.clock
  {
    var gone := Gone(s, id, now);
    if id in s.h.agents && WillRestart(config, s.h, id, now) then
      var s' := SpawnStep(config, gone, s.h.agents[id].role, ExitSuccession(s, id, now));
      match SpawnedId(config, gone.h, s.h.agents[id].role)
      case None => s'
      case Some(successor) => s'.(handovers := s'.handovers[successor := ExitHistory(config, s.h, id, now).value])
    else gone
  }

  /** The loop of pauseAll from one visit to the next await, or to its return. */
  function PauseVisit(s: Sys, p: nat): Sys
    requires p in s.pausers && s.pausers[p].Looping?
  {
    var todo, since := s.pausers[p].todo, s.pausers[p].since;
    if todo == [] then s.(pausers := s.pausers[p := Returned(since)])
    else if todo[0] in s.h.agents && s.h.agents[todo[0]].state == Alive then
      s.(h := BeginDrain(s.h, todo[0]),
         pausers := s.pausers[p := Waiting(todo[0], s.h.agents[todo[0]].role, todo[1..], since)])
    else s.(pausers := s.pausers[p := Looping(todo[1..], since)])
  }

  function Apply(config: Config, s: Sys, e: Event): Sys
    requires Enabled(s, e)
  {
    match e
    case SpawnAgent(role) => SpawnStep(config, s, role, [])
    case DrainStart(d, id) => s.(h := BeginDrain(s.h, id), drains := s.drains[d := Drain(id, s.h.agents[id].role)])
    case DrainEnd(d) => s.(h := FinishDrain(config, s.h, s.drains[d].id, s.drains[d].role), drains := s.drains - {d})
    case AgentExit(id, now) => ExitStep(config, s, id, now)
    case HandOver(id) => s.(h := GiveHistory(s.h, id, s.handovers[id]), handovers := s.handovers - {id})
    case Unpause => s.(h := SetPause(s.h, false), unpauses := s.unpauses + 1)
    case PauseFlag => s.(h := SetPause(s.h, true))
    case Shutdown => s.(h := s.h.(shuttingDown := true))
    case PauseCall(p, ids) => s.(h := SetPause(s.h, true), pausers := s.pausers[p := Looping(ids, s.unpauses)])
    case PauseNext(p) => PauseVisit(s, p)
    case PauseDrained(p) =>
      var w := s.pausers[p];
      s.(h := FinishDrain(config, s.h, w.id, w.role), pausers := s.pausers[p := Looping(w.todo, w.since)])
  }

  predicate ValidRun(config: Config, s: Sys, es: seq<Event>)
    decreases |es|
  {
    es == [] || (Enabled(s, es[0]) && ValidRun(config, Apply(config, s, es[0]), es[1..]))
  }

  function Run(config: Config, s: Sys, es: seq<Event>): Sys
    requires ValidRun(config, s, es)
    decreases |es|
  {
    if es == [] then s else Run(config, Apply(config, s, es[0]), es[1..])
  }

  lemma {:induction false} RunAppend(config: Config, s: Sys, es: seq<Event>, e: Event)
    requires ValidRun(config, s, es) && Enabled(Run(config, s, es), e)
    ensures ValidRun(config, s, es + [e]) && Run(config, s, es + [e]) == Apply(config, Run(config, s, es), e)
    decreases |es|
  {
    if es != [] {
      RunAppend(config, Apply(config, s, es[0]), es[1..], e);
      assert (es + [e])[1..] == es[1..] + [e];
    }
  }

  /** The exit step of the run is the supervisor's exit stretch. */
  lemma ExitStepIsExit(config: Config, s: Sys, id: string, now: int)
    requires now >= s.clock
    ensures ExitStep(config, s, id, now).h == Exit(config, s.h, id, now)
  {
    if id !in s.h.agents {
      assert s.h.agents - {id} == s.h.agents;
    }
  }

  // ---------------------------------------------------------------------------------------------
  // Pausing
  // ---------------------------------------------------------------------------------------------

  function Todo(p: Pauser): seq<string> {
    if p.Returned? then [] else p.todo
  }

  ghost predicate AliveWithin(h: Hatch, ids: seq<string>) {
    forall id :: id in h.agents && h.agents[id].state == Alive ==> id in ids
  }

  /** A pauseAll that nobody has undone: still paused, and the agents alive are those it has yet to visit. */
  ghost predicate PauserInv(s: Sys, p: Pauser) {
    p.since == s.unpauses ==> s.h.paused && AliveWithin(s.h, Todo(p))
  }

  ghost predicate PauseInv(s: Sys) {
    forall p :: p in s.pausers ==> s.pausers[p].since <= s.unpauses && PauserInv(s, s.pausers[p])
  }

  /** A paused supervisor stays paused, and agents alive afterwards were alive before. */
  predicate KeepsQuiet(h: Hatch, h': Hatch) {
    h.paused ==>
      && h'.paused
      && forall id :: id in h'.agents && h'.agents[id].state == Alive ==> id in h.agents && h.agents[id].state == Alive
  }

  lemma ExitKeepsQuiet(config: Config, s: Sys, id: string, now: int)
    requires now >= s.clock
    ensures KeepsQuiet(s.h, ExitStep(config, s, id, now).h)
  {
    ExitStepIsExit(config, s, id, now);
  }

  lemma BeginDrainKeepsQuiet(h: Hatch, id: string)
    ensures KeepsQuiet(h, BeginDrain(h, id))
  {
  }

  lemma FinishDrainKeepsQuiet(config: Config, h: Hatch, id: string, role: string)
    ensures KeepsQuiet(h, FinishDrain(config, h, id, role))
  {
  }

  lemma HistoryKeepsQuiet(h: Hatch, id: string, recent: seq<int>)
    ensures KeepsQuiet(h, GiveHistory(h, id, recent))
  {
  }

  lemma VisitKeepsQuiet(s: Sys, p: nat)
    requires p in s.pausers && s.pausers[p].Looping?
    ensures KeepsQuiet(s.h, PauseVisit(s, p).h)
  {
    var todo := s.pausers[p].todo;
    if todo != [] {
      BeginDrainKeepsQuiet(s.h, todo[0]);
    }
  }

  lemma StepKeepsQuiet(config: Config, s: Sys, e: Event)
    requires Enabled(s, e) && !e.Unpause?
    ensures KeepsQuiet(s.h, Apply(config, s, e).h)
  {
    match e {
      case SpawnAgent(role) =>
      case DrainStart(d, id) => BeginDrainKeepsQuiet(s.h, id);
      case DrainEnd(d) => FinishDrainKeepsQuiet(config, s.h, s.drains[d].id, s.drains[d].role);
      case AgentExit(id, now) => ExitKeepsQuiet(config, s, id, now);
      case HandOver(id) => HistoryKeepsQuiet(s.h, id, s.handovers[id]);
      case PauseNext(p) => VisitKeepsQuiet(s, p);
      case PauseDrained(p) => FinishDrainKeepsQuiet(config, s.h, s.pausers[p].id, s.pausers[p].role);
      case _ =>
    }
  }

  lemma ExitKeepsPausers(config: Config, s: Sys, id: string, now: int)
    requires now >= s.clock
    ensures ExitStep(config, s, id, now).pausers == s.pausers && ExitStep(config, s, id, now).unpauses == s.unpauses
  {
  }

  /** Only the calls themselves change how far they have come, and only an unpausing counts as one. */
  lemma OtherPausersKeep(config: Config, s: Sys, e: Event, p: nat)
    requires Enabled(s, e) && p in Apply(config, s, e).pausers
    requires (e.PauseCall? || e.PauseNext? || e.PauseDrained?) ==> e.pauser != p
    ensures p in s.pausers && Apply(config, s, e).pausers[p] == s.pausers[p]
  {
    if e.AgentExit? {
      ExitKeepsPausers(config, s, e.id, e.now);
    }
  }

  lemma UnpausesCount(config: Config, s: Sys, e: Event)
    requires Enabled(s, e)
    ensures Apply(config, s, e).unpauses == if e.Unpause? then s.unpauses + 1 else s.unpauses
  {
    if e.AgentExit? {
      ExitKeepsPausers(config, s, e.id, e.now);
    }
  }

  lemma VisitKeepsPauser(s: Sys, p: nat)
    requires p in s.pausers && s.pausers[p].Looping? && PauserInv(s, s.pausers[p])
    ensures PauserInv(PauseVisit(s, p), PauseVisit(s, p).pausers[p])
  {
    var todo := s.pausers[p].todo;
    if todo != [] && todo[0] in s.h.agents && s.h.agents[todo[0]].state == Alive {
      assert PauseVisit(s, p).h == BeginDrain(s.h, todo[0]);
    } else {
      assert PauseVisit(s, p).h == s.h;
    }
  }

  lemma PauserStep(config: Config, s: Sys, e: Event, p: nat)
    requires PauseInv(s) && Enabled(s, e) && p in Apply(config, s, e).pausers
    ensures var s' := Apply(config, s, e);
            s'.pausers[p].since <= s'.unpauses && PauserInv(s', s'.pausers[p])
  {
    UnpausesCount(config, s, e);
    if e.PauseNext? && e.pauser == p {
      assert PauserInv(s, s.pausers[p]);
      VisitKeepsPauser(s, p);
    } else if e.PauseDrained? && e.pauser == p {
      assert PauserInv(s, s.pausers[p]);
      StepKeepsQuiet(config, s, e);
    } else if e.PauseCall? && e.pauser == p {
      assert AliveWithin(s.h, e.ids);
    } else {
      OtherPausersKeep(config, s, e, p);
      assert PauserInv(s, s.pausers[p]);
      if !e.Unpause? {
        StepKeepsQuiet(config, s, e);
      }
    }
  }

  lemma StepKeepsPause(config: Config, s: Sys, e: Event)
    requires PauseInv(s) && Enabled(s, e)
    ensures PauseInv(Apply(config, s, e))
  {
    var s' := Apply(config, s, e);
    forall p | p in s'.pausers
      ensures s'.pausers[p].since <= s'.unpauses && PauserInv(s', s'.pausers[p])
    {
      PauserStep(config, s, e, p);
    }
  }

  lemma {:induction false} RunKeepsPause(config: Config, s: Sys, es: seq<Event>)
    requires PauseInv(s) && ValidRun(config, s, es)
    ensures PauseInv(Run(config, s, es))
    decreases |es|
  {
    if es != [] {
      StepKeepsPause(config, s, es[0]);
      RunKeepsPause(config, Apply(config, s, es[0]), es[1..]);
    }
  }

  /**
   * Once a pauseAll has returned, no agent is alive in any later state, whatever crashes, ticks,
   * drains and rebinds have done, as long as nobody has unpaused since the call.
   */
  lemma PausedMeansQuiet(config: Config, now: int, es: seq<Event>, p: nat)
    requires ValidRun(config, StartState(config, now), es)
    requires var s := Run(config, StartState(config, now), es);
             p in s.pausers && s.pausers[p] == Returned(s.unpauses)
    ensures var s := Run(config, StartState(config, now), es);
            s.h.paused && forall id :: id in s.h.agents ==> s.h.agents[id].state != Alive
  {
    RunKeepsPause(config, StartState(config, now), es);
    var s := Run(config, StartState(config, now), es);
    assert PauserInv(s, s.pausers[p]);
  }

  /** The proviso counts from the call: an unpausing and a spawn during it leave an agent alive once it has returned. */
  lemma UnpausedDuringCall(config: Config, now: int, role: string) returns (es: seq<Event>)
    requires role in config.roles
    ensures ValidRun(config, StartState(config, now), es)
    ensures var s := Run(config, StartState(config, now), es);
            && 0 in s.pausers && s.pausers[0].Returned?
            && exists id :: id in s.h.agents && s.h.agents[id].state == Alive
  {
    var s0 := StartState(config, now);
    RunAppend(config, s0, [], PauseCall(0, []));
    RunAppend(config, s0, [] + [PauseCall(0, [])], Unpause);
    RunAppend(config, s0, [] + [PauseCall(0, [])] + [Unpause], SpawnAgent(role));
    RunAppend(config, s0, [] + [PauseCall(0, [])] + [Unpause] + [SpawnAgent(role)], PauseNext(0));
    es := [] + [PauseCall(0, [])] + [Unpause] + [SpawnAgent(role)] + [PauseNext(0)];
    var s := Run(config, s0, es);
    assert AgentId(role, 1) in s.h.agents && s.h.agents[AgentId(role, 1)].state == Alive;
  }

  // ---------------------------------------------------------------------------------------------
  // The flags
  // ---------------------------------------------------------------------------------------------

  lemma ExitAddsNothing(config: Config, s: Sys, id: string, now: int)
    requires now >= s.clock && (s.h.paused || s.h.shuttingDown)
    ensures var h := ExitStep(config, s, id, now).h;
            h.paused == s.h.paused && h.shuttingDown == s.h.shuttingDown && h.agents.Keys <= s.h.agents.Keys
  {
    ExitStepIsExit(config, s, id, now);
  }

  lemma StepAddsNothing(config: Config, s: Sys, e: Event)
    requires Enabled(s, e) && s.h.paused && !e.Unpause?
    ensures Apply(config, s, e).h.paused && Apply(config, s, e).h.agents.Keys <= s.h.agents.Keys
  {
    if e.AgentExit? {
      ExitAddsNothing(config, s, e.id, e.now);
    } else if e.PauseNext? {
      VisitIsQuiet(s, e.pauser);
    }
  }

  lemma {:induction false} RunAddsNothing(config: Config, s: Sys, es: seq<Event>)
    requires ValidRun(config, s, es) && s.h.paused && forall e :: e in es ==> !e.Unpause?
    ensures Run(config, s, es).h.agents.Keys <= s.h.agents.Keys
    decreases |es|
  {
    if es != [] {
      StepAddsNothing(config, s, es[0]);
      RunAddsNothing(config, Apply(config, s, es[0]), es[1..]);
    }
  }

  /** The pause can be set in any state, and from then on no agent is added until it is lifted. */
  lemma PauseAddsNothing(config: Config, s: Sys, es: seq<Event>)
    requires ValidRun(config, Apply(config, s, PauseFlag), es) && forall e :: e in es ==> !e.Unpause?
    ensures Run(config, Apply(config, s, PauseFlag), es).h.agents.Keys <= s.h.agents.Keys
  {
    RunAddsNothing(config, Apply(config, s, PauseFlag), es);
  }

  lemma StepKeepsShutdown(config: Config, s: Sys, e: Event)
    requires Enabled(s, e) && s.h.shuttingDown
    ensures Apply(config, s, e).h.shuttingDown
  {
    if e.AgentExit? {
      ExitAddsNothing(config, s, e.id, e.now);
    }
  }

  lemma {:induction false} RunKeepsShutdown(config: Config, s: Sys, es: seq<Event>)
    requires ValidRun(config, s, es) && s.h.shuttingDown
    ensures Run(config, s, es).h.shuttingDown
    decreases |es|
  {
    if es != [] {
      StepKeepsShutdown(config, s, es[0]);
      RunKeepsShutdown(config, Apply(config, s, es[0]), es[1..]);
    }
  }

  /** A shutdown can begin in any state and is final: in no later state is an exit answered with a new agent. */
  lemma ShutdownIsFinal(config: Config, s: Sys, es: seq<Event>, id: string, now: int)
    requires ValidRun(config, Apply(config, s, Shutdown), es)
    ensures var later := Run(config, Apply(config, s, Shutdown), es);
            later.h.shuttingDown
            && (now >= later.clock ==> ExitStep(config, later, id, now).h.agents == later.h.agents - {id})
  {
    RunKeepsShutdown(config, Apply(config, s, Shutdown), es);
    var later := Run(config, Apply(config, s, Shutdown), es);
    if now >= later.clock {
      ExitStepIsExit(config, later, id, now);
      assert id !in later.h.agents ==> later.h.agents - {id} == later.h.agents;
    }
  }

  // ---------------------------------------------------------------------------------------------
  // Agent ids
  // ---------------------------------------------------------------------------------------------

  ghost predicate IdInv(s: Sys) {
    && (forall id :: id in s.issued ==> BelowCounter(s.h, id))
    && (forall id :: id in s.h.agents ==> id in s.issued)
    && (forall id :: id in s.handovers ==> id in s.issued)
    && s.succession.Keys == s.issued
  }

  /** Steps that neither create agents nor hand over histories: they change states and remove agents. */
  predicate Quiet(s: Sys, s': Sys) {
    && s'.h.nextInstanceId == s.h.nextInstanceId && s'.issued == s.issued && s'.succession == s.succession
    && s'.handovers == s.handovers && s'.clock >= s.clock
    && forall id :: id in s'.h.agents ==>
         id in s.h.agents && s'.h.agents[id].restartTimestamps == s.h.agents[id].restartTimestamps
  }

  predicate SetsFlags(e: Event) {
    e.Unpause? || e.PauseFlag? || e.Shutdown? || e.PauseCall?
  }

  lemma FlagsAreQuiet(config: Config, s: Sys, e: Event)
    requires Enabled(s, e) && SetsFlags(e)
    ensures Quiet(s, Apply(config, s, e))
  {
  }

  lemma DrainsAreQuiet(config: Config, s: Sys, e: Event)
    requires Enabled(s, e) && (e.DrainStart? || e.DrainEnd?)
    ensures Quiet(s, Apply(config, s, e))
  {
  }

  lemma VisitIsQuiet(s: Sys, p: nat)
    requires p in s.pausers && s.pausers[p].Looping?
    ensures Quiet(s, PauseVisit(s, p))
  {
    var todo := s.pausers[p].todo;
    if todo != [] && todo[0] in s.h.agents && s.h.agents[todo[0]].state == Alive {
      assert PauseVisit(s, p).h == BeginDrain(s.h, todo[0]);
    } else {
      assert PauseVisit(s, p).h == s.h;
    }
  }

  lemma DrainedIsQuiet(config: Config, s: Sys, p: nat)
    requires Enabled(s, PauseDrained(p))
    ensures Quiet(s, Apply(config, s, PauseDrained(p)))
  {
  }

  lemma QuietSteps(config: Config, s: Sys, e: Event)
    requires Enabled(s, e) && !e.SpawnAgent? && !e.AgentExit? && !e.HandOver?
    ensures Quiet(s, Apply(config, s, e))
  {
    if SetsFlags(e) {
      FlagsAreQuiet(config, s, e);
    } else if e.DrainStart? || e.DrainEnd? {
      DrainsAreQuiet(config, s, e);
    } else if e.PauseNext? {
      VisitIsQuiet(s, e.pauser);
    } else {
      DrainedIsQuiet(config, s, e.pauser);
    }
  }

  lemma SpawnKeepsIds(config: Config, s: Sys, role: string, history: seq<int>)
    requires IdInv(s)
    ensures IdInv(SpawnStep(config, s, role, history))
  {
    var s' := SpawnStep(config, s, role, history);
    SpawnIssues(config, s, role, history);
    forall id | id in s'.issued
      ensures BelowCounter(s'.h, id)
    {
      SpawnRaisesCounter(config, s.h, role, id);
    }
  }

  lemma SpawnIssues(config: Config, s: Sys, role: string, history: seq<int>)
    ensures var s', id := SpawnStep(config, s, role, history), AgentId(role, NextId(s.h, role));
            && s'.h == Spawn(config, s.h, role) && s'.handovers == s.handovers
            && if s.h.paused || role !in config.roles
               then s'.issued == s.issued && s'.succession == s.succession && s'.h.agents == s.h.agents
               else s'.issued == s.issued + {id} && s'.succession == s.succession[id := history]
                    && s'.h.agents == s.h.agents[id := Instance(role, Alive, [])]
  {
  }

  lemma SameCounterSameIds(s: Sys, s': Sys)
    requires IdInv(s) && s'.h.nextInstanceId == s.h.nextInstanceId && s'.issued == s.issued
             && s'.succession == s.succession
    requires forall id :: id in s'.h.agents ==> id in s.h.agents
    requires forall id :: id in s'.handovers ==> id in s.handovers
    ensures IdInv(s')
  {
    forall id | id in s'.issued
      ensures BelowCounter(s'.h, id)
    {
      var role, n: nat :| n < NextId(s.h, role) && id == AgentId(role, n);
      assert n < NextId(s'.h, role);
    }
  }

  lemma ExitKeepsIds(config: Config, s: Sys, id: string, now: int)
    requires IdInv(s) && now >= s.clock
    ensures IdInv(ExitStep(config, s, id, now))
  {
    var gone := Gone(s, id, now);
    SameCounterSameIds(s, gone);
    if id in s.h.agents {
      SpawnKeepsIds(config, gone, s.h.agents[id].role, ExitSuccession(s, id, now));
    }
  }

  lemma StepKeepsIds(config: Config, s: Sys, e: Event)
    requires IdInv(s) && Enabled(s, e)
    ensures IdInv(Apply(config, s, e))
  {
    if e.SpawnAgent? {
      SpawnKeepsIds(config, s, e.role, []);
    } else if e.AgentExit? {
      ExitKeepsIds(config, s, e.id, e.now);
    } else if e.HandOver? {
      SameCounterSameIds(s, Apply(config, s, e));
    } else {
      QuietSteps(config, s, e);
      SameCounterSameIds(s, Apply(config, s, e));
    }
  }

  lemma {:induction false} RunKeepsIds(config: Config, s: Sys, es: seq<Event>)
    requires IdInv(s) && ValidRun(config, s, es)
    ensures IdInv(Run(config, s, es))
    decreases |es|
  {
    if es != [] {
      StepKeepsIds(config, s, es[0]);
      RunKeepsIds(config, Apply(config, s, es[0]), es[1..]);
    }
  }

  /**
   * Over every run: an exit of an agent that is draining or dead, or any exit during a shutdown or a
   * pause, creates no agent; an alive agent is replaced by one new agent of its role exactly if at most
   * maxRestarts of its recorded exits and this one lie in the window.
   */
  lemma ExitsInRuns(config: Config, now0: int, es: seq<Event>, id: string, now: int)
    requires ValidRun(config, StartState(config, now0), es)
    requires Enabled(Run(config, StartState(config, now0), es), AgentExit(id, now))
    ensures var h := Run(config, StartState(config, now0), es).h;
            var after := Apply(config, Run(config, StartState(config, now0), es), AgentExit(id, now)).h.agents;
            if IsReplaced(config, h, id, now)
            then
              exists successor :: successor !in h.agents
                && after == (h.agents - {id})[successor := Instance(h.agents[id].role, Alive, [])]
            else after == h.agents - {id}
  {
    var s := Run(config, StartState(config, now0), es);
    RunKeepsIds(config, StartState(config, now0), es);
    ExitExactly(config, s.h, id, now);
    ExitStepIsExit(config, s, id, now);
  }

  /** The ids given to agents of a configured role are numbered from 1 without gaps. */
  ghost predicate Numbered(config: Config, s: Sys, role: string) {
    NextId(s.h, role) >= 1
    && forall n: nat :: AgentId(role, n) in s.issued <==> 1 <= n < NextId(s.h, role)
  }

  lemma SpawnNumbers(config: Config, s: Sys, role: string, other: string, history: seq<int>)
    requires Numbered(config, s, role) && role in config.roles
    ensures Numbered(config, SpawnStep(config, s, other, history), role)
  {
    var s' := SpawnStep(config, s, other, history);
    SpawnIssues(config, s, other, history);
    forall n: nat
      ensures AgentId(role, n) in s'.issued <==> 1 <= n < NextId(s'.h, role)
    {
      if AgentId(role, n) == AgentId(other, NextId(s.h, other)) {
        AgentIdInjective(role, n, other, NextId(s.h, other));
      }
    }
  }

  lemma StepNumbers(config: Config, s: Sys, e: Event, role: string)
    requires Numbered(config, s, role) && role in config.roles && Enabled(s, e)
    ensures Numbered(config, Apply(config, s, e), role)
  {
    if e.SpawnAgent? {
      SpawnNumbers(config, s, role, e.role, []);
    } else if e.AgentExit? {
      if e.id in s.h.agents {
        SpawnNumbers(config, Gone(s, e.id, e.now), role, s.h.agents[e.id].role, ExitSuccession(s, e.id, e.now));
      }
    } else if !e.HandOver? {
      QuietSteps(config, s, e);
    }
  }

  lemma {:induction false} RunNumbers(config: Config, s: Sys, es: seq<Event>, role: string)
    requires Numbered(config, s, role) && role in config.roles && ValidRun(config, s, es)
    ensures Numbered(config, Run(config, s, es), role)
    decreases |es|
  {
    if es != [] {
      StepNumbers(config, s, es[0], role);
      RunNumbers(config, Apply(config, s, es[0]), es[1..], role);
    }
  }

  /** In any state of any run. */
  lemma AgentIdsHaveNoGaps(config: Config, now: int, es: seq<Event>, role: string)
    requires ValidRun(config, StartState(config, now), es) && role in config.roles
    ensures Numbered(config, Run(config, StartState(config, now), es), role)
  {
    RunNumbers(config, StartState(config, now), es, role);
  }

  /** The id a spawn uses, in any state of any run, has never been used before. */
  lemma AgentIdsNeverReused(config: Config, now: int, es: seq<Event>, role: string)
    requires ValidRun(config, StartState(config, now), es)
    ensures var s := Run(config, StartState(config, now), es);
            SpawnedId(config, s.h, role).Some? ==> SpawnedId(config, s.h, role).value !in s.issued
  {
    RunKeepsIds(config, StartState(config, now), es);
    NextIdIsNew(Run(config, StartState(config, now), es).h, role);
  }
}
