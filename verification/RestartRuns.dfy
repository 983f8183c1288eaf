/**
 * Restart intensity over every run of the supervisor (src/hatchery.ts). A successor receives the
 * restart history of the agent it replaces only after an awaited log write, so it may exit before.
 */
module RestartRuns {
  import opened Options
  import opened SlidingWindow
  import opened Hatchery
  import opened HatcheryRuns

  // ---------------------------------------------------------------------------------------------
  // The limit
  // ---------------------------------------------------------------------------------------------

  /** No window holds more restarts than the configuration allows. */
  ghost predicate WithinLimit(config: Config, exits: seq<int>) {
    forall i, j :: 0 <= i <= j < |exits| && exits[j] - exits[i] <= config.restartWindowMs ==>
      j - i + 1 <= config.maxRestarts
  }

  /** An exit waits until the agent has its history. */
  predicate Waits(s: Sys, e: Event) {
    e.AgentExit? ==> e.id !in s.handovers
  }

  ghost predicate WaitingRun(config: Config, s: Sys, es: seq<Event>)
    requires ValidRun(config, s, es)
    decreases |es|
  {
    es == [] || (Waits(s, es[0]) && WaitingRun(config, Apply(config, s, es[0]), es[1..]))
  }

  /** In every run, or in every run whose exits wait, every succession of agents respects the limit. */
  ghost predicate LimitHolds(config: Config, waits: bool) {
    forall now, es, id ::
      (LimitRun(config, now, es, waits) && id in Run(config, StartState(config, now), es).succession) ==>
        WithinLimit(config, Run(config, StartState(config, now), es).succession[id])
  }

  ghost predicate LimitRun(config: Config, now: int, es: seq<Event>, waits: bool) {
    && ValidRun(config, StartState(config, now), es)
    && (waits ==> WaitingRun(config, StartState(config, now), es))
  }

  // ---------------------------------------------------------------------------------------------
  // Exits that wait
  // ---------------------------------------------------------------------------------------------

  /** Exits in time order, none after the given time, each followed by a granted restart. */
  ghost predicate Granted(config: Config, exits: seq<int>, now: int) {
    && NonDecreasing(exits)
    && (forall t :: t in exits ==> t <= now)
    && (forall k :: 0 <= k < |exits| ==> Restarts(exits, k, config.maxRestarts, config.restartWindowMs))
  }

  ghost predicate SuccessionInv(config: Config, s: Sys, id: string)
    requires id in s.succession
  {
    Granted(config, s.succession[id], s.clock)
  }

  /** A history is where it belongs: with the agent, or still on its way. */
  ghost predicate HistoryInv(config: Config, s: Sys, id: string)
    requires id in s.succession
  {
    var history := ChainHistory(s.succession[id], config.restartWindowMs);
    && (id in s.handovers ==> s.handovers[id] == history)
    && (id in s.h.agents && id !in s.handovers ==> s.h.agents[id].restartTimestamps == history)
  }

  ghost predicate ChainInv(config: Config, s: Sys) {
    forall id :: id in s.succession ==> SuccessionInv(config, s, id) && HistoryInv(config, s, id)
  }

  lemma AppendExit(exits: seq<int>, now: int)
    requires NonDecreasing(exits) && forall t :: t in exits ==> t <= now
    ensures NonDecreasing(exits + [now]) && forall t :: t in exits + [now] ==> t <= now
  {
    assert forall i :: 0 <= i < |exits| ==> exits[i] in exits;
  }

  lemma ChainHistoryAppend(exits: seq<int>, now: int, windowMs: int)
    ensures ChainHistory(exits + [now], windowMs) == RecentRestarts(ChainHistory(exits, windowMs), now, windowMs)
  {
    assert (exits + [now])[..|exits|] == exits;
  }

  lemma RestartsAppend(exits: seq<int>, now: int, k: nat, maxRestarts: nat, windowMs: int)
    requires k <= |exits|
    ensures Restarts(exits + [now], k, maxRestarts, windowMs)
            <==> if k < |exits| then Restarts(exits, k, maxRestarts, windowMs)
                 else |ChainHistory(exits + [now], windowMs)| <= maxRestarts
  {
    if k < |exits| {
      assert (exits + [now])[..k + 1] == exits[..k + 1];
    } else {
      assert (exits + [now])[..k + 1] == exits + [now];
    }
  }

  lemma ExtendSuccession(config: Config, exits: seq<int>, now: int)
    requires Granted(config, exits, now)
    requires |RecentRestarts(ChainHistory(exits, config.restartWindowMs), now,
                             config.restartWindowMs)| <= config.maxRestarts
    ensures Granted(config, exits + [now], now)
    ensures ChainHistory(exits + [now], config.restartWindowMs)
            == RecentRestarts(ChainHistory(exits, config.restartWindowMs), now, config.restartWindowMs)
  {
    AppendExit(exits, now);
    ChainHistoryAppend(exits, now, config.restartWindowMs);
    forall k | 0 <= k < |exits + [now]|
      ensures Restarts(exits + [now], k, config.maxRestarts, config.restartWindowMs)
    {
      RestartsAppend(exits, now, k, config.maxRestarts, config.restartWindowMs);
    }
  }

  lemma SuccessionPersists(config: Config, s: Sys, s': Sys, id: string)
    requires id in s.succession && SuccessionInv(config, s, id)
    requires id in s'.succession && s'.succession[id] == s.succession[id] && s'.clock >= s.clock
    ensures SuccessionInv(config, s', id)
  {
  }

  lemma QuietKeepsChains(config: Config, s: Sys, s': Sys)
    requires ChainInv(config, s) && Quiet(s, s')
    ensures ChainInv(config, s')
  {
    forall id | id in s'.succession
      ensures SuccessionInv(config, s', id) && HistoryInv(config, s', id)
    {
      SuccessionPersists(config, s, s', id);
    }
  }

  /** A new agent: its own history is empty, and its predecessors' is on the way or is empty too. */
  lemma NewcomerKeepsChains(config: Config, s: Sys, s': Sys, role: string, id: string, exits: seq<int>, handover: bool)
    requires ChainInv(config, s) && id !in s.succession && id !in s.handovers
    requires s'.succession == s.succession[id := exits] && s'.clock == s.clock
    requires s'.h.agents == s.h.agents[id := Instance(role, Alive, [])]
    requires handover ==> s'.handovers == s.handovers[id := ChainHistory(exits, config.restartWindowMs)]
    requires !handover ==> s'.handovers == s.handovers && exits == []
    requires Granted(config, exits, s.clock)
    ensures ChainInv(config, s')
  {
    forall i | i in s'.succession
      ensures SuccessionInv(config, s', i) && HistoryInv(config, s', i)
    {
      if i != id {
        SuccessionPersists(config, s, s', i);
        assert HistoryInv(config, s, i);
      }
    }
  }

  /** What a spawn does when it creates an agent. */
  lemma SpawnCreates(config: Config, s: Sys, role: string, exits: seq<int>)
    requires !s.h.paused && role in config.roles
    ensures var id := AgentId(role, NextId(s.h, role));
            var s' := SpawnStep(config, s, role, exits);
            && SpawnedId(config, s.h, role) == Some(id)
            && s'.h.agents == s.h.agents[id := Instance(role, Alive, [])]
            && s'.succession == s.succession[id := exits] && s'.handovers == s.handovers && s'.clock == s.clock
            && !s'.h.paused && s'.h.shuttingDown == s.h.shuttingDown
  {
  }

  lemma SpawnCreatesNothing(config: Config, s: Sys, role: string, exits: seq<int>)
    requires s.h.paused || role !in config.roles
    ensures var s' := SpawnStep(config, s, role, exits);
            && SpawnedId(config, s.h, role) == None
            && s'.h.agents == s.h.agents && s'.succession == s.succession && s'.handovers == s.handovers
            && s'.clock == s.clock
  {
  }

  lemma SameAgentsKeepChains(config: Config, s: Sys, s': Sys)
    requires ChainInv(config, s)
    requires s'.h.agents == s.h.agents && s'.succession == s.succession && s'.handovers == s.handovers
             && s'.clock == s.clock
    ensures ChainInv(config, s')
  {
    forall id | id in s'.succession
      ensures SuccessionInv(config, s', id) && HistoryInv(config, s', id)
    {
      assert SuccessionInv(config, s, id) && HistoryInv(config, s, id);
    }
  }

  lemma SpawnKeepsChains(config: Config, s: Sys, role: string)
    requires IdInv(s) && ChainInv(config, s)
    ensures ChainInv(config, SpawnStep(config, s, role, []))
  {
    if s.h.paused || role !in config.roles {
      SpawnCreatesNothing(config, s, role, []);
      SameAgentsKeepChains(config, s, SpawnStep(config, s, role, []));
    } else {
      SpawnCreates(config, s, role, []);
      NextIdIsNew(s.h, role);
      NewcomerKeepsChains(config, s, SpawnStep(config, s, role, []), role, AgentId(role, NextId(s.h, role)), [], false);
    }
  }

  lemma RestartKeepsChains(config: Config, gone: Sys, role: string, exits: seq<int>, recent: seq<int>)
    requires IdInv(gone) && ChainInv(config, gone) && !gone.h.paused && role in config.roles
    requires Granted(config, exits, gone.clock) && recent == ChainHistory(exits, config.restartWindowMs)
    ensures var s' := SpawnStep(config, gone, role, exits);
            ChainInv(config, s'.(handovers := s'.handovers[AgentId(role, NextId(gone.h, role)) := recent]))
  {
    var s' := SpawnStep(config, gone, role, exits);
    var successor := AgentId(role, NextId(gone.h, role));
    SpawnCreates(config, gone, role, exits);
    NextIdIsNew(gone.h, role);
    NewcomerKeepsChains(config, gone, s'.(handovers := s'.handovers[successor := recent]), role, successor, exits,
                        true);
  }

  /** The exits that a successor inherits, and the history on its way to it. */
  lemma InheritedSuccession(config: Config, s: Sys, id: string, now: int)
    requires id in s.succession && SuccessionInv(config, s, id) && HistoryInv(config, s, id) && id !in s.handovers
    requires now >= s.clock && WillRestart(config, s.h, id, now)
    ensures Granted(config, ExitSuccession(s, id, now), now)
    ensures ChainHistory(ExitSuccession(s, id, now), config.restartWindowMs) == ExitHistory(config, s.h, id, now).value
  {
    var exits := s.succession[id];
    assert s.h.agents[id].restartTimestamps == ChainHistory(exits, config.restartWindowMs);
    assert Granted(config, exits, now);
    ExtendSuccession(config, exits, now);
  }

  lemma GoneKeepsChains(config: Config, s: Sys, id: string, now: int)
    requires IdInv(s) && ChainInv(config, s) && now >= s.clock
    ensures IdInv(Gone(s, id, now)) && ChainInv(config, Gone(s, id, now))
  {
    QuietKeepsChains(config, s, Gone(s, id, now));
    SameCounterSameIds(s, Gone(s, id, now));
  }

  lemma RestartingExitKeepsChains(config: Config, s: Sys, id: string, now: int)
    requires IdInv(s) && ChainInv(config, s) && now >= s.clock && id !in s.handovers
    requires id in s.h.agents && WillRestart(config, s.h, id, now)
    requires !s.h.paused && s.h.agents[id].role in config.roles
    ensures ChainInv(config, ExitStep(config, s, id, now))
  {
    var gone, role, exits := Gone(s, id, now), s.h.agents[id].role, ExitSuccession(s, id, now);
    GoneKeepsChains(config, s, id, now);
    InheritedSuccession(config, s, id, now);
    SpawnCreates(config, gone, role, exits);
    RestartKeepsChains(config, gone, role, exits, ExitHistory(config, s.h, id, now).value);
  }

  lemma ExitKeepsChains(config: Config, s: Sys, id: string, now: int)
    requires IdInv(s) && ChainInv(config, s) && now >= s.clock && id !in s.handovers
    ensures ChainInv(config, ExitStep(config, s, id, now))
  {
    GoneKeepsChains(config, s, id, now);
    if id in s.h.agents && WillRestart(config, s.h, id, now) {
      var gone, role := Gone(s, id, now), s.h.agents[id].role;
      if s.h.paused || role !in config.roles {
        SpawnCreatesNothing(config, gone, role, ExitSuccession(s, id, now));
        SameAgentsKeepChains(config, gone, ExitStep(config, s, id, now));
      } else {
        RestartingExitKeepsChains(config, s, id, now);
      }
    }
  }

  lemma HandOverKeepsChains(config: Config, s: Sys, id: string)
    requires ChainInv(config, s) && Enabled(s, HandOver(id))
    ensures ChainInv(config, Apply(config, s, HandOver(id)))
  {
    var s' := Apply(config, s, HandOver(id));
    forall i | i in s'.succession
      ensures SuccessionInv(config, s', i) && HistoryInv(config, s', i)
    {
      SuccessionPersists(config, s, s', i);
      assert HistoryInv(config, s, i);
    }
  }

  lemma StepKeepsChains(config: Config, s: Sys, e: Event)
    requires IdInv(s) && ChainInv(config, s) && Enabled(s, e) && Waits(s, e)
    ensures ChainInv(config, Apply(config, s, e))
  {
    if e.AgentExit? {
      ExitKeepsChains(config, s, e.id, e.now);
    } else if e.SpawnAgent? {
      SpawnKeepsChains(config, s, e.role);
    } else if e.HandOver? {
      HandOverKeepsChains(config, s, e.id);
    } else {
      QuietSteps(config, s, e);
      QuietKeepsChains(config, s, Apply(config, s, e));
    }
  }

  lemma {:induction false} RunKeepsChains(config: Config, s: Sys, es: seq<Event>)
    requires IdInv(s) && ChainInv(config, s) && ValidRun(config, s, es) && WaitingRun(config, s, es)
    ensures ChainInv(config, Run(config, s, es))
    decreases |es|
  {
    if es != [] {
      StepKeepsIds(config, s, es[0]);
      StepKeepsChains(config, s, es[0]);
      RunKeepsChains(config, Apply(config, s, es[0]), es[1..]);
    }
  }

  /** In a run whose exits wait, a succession of agents is restarted at most maxRestarts times in any restart window. */
  lemma CrashChainIntensity(config: Config, now: int, es: seq<Event>, id: string)
    requires LimitRun(config, now, es, true) && id in Run(config, StartState(config, now), es).succession
    ensures WithinLimit(config, Run(config, StartState(config, now), es).succession[id])
  {
    RunKeepsChains(config, StartState(config, now), es);
    var s := Run(config, StartState(config, now), es);
    assert SuccessionInv(config, s, id);
    var exits := s.succession[id];
    forall i, j | 0 <= i <= j < |exits| && exits[j] - exits[i] <= config.restartWindowMs
      ensures j - i + 1 <= config.maxRestarts
    {
      RestartIntensity(exits, i, j, config.maxRestarts, config.restartWindowMs);
    }
  }

  // ---------------------------------------------------------------------------------------------
  // Exits that do not wait
  // ---------------------------------------------------------------------------------------------

  /**
   * An agent of the role is alive, its history has not arrived, and n agents have exited before it, all
   * of them now.
   */
  ghost predicate Looping(s: Sys, id: string, role: string, now: int, n: nat) {
    && !s.h.paused && !s.h.shuttingDown && s.clock == now
    && id in s.h.agents && s.h.agents[id] == Instance(role, Alive, [])
    && id in s.succession && |s.succession[id]| == n && forall k :: 0 <= k < n ==> s.succession[id][k] == now
  }

  lemma LoopGoesOn(config: Config, s: Sys, id: string, role: string, now: int, n: nat) returns (successor: string)
    requires Looping(s, id, role, now, n) && role in config.roles && config.maxRestarts >= 1
    ensures Looping(Apply(config, s, AgentExit(id, now)), successor, role, now, n + 1)
  {
    var gone := Gone(s, id, now);
    assert [] + [now] == [now];
    SinceAppend(Millis, [], now, now - config.restartWindowMs);
    assert ExitHistory(config, s.h, id, now) == Some([now]);
    SpawnCreates(config, gone, role, ExitSuccession(s, id, now));
    successor := AgentId(role, NextId(gone.h, role));
  }

  /** Whatever the limit, an agent that exits at once can be restarted any number of times within one instant. */
  lemma {:induction false} CrashLoop(config: Config, now: int, role: string, n: nat)
    returns (es: seq<Event>, id: string)
    requires role in config.roles && config.maxRestarts >= 1
    ensures ValidRun(config, StartState(config, now), es)
    ensures Looping(Run(config, StartState(config, now), es), id, role, now, n)
  {
    var s0 := StartState(config, now);
    if n == 0 {
      RunAppend(config, s0, [], SpawnAgent(role));
      SpawnCreates(config, s0, role, []);
      es, id := [] + [SpawnAgent(role)], AgentId(role, NextId(s0.h, role));
    } else {
      var before, exiting := CrashLoop(config, now, role, n - 1);
      var s := Run(config, s0, before);
      id := LoopGoesOn(config, s, exiting, role, now, n - 1);
      RunAppend(config, s0, before, AgentExit(exiting, now));
      es := before + [AgentExit(exiting, now)];
    }
  }

  // ---------------------------------------------------------------------------------------------
  // Exactly when the limit holds
  // ---------------------------------------------------------------------------------------------

  /** Nothing is ever restarted. */
  ghost predicate NeverRestarted(s: Sys) {
    forall id :: id in s.succession ==> s.succession[id] == []
  }

  lemma StepWithoutRestart(config: Config, s: Sys, e: Event)
    requires NeverRestarted(s) && Enabled(s, e) && (config.maxRestarts == 0 || config.roles == map[])
    ensures NeverRestarted(Apply(config, s, e))
  {
    if e.AgentExit? && e.id in s.h.agents && WillRestart(config, s.h, e.id, e.now) {
      SinceAppend(Millis, s.h.agents[e.id].restartTimestamps, e.now, e.now - config.restartWindowMs);
      assert |ExitHistory(config, s.h, e.id, e.now).value| >= 1;
      var gone := s.(h := s.h.(agents := s.h.agents - {e.id}), clock := e.now);
      SpawnCreatesNothing(config, gone, s.h.agents[e.id].role, ExitSuccession(s, e.id, e.now));
    } else if e.SpawnAgent? {
      if s.h.paused || e.role !in config.roles {
        SpawnCreatesNothing(config, s, e.role, []);
      } else {
        SpawnCreates(config, s, e.role, []);
      }
    } else if !e.AgentExit? && !e.HandOver? {
      QuietSteps(config, s, e);
    }
  }

  lemma {:induction false} RunWithoutRestart(config: Config, s: Sys, es: seq<Event>)
    requires NeverRestarted(s) && ValidRun(config, s, es) && (config.maxRestarts == 0 || config.roles == map[])
    ensures NeverRestarted(Run(config, s, es))
    decreases |es|
  {
    if es != [] {
      StepWithoutRestart(config, s, es[0]);
      RunWithoutRestart(config, Apply(config, s, es[0]), es[1..]);
    }
  }

  lemma LimitIsExceeded(config: Config, now: int, role: string)
    requires role in config.roles && config.maxRestarts >= 1
    ensures !LimitHolds(config, false)
  {
    var es, id := CrashLoop(config, now, role, config.maxRestarts + 1);
    assert LimitRun(config, now, es, false);
    var exits := Run(config, StartState(config, now), es).succession[id];
    assert exits[config.maxRestarts] - exits[0] == 0;
  }

  /**
   * The restart limit holds in every run exactly if exits wait for the hand-over, which the program
   * does not make them do, or nothing is ever restarted.
   */
  lemma RestartLimitExactly(config: Config, waits: bool)
    ensures LimitHolds(config, waits) <==> waits || config.maxRestarts == 0 || config.roles == map[]
  {
    if waits || config.maxRestarts == 0 || config.roles == map[] {
      forall now, es, id | LimitRun(config, now, es, waits) && id in Run(config, StartState(config, now), es).succession
        ensures WithinLimit(config, Run(config, StartState(config, now), es).succession[id])
      {
        if waits {
          CrashChainIntensity(config, now, es, id);
        } else {
          RunWithoutRestart(config, StartState(config, now), es);
        }
      }
    } else {
      var role :| role in config.roles;
      LimitIsExceeded(config, 0, role);
    }
  }
}
