/**
 * The agent supervisor (src/hatchery.ts). Code between two awaits runs undivided, so each such
 * stretch is one function on the supervisor's fields. The class performs them; HatcheryRuns
 * interleaves them.
 */
module Hatchery {
  import opened Options
  import opened SlidingWindow

  datatype AgentState = Alive | Draining | Dead

  datatype Instance = Instance(role: string, state: AgentState, restartTimestamps: seq<int>)

  datatype RoleConfig = RoleConfig(minInstances: nat, governance: bool)

  datatype Config = Config(roles: map<string, RoleConfig>, maxRestarts: nat, restartWindowMs: nat)

  /** The fields of the supervisor that its decisions read. */
  datatype Hatch = Hatch(
    paused: bool,
    shuttingDown: bool,
    agents: map<string, Instance>,
    nextInstanceId: map<string, nat>,
    governanceCount: nat)

  // ---------------------------------------------------------------------------------------------
  // Agent ids
  // ---------------------------------------------------------------------------------------------

  function Digit(d: nat): char
    requires d < 10
  {
    ['0', '1', '2', '3', '4', '5', '6', '7', '8', '9'][d]
  }

  function Digits(n: nat): string {
    if n < 10 then [Digit(n)] else Digits(n / 10) + [Digit(n % 10)]
  }

  /** `${role}-${seqNum}` */
  function AgentId(role: string, seqNum: nat): string {
    role + "-" + Digits(seqNum)
  }

  function DigitValue(c: char): nat {
    if '0' <= c <= '9' then c as nat - '0' as nat else 0
  }

  function Value(s: string): nat {
    if s == [] then 0 else 10 * Value(s[..|s| - 1]) + DigitValue(s[|s| - 1])
  }

  lemma {:induction false} ValueOfDigits(n: nat)
    ensures Value(Digits(n)) == n && '-' !in Digits(n)
  {
    if n >= 10 {
      ValueOfDigits(n / 10);
      assert Digits(n)[..|Digits(n)| - 1] == Digits(n / 10);
    } else {
      assert Value(Digits(n)[..0]) == 0;
    }
  }

  lemma NoDashAfterRole(role: string, n: nat)
    ensures AgentId(role, n)[|role|] == '-'
    ensures forall k :: |role| < k < |AgentId(role, n)| ==> AgentId(role, n)[k] != '-'
  {
    ValueOfDigits(n);
    forall k | |role| < k < |AgentId(role, n)|
      ensures AgentId(role, n)[k] != '-'
    {
      assert AgentId(role, n)[k] == Digits(n)[k - |role| - 1];
    }
  }

  /** The text of an id determines its role and number, even when role names contain dashes and digits. */
  lemma AgentIdInjective(role: string, m: nat, role': string, n: nat)
    requires AgentId(role, m) == AgentId(role', n)
    ensures role == role' && m == n
  {
    NoDashAfterRole(role, m);
    NoDashAfterRole(role', n);
    assert |role| == |role'|;
    var id := AgentId(role, m);
    assert id[..|role|] == role && id[..|role'|] == role';
    assert id[|role| + 1..] == Digits(m) && id[|role'| + 1..] == Digits(n);
    ValueOfDigits(m);
    ValueOfDigits(n);
  }

  // ---------------------------------------------------------------------------------------------
  // The undivided stretches
  // ---------------------------------------------------------------------------------------------

  function NextId(h: Hatch, role: string): nat {
    if role in h.nextInstanceId then h.nextInstanceId[role] else 1
  }

  predicate IsGovernance(config: Config, role: string) {
    role in config.roles && config.roles[role].governance
  }

  /**
   * spawnAgent up to its first await: nothing at all while paused. A role that is not configured
   * uses up a number before the call throws.
   */
  function Spawn(config: Config, h: Hatch, role: string): Hatch {
    if h.paused then h
    else
      var numbered := h.(nextInstanceId := h.nextInstanceId[role := NextId(h, role) + 1]);
      if role !in config.roles then numbered
      else
        numbered.(governanceCount := if IsGovernance(config, role) then h.governanceCount + 1 else h.governanceCount,
                  agents := h.agents[AgentId(role, NextId(h, role)) := Instance(role, Alive, [])])
  }

  function SpawnedId(config: Config, h: Hatch, role: string): Option<string> {
    if h.paused || role !in config.roles then None else Some(AgentId(role, NextId(h, role)))
  }

  /** drainAgent up to the wait for the agent's loop to end. */
  function BeginDrain(h: Hatch, id: string): Hatch {
    if id !in h.agents || h.agents[id].state == Dead then h
    else h.(agents := h.agents[id := h.agents[id].(state := Draining)])
  }

  /** drainAgent after the wait. The role is that of the instance the drain began with, present or not. */
  function FinishDrain(config: Config, h: Hatch, id: string, role: string): Hatch {
    h.(governanceCount := if (role == "governance" || IsGovernance(config, role)) && h.governanceCount > 0
                          then h.governanceCount - 1 else h.governanceCount,
       agents := h.agents - {id})
  }

  /** The restart history an exit leaves, if the agent is one to restart. */
  function ExitHistory(config: Config, h: Hatch, id: string, now: int): Option<seq<int>> {
    if id !in h.agents || h.agents[id].state != Alive || h.shuttingDown then None
    else Some(RecentRestarts(h.agents[id].restartTimestamps, now, config.restartWindowMs))
  }

  predicate WillRestart(config: Config, h: Hatch, id: string, now: int) {
    ExitHistory(config, h, id, now).Some? && |ExitHistory(config, h, id, now).value| <= config.maxRestarts
  }

  /** onAgentExit, with the restart it may start. */
  function Exit(config: Config, h: Hatch, id: string, now: int): Hatch {
    if id !in h.agents then h
    else
      var h' := h.(agents := h.agents - {id});
      if WillRestart(config, h, id, now) then Spawn(config, h', h.agents[id].role) else h'
  }

  /** The continuation of a restart: the successor gets the history, if it is still there. */
  function GiveHistory(h: Hatch, id: string, recent: seq<int>): Hatch {
    if id !in h.agents then h
    else h.(agents := h.agents[id := h.agents[id].(restartTimestamps := recent)])
  }

  function SetPause(h: Hatch, p: bool): Hatch {
    h.(paused := p)
  }

  // ---------------------------------------------------------------------------------------------
  // Counting
  // ---------------------------------------------------------------------------------------------

  function RoleIds(h: Hatch, role: string): set<string> {
    set id | id in h.agents && h.agents[id].role == role && h.agents[id].state != Dead
  }

  /** The id has been handed out already, or has a number below the one handed out next. */
  ghost predicate BelowCounter(h: Hatch, id: string) {
    exists role, n: nat :: n < NextId(h, role) && id == AgentId(role, n)
  }

  ghost predicate IdsBelowCounter(h: Hatch) {
    forall id :: id in h.agents ==> BelowCounter(h, id)
  }

  lemma NextIdIsNew(h: Hatch, role: string)
    ensures !BelowCounter(h, AgentId(role, NextId(h, role)))
  {
    forall r, n: nat | n < NextId(h, r)
      ensures AgentId(role, NextId(h, role)) != AgentId(r, n)
    {
      if AgentId(role, NextId(h, role)) == AgentId(r, n) {
        AgentIdInjective(role, NextId(h, role), r, n);
      }
    }
  }

  lemma SpawnRaisesCounter(config: Config, h: Hatch, role: string, id: string)
    requires BelowCounter(h, id) || (!h.paused && id == AgentId(role, NextId(h, role)))
    ensures BelowCounter(Spawn(config, h, role), id)
  {
    var h' := Spawn(config, h, role);
    if BelowCounter(h, id) {
      var r, n: nat :| n < NextId(h, r) && id == AgentId(r, n);
      assert n < NextId(h', r);
    } else {
      assert NextId(h, role) < NextId(h', role);
    }
  }

  lemma SpawnKeepsIdsBelow(config: Config, h: Hatch, role: string)
    requires IdsBelowCounter(h)
    ensures IdsBelowCounter(Spawn(config, h, role))
    ensures AgentId(role, NextId(h, role)) !in h.agents
  {
    NextIdIsNew(h, role);
    var h' := Spawn(config, h, role);
    forall id | id in h'.agents
      ensures BelowCounter(h', id)
    {
      SpawnRaisesCounter(config, h, role, id);
    }
  }

  lemma SpawnCounts(config: Config, h: Hatch, role: string, other: string)
    requires !h.paused && role in config.roles && AgentId(role, NextId(h, role)) !in h.agents
    ensures |RoleIds(Spawn(config, h, role), other)| == |RoleIds(h, other)| + (if other == role then 1 else 0)
  {
    var spawned := AgentId(role, NextId(h, role));
    if other == role {
      assert RoleIds(Spawn(config, h, role), other) == RoleIds(h, other) + {spawned};
    } else {
      assert RoleIds(Spawn(config, h, role), other) == RoleIds(h, other);
    }
  }

  lemma SpawnCountsAll(config: Config, h: Hatch, role: string)
    requires IdsBelowCounter(h) && !h.paused && role in config.roles
    ensures |RoleIds(Spawn(config, h, role), role)| == |RoleIds(h, role)| + 1
    ensures forall other :: other != role ==> |RoleIds(Spawn(config, h, role), other)| == |RoleIds(h, other)|
  {
    NextIdIsNew(h, role);
    forall other {
      SpawnCounts(config, h, role, other);
    }
  }

  lemma RemovalKeepsCounters(h: Hatch, id: string)
    requires IdsBelowCounter(h)
    ensures IdsBelowCounter(h.(agents := h.agents - {id}))
  {
    forall i | i in h.agents - {id}
      ensures BelowCounter(h.(agents := h.agents - {id}), i)
    {
      var role, n: nat :| n < NextId(h, role) && i == AgentId(role, n);
      assert n < NextId(h.(agents := h.agents - {id}), role);
    }
  }

  /** A spawn adds one new agent of its role, unless spawning is paused or the role is not configured. */
  lemma SpawnExactly(config: Config, h: Hatch, role: string)
    requires IdsBelowCounter(h)
    ensures var id := AgentId(role, NextId(h, role));
            if h.paused || role !in config.roles then Spawn(config, h, role).agents == h.agents
            else id !in h.agents && Spawn(config, h, role).agents == h.agents[id := Instance(role, Alive, [])]
  {
    NextIdIsNew(h, role);
  }

  /** The exit is one that the supervisor answers with a new agent. */
  predicate IsReplaced(config: Config, h: Hatch, id: string, now: int) {
    && id in h.agents && h.agents[id].state == Alive && !h.shuttingDown && !h.paused
    && h.agents[id].role in config.roles
    && |InWindow(h.agents[id].restartTimestamps + [now], now, config.restartWindowMs)| <= config.maxRestarts
  }

  /**
   * What becomes of an exit. An agent that is draining or dead, and any agent during a shutdown, only
   * goes. Another one is replaced by one new agent of its role if at most maxRestarts of its recorded
   * exits and this one lie in the window, unless spawning is paused or the role is not configured.
   */
  lemma ExitExactly(config: Config, h: Hatch, id: string, now: int)
    requires IdsBelowCounter(h)
    ensures var after := Exit(config, h, id, now).agents;
            if IsReplaced(config, h, id, now)
            then
              var role := h.agents[id].role;
              var successor := AgentId(role, NextId(h, role));
              successor !in h.agents && after == (h.agents - {id})[successor := Instance(role, Alive, [])]
            else after == h.agents - {id}
  {
    if id in h.agents {
      var role, gone := h.agents[id].role, h.(agents := h.agents - {id});
      SinceCounts(h.agents[id].restartTimestamps + [now], now, config.restartWindowMs);
      RemovalKeepsCounters(h, id);
      SpawnExactly(config, gone, role);
      NextIdIsNew(h, role);
    } else {
      assert h.agents - {id} == h.agents;
    }
  }

  class AgentHatchery {
    const config: Config
    var paused: bool
    var shuttingDown: bool
    var agents: map<string, Instance>
    var nextInstanceId: map<string, nat>
    var governanceCount: nat

    function State(): Hatch
      reads this
    {
      Hatch(paused, shuttingDown, agents, nextInstanceId, governanceCount)
    }

    ghost predicate Valid()
      reads this
    {
      IdsBelowCounter(State())
    }

    constructor (config: Config)
      ensures this.config == config && Valid()
      ensures State() == Hatch(false, false, map[], map role | role in config.roles :: 1, 0)
    {
      this.config := config;
      paused, shuttingDown := false, false;
      agents := map[];
      nextInstanceId := map role | role in config.roles :: 1;
      governanceCount := 0;
    }

    method SetPaused(p: bool)
      modifies this
      ensures State() == SetPause(old(State()), p)
    {
      paused := p;
    }

    method SpawnAgent(role: string) returns (id: Option<string>)
      requires Valid()
      modifies this
      ensures State() == Spawn(config, old(State()), role) && Valid()
      ensures id == SpawnedId(config, old(State()), role)
      ensures id.Some? <==> !paused && role in config.roles
      ensures id.None? ==> agents == old(agents) && governanceCount == old(governanceCount)
      ensures id.Some? ==>
                && id.value !in old(agents) && agents == old(agents)[id.value := Instance(role, Alive, [])]
                && governanceCount == old(governanceCount) + (if IsGovernance(config, role) then 1 else 0)
      ensures nextInstanceId
              == if paused then old(nextInstanceId)
                 else
                   old(nextInstanceId)[role :=
                     (if role in old(nextInstanceId) then old(nextInstanceId)[role] else 1) + 1]
      ensures paused == old(paused) && shuttingDown == old(shuttingDown)
    {
      SpawnKeepsIdsBelow(config, State(), role);
      if paused {
        return None;
      }
      var seqNum := if role in nextInstanceId then nextInstanceId[role] else 1;
      nextInstanceId := nextInstanceId[role := seqNum + 1];
      if role !in config.roles {
        return None;
      }
      if config.roles[role].governance {
        governanceCount := governanceCount + 1;
      }
      agents := agents[AgentId(role, seqNum) := Instance(role, Alive, [])];
      id := Some(AgentId(role, seqNum));
    }

    method DrainBegins(id: string) returns (role: Option<string>)
      modifies this
      ensures State() == BeginDrain(old(State()), id)
      ensures role == if id in old(agents) && old(agents)[id].state != Dead then Some(old(agents)[id].role) else None
      ensures agents == if role.Some? then old(agents)[id := old(agents)[id].(state := Draining)] else old(agents)
      ensures governanceCount == old(governanceCount)
    {
      if id !in agents || agents[id].state == Dead {
        return None;
      }
      role := Some(agents[id].role);
      agents := agents[id := agents[id].(state := Draining)];
    }

    method DrainEnds(id: string, role: string)
      modifies this
      ensures State() == FinishDrain(config, old(State()), id, role)
      ensures agents == old(agents) - {id}
      ensures governanceCount
              == if (role == "governance" || (role in config.roles && config.roles[role].governance))
                    && old(governanceCount) > 0
                 then old(governanceCount) - 1 else old(governanceCount)
    {
      if role == "governance" || (role in config.roles && config.roles[role].governance) {
        governanceCount := if governanceCount > 0 then governanceCount - 1 else 0;
      }
      agents := agents - {id};
    }

    method OnAgentExit(id: string, now: int) returns (successor: Option<string>)
      requires Valid()
      modifies this
      ensures State() == Exit(config, old(State()), id, now)
      ensures successor.Some? <==>
                && id in old(agents) && old(agents)[id].state == Alive && !old(shuttingDown) && !old(paused)
                && old(agents)[id].role in config.roles
                && |InWindow(old(agents)[id].restartTimestamps + [now], now, config.restartWindowMs)|
                   <= config.maxRestarts
      ensures successor.None? ==> agents == old(agents) - {id}
      ensures successor.Some? ==>
                && successor.value !in old(agents)
                && agents == (old(agents) - {id})[successor.value := Instance(old(agents)[id].role, Alive, [])]
    {
      ExitExactly(config, State(), id, now);
      if id !in agents {
        return None;
      }
      var inst := agents[id];
      SinceCounts(inst.restartTimestamps + [now], now, config.restartWindowMs);
      RemovalKeepsCounters(State(), id);
      agents := agents - {id};
      if inst.state != Alive || shuttingDown {
        return None;
      }
      var recent := RecentRestarts(inst.restartTimestamps, now, config.restartWindowMs);
      if |recent| > config.maxRestarts {
        return None;
      }
      successor := SpawnAgent(inst.role);
    }

    /** pauseAll with nothing else running: no agent is left alive, and draining ones are left to their drains. */
    method PauseAll(ids: seq<string>)
      requires forall id :: id in agents ==> id in ids
      modifies this
      ensures paused
      ensures forall id :: id in agents ==>
              id in old(agents) && agents[id] == old(agents)[id] && agents[id].state != Alive
      ensures forall id :: id in old(agents) && old(agents)[id].state != Alive ==> id in agents
      ensures nextInstanceId == old(nextInstanceId) && shuttingDown == old(shuttingDown)
    {
      SetPaused(true);
      for i := 0 to |ids|
        invariant paused && nextInstanceId == old(nextInstanceId) && shuttingDown == old(shuttingDown)
        invariant forall id :: id in agents ==> id in old(agents) && agents[id] == old(agents)[id] && id in ids
        invariant forall id :: id in ids[..i] && id in agents ==> agents[id].state != Alive
        invariant forall id :: id in old(agents) && old(agents)[id].state != Alive ==> id in agents
      {
        assert ids[..i + 1] == ids[..i] + [ids[i]];
        if ids[i] in agents && agents[ids[i]].state == Alive {
          var role := DrainBegins(ids[i]);
          DrainEnds(ids[i], role.value);
        }
      }
      assert ids[..|ids|] == ids;
    }

    /** The loop of resume for one role. */
    method TopUp(role: string, need: int)
      requires Valid() && !paused && !shuttingDown && role in config.roles
      modifies this
      ensures Valid() && !paused && !shuttingDown
      ensures |RoleIds(State(), role)| == |RoleIds(old(State()), role)| + Max(need, 0)
      ensures forall other :: other != role ==> |RoleIds(State(), other)| == |RoleIds(old(State()), other)|
    {
      var k := 0;
      while k < need
        invariant Valid() && !paused && !shuttingDown && 0 <= k <= Max(need, 0)
        invariant |RoleIds(State(), role)| == |RoleIds(old(State()), role)| + k
        invariant forall other :: other != role ==> |RoleIds(State(), other)| == |RoleIds(old(State()), other)|
      {
        SpawnCountsAll(config, State(), role);
        var id := SpawnAgent(role);
        k := k + 1;
      }
    }

    /** resume with nothing else running: every configured role is topped up to its minimum and no further. */
    method Resume(roles: seq<string>)
      requires Valid() && forall i, j :: 0 <= i < j < |roles| ==> roles[i] != roles[j]
      requires forall role :: role in roles <==> role in config.roles
      modifies this
      ensures Valid()
      ensures shuttingDown ==> State() == old(State())
      ensures !shuttingDown ==> !paused
      ensures !shuttingDown ==> forall role :: role in config.roles ==>
                |RoleIds(State(), role)| == Max(|RoleIds(old(State()), role)|, config.roles[role].minInstances)
      ensures !shuttingDown ==> forall role :: role !in config.roles ==>
                |RoleIds(State(), role)| == |RoleIds(old(State()), role)|
    {
      if shuttingDown {
        return;
      }
      SetPaused(false);
      for i := 0 to |roles|
        invariant Valid() && !paused && !shuttingDown
        invariant forall role :: role in roles[..i] ==>
                    |RoleIds(State(), role)| == Max(|RoleIds(old(State()), role)|, config.roles[role].minInstances)
        invariant forall role :: role !in roles[..i] ==> |RoleIds(State(), role)| == |RoleIds(old(State()), role)|
      {
        assert roles[..i + 1] == roles[..i] + [roles[i]];
        assert roles[i] !in roles[..i] && roles[i] in roles;
        TopUp(roles[i], config.roles[roles[i]].minInstances - |RoleIds(State(), roles[i])|);
      }
      assert roles[..|roles|] == roles;
    }
  }
}
