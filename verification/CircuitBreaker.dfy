/**
 * The circuit breaker (src/resilience.ts). The clock and the outcome of the wrapped function are
 * inputs; calls do not overlap.
 */
module CircuitBreaker {

  datatype Status = Closed | Open | HalfOpen

  datatype Outcome = Refused | Returned | Threw

  /** One call: when it is made, when the wrapped function is done, and whether it succeeds. */
  datatype Call = Call(start: int, end: int, ok: bool)

  datatype Config = Config(threshold: int, cooldownMs: int)

  datatype Breaker = Breaker(failures: nat, openUntil: int)

  const NEW := Breaker(0, 0)

  /** The monitoring getter. */
  function StatusOf(c: Config, b: Breaker, now: int): Status {
    if b.failures < c.threshold then Closed
    else if now < b.openUntil then Open
    else HalfOpen
  }

  function AfterSuccess(b: Breaker): Breaker {
    b.(failures := 0)
  }

  function AfterFailure(c: Config, b: Breaker, call: Call): Breaker {
    var failures := (if StatusOf(c, b, call.start) == HalfOpen then 0 else b.failures) + 1;
    Breaker(failures, if failures >= c.threshold then call.end + c.cooldownMs else b.openUntil)
  }

  function After(c: Config, b: Breaker, call: Call): Breaker {
    if StatusOf(c, b, call.start) == Open then b
    else if call.ok then AfterSuccess(b)
    else AfterFailure(c, b, call)
  }

  class Guard {
    const config: Config
    var failures: nat
    var openUntil: int

    constructor (threshold: int, cooldownMs: int)
      ensures config == Config(threshold, cooldownMs) && State() == NEW
    {
      config := Config(threshold, cooldownMs);
      failures, openUntil := 0, 0;
    }

    function State(): Breaker
      reads this
    {
      Breaker(failures, openUntil)
    }

    /** The wrapped function runs unless the breaker is open; only then is its outcome the caller's. */
    method Invoke(call: Call) returns (r: Outcome)
      modifies this
      ensures State() == After(config, old(State()), call)
      ensures r == Refused <==> StatusOf(config, old(State()), call.start) == Open
      ensures r == Returned ==> call.ok && failures == 0
      ensures r == Threw ==> !call.ok && failures > 0
    {
      var now := call.start;
      if failures >= config.threshold && now < openUntil {
        return Refused;
      }
      if now >= openUntil && failures >= config.threshold {
        failures := 0;
      }
      if call.ok {
        failures := 0;
        r := Returned;
      } else {
        failures := failures + 1;
        if failures >= config.threshold {
          openUntil := call.end + config.cooldownMs;
        }
        r := Threw;
      }
    }

    method Reset()
      modifies this
      ensures State() == NEW
    {
      failures, openUntil := 0, 0;
    }
  }

  // ---------------------------------------------------------------------------------------------
  // Runs
  // ---------------------------------------------------------------------------------------------

  function Run(c: Config, b: Breaker, calls: seq<Call>): Breaker
    decreases |calls|
  {
    if calls == [] then b else Run(c, After(c, b, calls[0]), calls[1..])
  }

  /** The calls whose function ran, in order. */
  function Invocations(c: Config, b: Breaker, calls: seq<Call>): seq<Call>
    decreases |calls|
  {
    if calls == [] then []
    else
      (if StatusOf(c, b, calls[0].start) == Open then [] else [calls[0]])
      + Invocations(c, After(c, b, calls[0]), calls[1..])
  }

  predicate AllFail(calls: seq<Call>) {
    forall k :: 0 <= k < |calls| ==> !calls[k].ok
  }

  /** At least the cooldown passes between the end of one call and the start of the next. */
  predicate Pause(c: Config, first: Call, second: Call) {
    second.start - first.end >= c.cooldownMs
  }

  predicate NoPause(c: Config, calls: seq<Call>) {
    forall k :: 0 <= k < |calls| - 1 ==> !Pause(c, calls[k], calls[k + 1])
  }

  /** Some call among calls[i..j] is followed by a pause. */
  ghost predicate PauseWithin(c: Config, calls: seq<Call>, i: nat, j: nat)
    requires j < |calls|
  {
    exists k :: i <= k < j && Pause(c, calls[k], calls[k + 1])
  }

  function Limit(c: Config): nat {
    if c.threshold < 1 then 1 else c.threshold
  }

  /** n failures in a row have been counted, the last one that of `last`. */
  predicate InBurst(c: Config, b: Breaker, last: Call, n: nat) {
    && 1 <= n <= Limit(c) && n <= b.failures
    && (b.failures >= c.threshold ==> b.openUntil == last.end + c.cooldownMs)
  }

  lemma BurstGoesOn(c: Config, b: Breaker, last: Call, n: nat, call: Call)
    requires InBurst(c, b, last, n) && StatusOf(c, b, call.start) != Open
    requires !call.ok && !Pause(c, last, call)
    ensures InBurst(c, After(c, b, call), call, n + 1)
  {
  }

  /** A burst of failures without a pause stays within the limit. */
  lemma {:induction false} BurstIsShort(c: Config, b: Breaker, calls: seq<Call>, last: Call, n: nat, m: nat)
    requires InBurst(c, b, last, n)
    requires m <= |Invocations(c, b, calls)|
    requires AllFail(Invocations(c, b, calls)[..m]) && NoPause(c, [last] + Invocations(c, b, calls)[..m])
    ensures n + m <= Limit(c)
    decreases |calls|
  {
    if m > 0 {
      var s := Invocations(c, b, calls);
      var next := After(c, b, calls[0]);
      if StatusOf(c, b, calls[0].start) == Open {
        assert s == Invocations(c, b, calls[1..]);
        BurstIsShort(c, b, calls[1..], last, n, m);
      } else {
        var later := Invocations(c, next, calls[1..]);
        var burst := s[..m];
        assert burst == [calls[0]] + later[..m - 1];
        assert ([last] + burst)[0] == last && ([last] + burst)[1] == calls[0] == burst[0];
        BurstGoesOn(c, b, last, n, calls[0]);
        DropFirst(c, last, burst);
        assert burst[1..] == later[..m - 1];
        BurstIsShort(c, next, calls[1..], calls[0], n + 1, m - 1);
      }
    }
  }

  lemma DropFirst(c: Config, last: Call, burst: seq<Call>)
    requires AllFail(burst) && NoPause(c, [last] + burst)
    requires burst != []
    ensures AllFail(burst[1..]) && NoPause(c, burst)
  {
    var all := [last] + burst;
    forall k | 0 <= k < |burst| - 1
      ensures !Pause(c, burst[k], burst[k + 1])
    {
      assert all[k + 1] == burst[k] && all[k + 1 + 1] == burst[k + 1];
    }
  }

  lemma FailuresFromHere(c: Config, b: Breaker, calls: seq<Call>)
    requires Limit(c) < |Invocations(c, b, calls)|
    requires AllFail(Invocations(c, b, calls)[..Limit(c) + 1])
    requires StatusOf(c, b, calls[0].start) != Open
    ensures PauseWithin(c, Invocations(c, b, calls), 0, Limit(c))
  {
    var s := Invocations(c, b, calls);
    var later := Invocations(c, After(c, b, calls[0]), calls[1..]);
    var l := Limit(c);
    var burst := s[..l + 1];
    assert burst[0] == calls[0];
    assert burst == [calls[0]] + later[..l];
    assert burst[1..] == later[..l];
    if NoPause(c, burst) {
      BurstIsShort(c, After(c, b, calls[0]), calls[1..], calls[0], 1, l);
    }
    var k :| 0 <= k < |burst| - 1 && Pause(c, burst[k], burst[k + 1]);
    assert Pause(c, s[k], s[k + 1]);
  }

  /**
   * Wherever a run starts, one more failing invocation in a row than the threshold allows needs a
   * pause: somewhere among them at least the cooldown passed between the end of one and the start of
   * the next.
   */
  lemma {:induction false} FailuresArePaced(c: Config, b: Breaker, calls: seq<Call>, i: nat)
    requires i + Limit(c) < |Invocations(c, b, calls)|
    requires AllFail(Invocations(c, b, calls)[i..i + Limit(c) + 1])
    ensures PauseWithin(c, Invocations(c, b, calls), i, i + Limit(c))
    decreases |calls|
  {
    var s := Invocations(c, b, calls);
    var next := After(c, b, calls[0]);
    var later := Invocations(c, next, calls[1..]);
    var l := Limit(c);
    if StatusOf(c, b, calls[0].start) == Open {
      assert s == later;
      FailuresArePaced(c, next, calls[1..], i);
    } else if i > 0 {
      assert s == [calls[0]] + later;
      ShiftSlice(calls[0], later, i - 1, i + l);
      FailuresArePaced(c, next, calls[1..], i - 1);
      ShiftPause(c, calls[0], later, i - 1, i - 1 + l);
    } else {
      FailuresFromHere(c, b, calls);
    }
  }

  lemma ShiftSlice(first: Call, later: seq<Call>, i: nat, j: nat)
    requires i <= j <= |later|
    ensures ([first] + later)[i + 1..j + 1] == later[i..j]
  {
  }

  lemma ShiftPause(c: Config, first: Call, later: seq<Call>, i: nat, j: nat)
    requires j < |later| && PauseWithin(c, later, i, j)
    ensures PauseWithin(c, [first] + later, i + 1, j + 1)
  {
    var k :| i <= k < j && Pause(c, later[k], later[k + 1]);
    var s := [first] + later;
    assert Pause(c, s[k + 1], s[k + 1 + 1]);
  }

  /**
   * The failure count never exceeds the failing invocations since the last success; so opening takes
   * `threshold` of them in a row.
   */
  lemma {:induction false} CountIsAStreak(c: Config, b: Breaker, calls: seq<Call>, before: seq<Call>)
    requires b.failures <= |before| && AllFail(before[|before| - b.failures..])
    ensures var s := before + Invocations(c, b, calls);
            var f := Run(c, b, calls).failures;
            f <= |s| && AllFail(s[|s| - f..])
    decreases |calls|
  {
    if calls == [] {
      assert before + [] == before;
    } else {
      var next := After(c, b, calls[0]);
      if StatusOf(c, b, calls[0].start) == Open {
        CountIsAStreak(c, b, calls[1..], before);
        assert Invocations(c, b, calls) == Invocations(c, b, calls[1..]);
      } else {
        var so := before + [calls[0]];
        forall k | |so| - next.failures <= k < |so|
          ensures !so[k].ok
        {
          if k < |before| {
            assert so[k] == before[|before| - b.failures..][k - (|before| - b.failures)];
          }
        }
        CountIsAStreak(c, next, calls[1..], so);
        assert so + Invocations(c, next, calls[1..]) == before + Invocations(c, b, calls);
      }
    }
  }

  lemma OpenTakesAStreak(c: Config, calls: seq<Call>, now: int)
    requires StatusOf(c, Run(c, NEW, calls), now) != Closed && c.threshold >= 0
    ensures var s := Invocations(c, NEW, calls);
            |s| >= c.threshold && AllFail(s[|s| - c.threshold..])
  {
    CountIsAStreak(c, NEW, calls, []);
    var s := Invocations(c, NEW, calls);
    assert [] + s == s;
    var f := Run(c, NEW, calls).failures;
    ShorterStreak(s, f, c.threshold);
  }

  lemma ShorterStreak(s: seq<Call>, f: nat, t: nat)
    requires t <= f <= |s| && AllFail(s[|s| - f..])
    ensures AllFail(s[|s| - t..])
  {
    var shorter := s[|s| - t..];
    forall k | 0 <= k < |shorter|
      ensures !shorter[k].ok
    {
      assert shorter[k] == s[|s| - f..][k + f - t];
    }
  }

  // ---------------------------------------------------------------------------------------------
  // Half open
  // ---------------------------------------------------------------------------------------------

  /** A failed probe reopens the breaker exactly when the threshold is at most one. */
  lemma ProbeReopensExactly(c: Config, b: Breaker, probe: Call, now: int)
    requires StatusOf(c, b, probe.start) == HalfOpen && !probe.ok
    requires probe.end <= now < probe.end + c.cooldownMs
    ensures StatusOf(c, After(c, b, probe), now) == Open <==> c.threshold <= 1
  {
  }

  /**
   * With a larger threshold the half-open breaker admits as many failing calls as a new one: all of
   * the first `threshold` run, and the breaker is closed again until the last of them.
   */
  lemma {:induction false} HalfOpenAdmitsThreshold(c: Config, b: Breaker, calls: seq<Call>)
    requires calls != [] && StatusOf(c, b, calls[0].start) == HalfOpen
    requires AllFail(calls) && |calls| <= c.threshold
    ensures Invocations(c, b, calls) == calls
    ensures Run(c, b, calls).failures == |calls|
  {
    var next := After(c, b, calls[0]);
    assert next.failures == 1;
    ClosedAdmits(c, next, calls[1..]);
    assert calls == [calls[0]] + calls[1..];
  }

  lemma {:induction false} RunConcat(c: Config, b: Breaker, first: seq<Call>, second: seq<Call>)
    ensures Run(c, b, first + second) == Run(c, Run(c, b, first), second)
    ensures Invocations(c, b, first + second) == Invocations(c, b, first) + Invocations(c, Run(c, b, first), second)
    decreases |first|
  {
    if first == [] {
      assert first + second == second;
    } else {
      assert (first + second)[1..] == first[1..] + second;
      RunConcat(c, After(c, b, first[0]), first[1..], second);
    }
  }

  lemma {:induction false} OpensAtLastFailure(c: Config, b: Breaker, calls: seq<Call>)
    requires calls != [] && AllFail(calls) && b.failures + |calls| == c.threshold
    ensures Run(c, b, calls).openUntil == calls[|calls| - 1].end + c.cooldownMs
    decreases |calls|
  {
    if |calls| > 1 {
      OpensAtLastFailure(c, After(c, b, calls[0]), calls[1..]);
    } else {
      assert Run(c, b, calls) == Run(c, After(c, b, calls[0]), calls[1..]);
    }
  }

  /** From a new breaker: `threshold` failures, the cooldown, and `threshold` failures more, all of which run. */
  lemma HalfOpenFromNew(c: Config, first: seq<Call>, second: seq<Call>)
    requires c.threshold >= 1 && |first| == |second| == c.threshold && AllFail(first) && AllFail(second)
    requires second[0].start >= first[|first| - 1].end + c.cooldownMs
    ensures Invocations(c, NEW, first + second) == first + second
    ensures StatusOf(c, Run(c, NEW, first), second[0].start) == HalfOpen
  {
    ClosedAdmits(c, NEW, first);
    OpensAtLastFailure(c, NEW, first);
    HalfOpenAdmitsThreshold(c, Run(c, NEW, first), second);
    RunConcat(c, NEW, first, second);
  }

  lemma {:induction false} ClosedAdmits(c: Config, b: Breaker, calls: seq<Call>)
    requires AllFail(calls) && b.failures + |calls| <= c.threshold
    ensures Invocations(c, b, calls) == calls
    ensures Run(c, b, calls).failures == b.failures + |calls|
    decreases |calls|
  {
    if calls != [] {
      ClosedAdmits(c, After(c, b, calls[0]), calls[1..]);
      assert calls == [calls[0]] + calls[1..];
    }
  }
}
