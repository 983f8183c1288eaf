/**
 * Sliding-window arithmetic of the hatchery: pruned histories, restart intensity, arrival rates
 * and worker counts (src/hatchery.ts, src/hatcheryMetrics.ts). Times are in milliseconds.
 */
module SlidingWindow {

  /** The items whose time is not before the cutoff, in order. */
  function Since<T>(time: T -> int, s: seq<T>, cutoff: int): seq<T> {
    if s == [] then []
    else
      var front := Since(time, s[..|s| - 1], cutoff);
      if time(s[|s| - 1]) >= cutoff then front + [s[|s| - 1]] else front
  }

  lemma SinceAppend<T>(time: T -> int, s: seq<T>, x: T, cutoff: int)
    ensures Since(time, s + [x], cutoff)
            == if time(x) >= cutoff then Since(time, s, cutoff) + [x] else Since(time, s, cutoff)
  {
    assert (s + [x])[..|s|] == s;
  }

  /** Filtering an already pruned history loses nothing as long as the cutoff has not moved back. */
  lemma {:induction false} SinceSince<T>(time: T -> int, s: seq<T>, cutoff: int, later: int)
    requires cutoff <= later
    ensures Since(time, Since(time, s, cutoff), later) == Since(time, s, later)
  {
    if s != [] {
      var front := s[..|s| - 1];
      SinceSince(time, front, cutoff, later);
      SinceAppend(time, Since(time, front, cutoff), s[|s| - 1], later);
    }
  }

  lemma {:induction false} SinceTimes<T>(time: T -> int, s: seq<T>, cutoff: int)
    ensures |Since(time, s, cutoff)| <= |s|
    ensures forall x :: x in Since(time, s, cutoff) <==> x in s && time(x) >= cutoff
  {
    if s != [] {
      SinceTimes(time, s[..|s| - 1], cutoff);
      assert s == s[..|s| - 1] + [s[|s| - 1]];
    }
  }

  // ---------------------------------------------------------------------------------------------
  // Restart intensity
  // ---------------------------------------------------------------------------------------------

  function Millis(t: int): int {
    t
  }

  /** The restart history an exiting agent leaves: its own history and this exit, within the window. */
  function RecentRestarts(history: seq<int>, now: int, windowMs: int): seq<int> {
    Since(Millis, history + [now], now - windowMs)
  }

  /** The positions of the exits that lie in the window. */
  function InWindow(exits: seq<int>, now: int, windowMs: int): set<nat> {
    set k: nat | k < |exits| && exits[k] >= now - windowMs
  }

  lemma {:induction false} SinceCounts(exits: seq<int>, now: int, windowMs: int)
    ensures |Since(Millis, exits, now - windowMs)| == |InWindow(exits, now, windowMs)|
  {
    if exits == [] {
      assert InWindow(exits, now, windowMs) == {};
    } else {
      var n := |exits| - 1;
      var front := exits[..n];
      SinceCounts(front, now, windowMs);
      assert exits == front + [exits[n]];
      SinceAppend(Millis, front, exits[n], now - windowMs);
      assert InWindow(exits, now, windowMs)
             == InWindow(front, now, windowMs) + if exits[n] >= now - windowMs then {n} else {};
    }
  }

  /** What a chain of crashes hands from agent to agent, when each successor gets its history before it exits. */
  function ChainHistory(exits: seq<int>, windowMs: int): seq<int> {
    if exits == [] then []
    else RecentRestarts(ChainHistory(exits[..|exits| - 1], windowMs), exits[|exits| - 1], windowMs)
  }

  ghost predicate NonDecreasing(ts: seq<int>) {
    forall i, j :: 0 <= i <= j < |ts| ==> ts[i] <= ts[j]
  }

  /** On a clock that does not run back, the handed-down history is the full one cut to the window. */
  lemma {:induction false} ChainHistoryIsWindow(exits: seq<int>, windowMs: int)
    requires exits != [] && NonDecreasing(exits)
    ensures ChainHistory(exits, windowMs) == Since(Millis, exits, exits[|exits| - 1] - windowMs)
  {
    var front := exits[..|exits| - 1];
    var now := exits[|exits| - 1];
    assert exits == front + [now];
    if front != [] {
      ChainHistoryIsWindow(front, windowMs);
      SinceSince(Millis, front, front[|front| - 1] - windowMs, now - windowMs);
    }
    HistoryGrows(ChainHistory(front, windowMs), front, now, windowMs);
  }

  lemma HistoryGrows(history: seq<int>, front: seq<int>, now: int, windowMs: int)
    requires Since(Millis, history, now - windowMs) == Since(Millis, front, now - windowMs)
    ensures RecentRestarts(history, now, windowMs) == Since(Millis, front + [now], now - windowMs)
  {
    SinceAppend(Millis, history, now, now - windowMs);
    SinceAppend(Millis, front, now, now - windowMs);
  }

  /** The supervisor restarts after exit number j. */
  predicate Restarts(exits: seq<int>, j: nat, maxRestarts: nat, windowMs: int)
    requires j < |exits|
  {
    |ChainHistory(exits[..j + 1], windowMs)| <= maxRestarts
  }

  lemma {:induction false} SinceSuffix(ts: seq<int>, cutoff: int, k: nat)
    requires NonDecreasing(ts) && k <= |ts|
    requires forall i :: 0 <= i < k ==> ts[i] < cutoff
    requires forall i :: k <= i < |ts| ==> ts[i] >= cutoff
    ensures Since(Millis, ts, cutoff) == ts[k..]
  {
    if ts != [] {
      var front := ts[..|ts| - 1];
      if k == |ts| {
        SinceSuffix(front, cutoff, k - 1);
      } else {
        SinceSuffix(front, cutoff, k);
        assert ts[k..] == front[k..] + [ts[|ts| - 1]];
      }
    }
  }

  lemma FirstInWindow(ts: seq<int>, cutoff: int) returns (k: nat)
    requires NonDecreasing(ts)
    ensures k <= |ts|
    ensures forall i :: 0 <= i < k ==> ts[i] < cutoff
    ensures forall i :: k <= i < |ts| ==> ts[i] >= cutoff
  {
    k := |ts|;
    while k > 0 && ts[k - 1] >= cutoff
      invariant k <= |ts|
      invariant forall i :: k <= i < |ts| ==> ts[i] >= cutoff
    {
      k := k - 1;
    }
  }

  /** The history after exit number j holds the exits from position k on. */
  lemma HistoryFrom(exits: seq<int>, j: nat, windowMs: nat) returns (k: nat)
    requires j < |exits| && NonDecreasing(exits)
    ensures k <= j && |ChainHistory(exits[..j + 1], windowMs)| == j + 1 - k
    ensures forall i :: 0 <= i <= j ==> (i < k <==> exits[i] < exits[j] - windowMs)
  {
    var ts := exits[..j + 1];
    assert ts[j] == exits[j] && NonDecreasing(ts);
    ChainHistoryIsWindow(ts, windowMs);
    k := FirstInWindow(ts, exits[j] - windowMs);
    SinceSuffix(ts, exits[j] - windowMs, k);
    assert forall i :: 0 <= i <= j ==> ts[i] == exits[i];
  }

  /** A restart is refused exactly when this exit and the maxRestarts exits before it lie within one window. */
  lemma RestartRefusedExactly(exits: seq<int>, j: nat, maxRestarts: nat, windowMs: nat)
    requires j < |exits| && NonDecreasing(exits)
    ensures !Restarts(exits, j, maxRestarts, windowMs)
            <==> j >= maxRestarts && exits[j] - exits[j - maxRestarts] <= windowMs
  {
    var k := HistoryFrom(exits, j, windowMs);
    if j >= maxRestarts {
      assert j - maxRestarts < k <==> exits[j - maxRestarts] < exits[j] - windowMs;
    }
  }

  /** Restarts i to j, all granted, within one window: there are at most maxRestarts of them. */
  lemma RestartIntensity(exits: seq<int>, i: nat, j: nat, maxRestarts: nat, windowMs: nat)
    requires i <= j < |exits| && NonDecreasing(exits)
    requires exits[j] - exits[i] <= windowMs
    requires forall k :: i <= k <= j ==> Restarts(exits, k, maxRestarts, windowMs)
    ensures j - i + 1 <= maxRestarts
  {
    RestartRefusedExactly(exits, j, maxRestarts, windowMs);
  }

  // ---------------------------------------------------------------------------------------------
  // Arrival rate
  // ---------------------------------------------------------------------------------------------

  datatype Sample = Sample(count: int, ts: int)

  function SampleTime(s: Sample): int {
    s.ts
  }

  function TotalCount(s: seq<Sample>): int {
    if s == [] then 0 else TotalCount(s[..|s| - 1]) + s[|s| - 1].count
  }

  /** Messages per second over the span of the samples; zero when there is no span. */
  function Rate(s: seq<Sample>): real {
    if |s| < 2 || s[|s| - 1].ts <= s[0].ts then 0.0
    else TotalCount(s) as real / ((s[|s| - 1].ts - s[0].ts) as real / 1000.0)
  }

  lemma {:induction false} CountsAddUp(a: seq<Sample>, b: seq<Sample>)
    ensures TotalCount(a + b) == TotalCount(a) + TotalCount(b)
    ensures |b| == 1 ==> TotalCount(b) == b[0].count
  {
    if b == [] {
      assert a + b == a;
    } else {
      var n := |b| - 1;
      assert (a + b)[..|a| + n] == a + b[..n];
      CountsAddUp(a, b[..n]);
    }
  }

  lemma RateTimesSpan(s: seq<Sample>)
    requires |s| >= 2 && s[|s| - 1].ts > s[0].ts
    ensures Rate(s) * (s[|s| - 1].ts - s[0].ts) as real == 1000.0 * TotalCount(s) as real
  {
    var span := (s[|s| - 1].ts - s[0].ts) as real;
    QuotientTimes(TotalCount(s) as real, span / 1000.0);
    assert Rate(s) * span == 1000.0 * (Rate(s) * (span / 1000.0));
  }

  lemma QuotientTimes(a: real, b: real)
    requires b != 0.0
    ensures a / b * b == a
  {
  }

  class ArrivalRateEstimator {
    const windowMs: int
    var samples: seq<Sample>
    ghost var history: seq<Sample>   // every sample ever added
    ghost var prunedAt: int          // when the samples were last pruned

    ghost predicate Valid()
      reads this
    {
      samples == Since(SampleTime, history, prunedAt - windowMs)
    }

    constructor (windowMs: int, now: int)
      ensures Valid() && history == [] && prunedAt == now && this.windowMs == windowMs
    {
      this.windowMs := windowMs;
      samples, history, prunedAt := [], [], now;
    }

    method Prune(now: int)
      requires Valid() && prunedAt <= now
      modifies this
      ensures Valid() && prunedAt == now && history == old(history)
    {
      var kept := [];
      for i := 0 to |samples|
        invariant samples == old(samples) && history == old(history) && prunedAt == old(prunedAt)
        invariant kept == Since(SampleTime, samples[..i], now - windowMs)
      {
        assert samples[..i + 1] == samples[..i] + [samples[i]];
        SinceAppend(SampleTime, samples[..i], samples[i], now - windowMs);
        if samples[i].ts >= now - windowMs {
          kept := kept + [samples[i]];
        }
      }
      assert samples[..|samples|] == samples;
      SinceSince(SampleTime, history, prunedAt - windowMs, now - windowMs);
      samples := kept;
      prunedAt := now;
    }

    /** The new sample may lie in the window of the last prune or not: the prune at its own time settles it. */
    method AddSample(count: int, ts: int)
      requires Valid() && prunedAt <= ts && windowMs >= 0
      modifies this
      ensures Valid() && prunedAt == ts && history == old(history) + [Sample(count, ts)]
    {
      SinceAppend(SampleTime, history, Sample(count, ts), prunedAt - windowMs);
      samples := samples + [Sample(count, ts)];
      history := history + [Sample(count, ts)];
      Prune(ts);
    }

    /** The estimate is the rate over the full history cut to the window that ends now. */
    method EstimateLambda(now: int) returns (arrivalRate: real)
      requires Valid() && prunedAt <= now
      modifies this
      ensures Valid() && history == old(history)
      ensures var w := Since(SampleTime, history, now - windowMs);
              if |w| < 2 || w[|w| - 1].ts <= w[0].ts then arrivalRate == 0.0
              else arrivalRate * (w[|w| - 1].ts - w[0].ts) as real == 1000.0 * TotalCount(w) as real
    {
      if |samples| < 2 {
        SinceSince(SampleTime, history, prunedAt - windowMs, now - windowMs);
        SinceTimes(SampleTime, samples, now - windowMs);
        return 0.0;
      }
      Prune(now);
      if |samples| < 2 {
        return 0.0;
      }
      var first := samples[0];
      var last := samples[|samples| - 1];
      var dtSec := (last.ts - first.ts) as real / 1000.0;
      if dtSec <= 0.0 {
        return 0.0;
      }
      var total := 0;
      for i := 0 to |samples|
        invariant Valid() && history == old(history) && prunedAt == now
        invariant |samples| >= 2 && samples[0] == first && samples[|samples| - 1] == last
        invariant i <= |samples| && total == TotalCount(samples[..i])
      {
        assert samples[..i + 1][..i] == samples[..i];
        total := total + samples[i].count;
      }
      assert samples[..|samples|] == samples;
      arrivalRate := total as real / dtSec;
      assert arrivalRate == Rate(samples);
      RateTimesSpan(samples);
    }
  }

  // ---------------------------------------------------------------------------------------------
  // Worker counts
  // ---------------------------------------------------------------------------------------------

  function Ceil(x: real): int {
    -(-x).Floor
  }

  function Max(a: int, b: int): int {
    if a >= b then a else b
  }

  function Min(a: int, b: int): int {
    if a <= b then a else b
  }

  function ComputeOptimalWorkers(arrivalRate: real, serviceRate: real, rhoTarget: real, min: int, max: int): int {
    if arrivalRate <= 0.0 || serviceRate <= 0.0 || rhoTarget <= 0.0 then min
    else Max(min, Min(Ceil(arrivalRate / (serviceRate * rhoTarget)), max))
  }

  lemma CeilDivides(arrivalRate: real, cap: real, c: int)
    requires cap > 0.0
    ensures c >= Ceil(arrivalRate / cap) <==> arrivalRate <= c as real * cap
  {
    assert arrivalRate == (arrivalRate / cap) * cap;
    if c as real >= arrivalRate / cap {
      assert c as real * cap >= (arrivalRate / cap) * cap;
    } else {
      assert c as real * cap < (arrivalRate / cap) * cap;
    }
  }

  /**
   * Enough workers for the target utilisation, and no more than needed, unless the bounds say
   * otherwise. Without a rate, or with bounds that cross, it is the minimum.
   */
  lemma OptimalWorkersAreLeast(arrivalRate: real, serviceRate: real, rhoTarget: real, min: int, max: int)
    ensures var c := ComputeOptimalWorkers(arrivalRate, serviceRate, rhoTarget, min, max);
            && min <= c
            && (min > max ==> c == min)
            && (min <= max ==> c <= max)
            && (arrivalRate <= 0.0 || serviceRate <= 0.0 || rhoTarget <= 0.0 ==> c == min)
            && (arrivalRate > 0.0 && serviceRate > 0.0 && rhoTarget > 0.0 ==>
                  && (c < max ==> arrivalRate <= c as real * (serviceRate * rhoTarget))
                  && (c > min ==> arrivalRate > (c - 1) as real * (serviceRate * rhoTarget)))
  {
    if arrivalRate > 0.0 && serviceRate > 0.0 && rhoTarget > 0.0 {
      var c := ComputeOptimalWorkers(arrivalRate, serviceRate, rhoTarget, min, max);
      var cap := serviceRate * rhoTarget;
      assert cap > 0.0;
      CeilDivides(arrivalRate, cap, c);
      CeilDivides(arrivalRate, cap, c - 1);
    }
  }
}
