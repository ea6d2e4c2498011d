/** What the limiter promises over whole runs: a bound on every window, optimality of the
    greedy decision, and the exact condition under which sweeping cannot be observed. */
module RateLaws {
  import opened RateLimit

  ghost predicate Monotone(run: seq<Event>) {
    forall i, j :: 0 <= i <= j < |run| ==> run[i].at <= run[j].at
  }

  ghost predicate Nondecreasing(ts: seq<int>) {
    forall i, j :: 0 <= i <= j < |ts| ==> ts[i] <= ts[j]
  }

  /** The times at which one address called. */
  function TimesOf(run: seq<Event>, ip: string): seq<int> {
    if run == [] then [] else
      var e := run[|run| - 1];
      var before := TimesOf(run[..|run| - 1], ip);
      if e.Call? && e.ip == ip then before + [e.at] else before
  }

  /** The answers one address got, in order. */
  function AnswersOf(p: Params, run: seq<Event>, ip: string): seq<bool> {
    if run == [] then [] else
      var e := run[|run| - 1];
      var before := run[..|run| - 1];
      if e.Call? && e.ip == ip then
        AnswersOf(p, before, ip) + [Admits(Current(p, State(p, before), ip, e.at))]
      else
        AnswersOf(p, before, ip)
  }

  function WithoutSweeps(run: seq<Event>): seq<Event> {
    if run == [] then [] else
      var e := run[|run| - 1];
      var before := WithoutSweeps(run[..|run| - 1]);
      if e.Call? then before + [e] else before
  }

  // ---------- one address in isolation ----------

  /** The bucket of a lone address after calls at ts (at least one). */
  function Level(p: Params, ts: seq<int>): Bucket
    requires ts != []
    decreases |ts|, 1
  {
    Spend(Seen(p, ts))
  }

  /** The refilled bucket the last call of ts decides on. */
  function Seen(p: Params, ts: seq<int>): Bucket
    requires ts != []
    decreases |ts|, 0
  {
    var now := ts[|ts| - 1];
    if |ts| == 1 then Bucket(p.burst as real, now) else Refill(p, Level(p, ts[..|ts| - 1]), now)
  }

  /** The answers of a lone bucket that is never swept. */
  function Greedy(p: Params, ts: seq<int>): (ans: seq<bool>)
    ensures |ans| == |ts|
  {
    if ts == [] then [] else Greedy(p, ts[..|ts| - 1]) + [Admits(Seen(p, ts))]
  }

  // ---------- arithmetic of earning ----------

  lemma ProductMonotone(x: real, y: real, r: real)
    requires x <= y && r > 0.0
    ensures x * r <= y * r
  {
    assert (y - x) * r >= 0.0;
  }

  lemma EarnedAdds(p: Params, a: int, b: int)
    ensures Earned(p, a + b) == Earned(p, a) + Earned(p, b)
  {
    var n := NANOS_PER_SECOND as real;
    assert (a + b) as real / n == a as real / n + b as real / n;
  }

  lemma EarnedMonotone(p: Params, a: int, b: int)
    requires a <= b
    ensures Earned(p, a) <= Earned(p, b)
  {
    ProductMonotone(a as real / NANOS_PER_SECOND as real, b as real / NANOS_PER_SECOND as real, p.rate);
  }

  lemma EarnedZero(p: Params)
    ensures Earned(p, 0) == 0.0
  {}

  // ---------- eviction is invisible ----------

  /** A bucket idle for longer than maxIdle is full again by the time it may be swept. */
  predicate Enough(p: Params, maxIdle: int) {
    Earned(p, maxIdle + 1) >= p.burst as real
  }

  ghost predicate SweepsForgive(p: Params, run: seq<Event>) {
    forall i :: 0 <= i < |run| && run[i].Sweep? ==> Enough(p, run[i].maxIdle)
  }

  predicate FullAt(p: Params, b: Bucket, now: int) {
    b.last <= now && b.tokens + Earned(p, now - b.last) >= p.burst as real
  }

  /** Bucket map m at time now stands for the lone bucket fed with ts. */
  ghost predicate Tracks(p: Params, m: Buckets, ip: string, ts: seq<int>, now: int) {
    if ip in m then
      ts != [] && m[ip] == Level(p, ts) && m[ip].last <= now && 0.0 <= m[ip].tokens <= p.burst as real
    else
      ts != [] ==> FullAt(p, Level(p, ts), now) && 0.0 <= Level(p, ts).tokens <= p.burst as real
  }

  lemma RefillOfFull(p: Params, b: Bucket, now: int)
    requires FullAt(p, b, now) && b.tokens <= p.burst as real
    ensures Refill(p, b, now) == Bucket(p.burst as real, now)
  {
    EarnedZero(p);
  }

  lemma RefillBounds(p: Params, b: Bucket, now: int)
    requires 0.0 <= b.tokens <= p.burst as real && b.last <= now
    ensures 0.0 <= Refill(p, b, now).tokens <= p.burst as real
    ensures Refill(p, b, now).last == now
  {
    if b.last < now {
      EarnedMonotone(p, 0, now - b.last);
      EarnedZero(p);
    }
  }

  lemma TracksLater(p: Params, m: Buckets, ip: string, ts: seq<int>, now: int, later: int)
    requires Tracks(p, m, ip, ts, now) && now <= later
    ensures Tracks(p, m, ip, ts, later)
  {
    if ip !in m && ts != [] {
      EarnedMonotone(p, now - Level(p, ts).last, later - Level(p, ts).last);
    }
  }

  lemma TracksCall(p: Params, m: Buckets, ip: string, ts: seq<int>, now: int)
    requires Tracks(p, m, ip, ts, now)
    ensures Current(p, m, ip, now) == Seen(p, ts + [now])
    ensures Tracks(p, AfterCall(p, m, ip, now), ip, ts + [now], now)
  {
    assert (ts + [now])[..|ts|] == ts;
    if ip in m {
      RefillBounds(p, m[ip], now);
    } else if ts != [] {
      RefillOfFull(p, Level(p, ts), now);
    }
  }

  lemma TracksSweep(p: Params, m: Buckets, ip: string, ts: seq<int>, now: int, maxIdle: int)
    requires Tracks(p, m, ip, ts, now) && Enough(p, maxIdle)
    ensures Tracks(p, AfterSweep(m, now, maxIdle), ip, ts, now)
  {
    if ip in m && Idle(m[ip], now, maxIdle) {
      EarnedMonotone(p, maxIdle + 1, now - m[ip].last);
    }
  }

  lemma GreedySnoc(p: Params, ts: seq<int>, t: int)
    ensures Greedy(p, ts + [t]) == Greedy(p, ts) + [Admits(Seen(p, ts + [t]))]
  {
    assert (ts + [t])[..|ts|] == ts;
  }

  /** The call times of an address after one more event. */
  function NextTimes(ts: seq<int>, e: Event, ip: string): seq<int> {
    if e.Call? && e.ip == ip then ts + [e.at] else ts
  }

  lemma TracksStep(p: Params, m: Buckets, ip: string, ts: seq<int>, e: Event, now: int)
    requires Tracks(p, m, ip, ts, e.at) && e.at <= now
    requires e.Sweep? ==> Enough(p, e.maxIdle)
    ensures Tracks(p, After(p, m, e), ip, NextTimes(ts, e, ip), now)
  {
    match e
    case Call(ip', at) =>
      if ip' == ip {
        TracksCall(p, m, ip, ts, at);
        TracksLater(p, After(p, m, e), ip, ts + [at], at, now);
      } else {
        TracksLater(p, After(p, m, e), ip, ts, at, now);
      }
    case Sweep(at, maxIdle) =>
      TracksSweep(p, m, ip, ts, at, maxIdle);
      TracksLater(p, After(p, m, e), ip, ts, at, now);
  }

  lemma RunSnoc(p: Params, run: seq<Event>, e: Event, ip: string)
    ensures State(p, run + [e]) == After(p, State(p, run), e)
    ensures TimesOf(run + [e], ip) == NextTimes(TimesOf(run, ip), e, ip)
    ensures AnswersOf(p, run + [e], ip) ==
            if e.Call? && e.ip == ip then
              AnswersOf(p, run, ip) + [Admits(Current(p, State(p, run), ip, e.at))]
            else AnswersOf(p, run, ip)
    ensures WithoutSweeps(run + [e]) == if e.Call? then WithoutSweeps(run) + [e] else WithoutSweeps(run)
  {
    assert (run + [e])[..|run|] == run;
  }

  lemma MonotoneFront(run: seq<Event>, e: Event)
    requires Monotone(run + [e])
    ensures Monotone(run)
    ensures run != [] ==> run[|run| - 1].at <= e.at
  {
    var all := run + [e];
    forall i, j | 0 <= i <= j < |run|
      ensures run[i].at <= run[j].at
    {
      assert all[i].at <= all[j].at;
    }
    if run != [] {
      assert all[|run| - 1].at <= all[|run|].at;
    }
  }

  lemma ForgivingFront(p: Params, run: seq<Event>, e: Event)
    requires SweepsForgive(p, run + [e])
    ensures SweepsForgive(p, run)
    ensures e.Sweep? ==> Enough(p, e.maxIdle)
  {
    var all := run + [e];
    assert all[|run|] == e;
    assert forall i :: 0 <= i < |run| ==> run[i] == all[i];
  }

  lemma EmptyRun(p: Params, ip: string, now: int)
    ensures WithoutSweeps([]) == [] && AnswersOf(p, [], ip) == Greedy(p, TimesOf([], ip))
    ensures Tracks(p, State(p, []), ip, TimesOf([], ip), now)
  {}

  /** Run run, which the lone bucket fed with ts has matched so far, goes one event on. */
  lemma RunStep(p: Params, run: seq<Event>, e: Event, ip: string, ts: seq<int>, now: int)
    requires AnswersOf(p, run, ip) == Greedy(p, ts) && Tracks(p, State(p, run), ip, ts, e.at)
    requires e.at <= now && (e.Sweep? ==> Enough(p, e.maxIdle))
    ensures AnswersOf(p, run + [e], ip) == Greedy(p, NextTimes(ts, e, ip))
    ensures Tracks(p, State(p, run + [e]), ip, NextTimes(ts, e, ip), now)
  {
    hide Tracks, Seen, Level, Current, After, Admits, Greedy, State, AnswersOf;
    RunSnoc(p, run, e, ip);
    TracksStep(p, State(p, run), ip, ts, e, now);
    if e.Call? && e.ip == ip {
      TracksCall(p, State(p, run), ip, ts, e.at);
      GreedySnoc(p, ts, e.at);
    }
  }

  /** Every address sees, in any run with forgiving sweeps and any other traffic, exactly the
      answers of a lone never-swept bucket fed with its own call times. */
  lemma {:induction false} SweptRunIsGreedy(p: Params, run: seq<Event>, ip: string, now: int)
    requires Monotone(run) && SweepsForgive(p, run)
    requires run != [] ==> run[|run| - 1].at <= now
    ensures AnswersOf(p, run, ip) == Greedy(p, TimesOf(run, ip))
    ensures Tracks(p, State(p, run), ip, TimesOf(run, ip), now)
  {
    hide Tracks, Greedy, State, AnswersOf, TimesOf, WithoutSweeps, Monotone, SweepsForgive, Enough;
    if run == [] {
      EmptyRun(p, ip, now);
    } else {
      var e := run[|run| - 1];
      var before := run[..|run| - 1];
      assert run == before + [e];
      MonotoneFront(before, e);
      ForgivingFront(p, before, e);
      SweptRunIsGreedy(p, before, ip, e.at);
      RunSnoc(p, before, e, ip);
      RunStep(p, before, e, ip, TimesOf(before, ip), now);
    }
  }

  /** The same run with its sweeps deleted, whatever they were. */
  lemma {:induction false} UnsweptRunIsGreedy(p: Params, run: seq<Event>, ip: string, now: int)
    requires Monotone(run)
    requires run != [] ==> run[|run| - 1].at <= now
    ensures AnswersOf(p, WithoutSweeps(run), ip) == Greedy(p, TimesOf(run, ip))
    ensures Tracks(p, State(p, WithoutSweeps(run)), ip, TimesOf(run, ip), now)
  {
    hide Tracks, Greedy, State, AnswersOf, TimesOf, WithoutSweeps, Monotone;
    if run == [] {
      EmptyRun(p, ip, now);
    } else {
      var e := run[|run| - 1];
      var before := run[..|run| - 1];
      assert run == before + [e];
      MonotoneFront(before, e);
      UnsweptRunIsGreedy(p, before, ip, e.at);
      RunSnoc(p, before, e, ip);
      if e.Call? {
        RunStep(p, WithoutSweeps(before), e, ip, TimesOf(before, ip), now);
      } else {
        TracksLater(p, State(p, WithoutSweeps(before)), ip, TimesOf(before, ip), e.at, now);
      }
    }
  }

  /** Forgetting is invisible: sweeps change no answer of any address. */
  lemma SweepsAreInvisible(p: Params, run: seq<Event>, ip: string)
    requires Monotone(run) && SweepsForgive(p, run)
    ensures AnswersOf(p, run, ip) == AnswersOf(p, WithoutSweeps(run), ip)
  {
    var now := if run == [] then 0 else run[|run| - 1].at;
    SweptRunIsGreedy(p, run, ip, now);
    UnsweptRunIsGreedy(p, run, ip, now);
  }

  // ---------- who is remembered ----------

  /** The address called, and no sweep since then came later than its idle limit allows. */
  ghost predicate Remembered(run: seq<Event>, ip: string) {
    exists i :: 0 <= i < |run| && run[i].Call? && run[i].ip == ip && OutlivesSweeps(run, i)
  }

  predicate OutlivesSweeps(run: seq<Event>, i: nat)
    requires i < |run|
  {
    forall j :: i < j < |run| && run[j].Sweep? ==> run[j].at - run[i].at <= run[j].maxIdle
  }

  /** The bucket of an address was last used at its last call. */
  ghost predicate UsedLast(m: Buckets, ip: string, ts: seq<int>, now: int) {
    ip in m ==> ts != [] && m[ip].last == ts[|ts| - 1] <= now
  }

  lemma UsedLastStep(p: Params, m: Buckets, ip: string, ts: seq<int>, e: Event, now: int)
    requires UsedLast(m, ip, ts, now) && now <= e.at
    ensures UsedLast(After(p, m, e), ip, NextTimes(ts, e, ip), e.at)
  {
    hide Earned;
  }

  lemma {:induction false} BucketIsUsedLast(p: Params, run: seq<Event>, ip: string)
    requires Monotone(run)
    ensures run != [] ==> UsedLast(State(p, run), ip, TimesOf(run, ip), run[|run| - 1].at)
    ensures run == [] ==> ip !in State(p, run)
  {
    if run != [] {
      hide Monotone, After, UsedLast, NextTimes, State, TimesOf, AnswersOf, WithoutSweeps;
      var before, e := run[..|run| - 1], run[|run| - 1];
      assert run == before + [e];
      MonotoneFront(before, e);
      BucketIsUsedLast(p, before, ip);
      RunSnoc(p, before, e, ip);
      if before == [] {
        NothingUsed(ip, e.at);
        UsedLastStep(p, State(p, before), ip, TimesOf(before, ip), e, e.at);
      } else {
        UsedLastStep(p, State(p, before), ip, TimesOf(before, ip), e, before[|before| - 1].at);
      }
    }
  }

  lemma NothingUsed(ip: string, now: int)
    ensures UsedLast(map[], ip, [], now)
  {}

  /** A sweep at any point of a run forgets exactly the addresses whose last call lies more than
      its idle limit back, and leaves the buckets of the others as they are. */
  lemma SweepForgetsTheIdle(p: Params, run: seq<Event>, at: int, maxIdle: int, ip: string)
    requires Monotone(run + [Sweep(at, maxIdle)])
    ensures var s, t, ts := State(p, run), State(p, run + [Sweep(at, maxIdle)]), TimesOf(run, ip);
            (ip in s ==> ts != []) &&
            (ip in t <==> ip in s && at - ts[|ts| - 1] <= maxIdle) &&
            (ip in t ==> t[ip] == s[ip])
  {
    MonotoneFront(run, Sweep(at, maxIdle));
    BucketIsUsedLast(p, run, ip);
    RunSnoc(p, run, Sweep(at, maxIdle), ip);
  }

  /** Whoever has a bucket after a run: exactly the addresses that called and that no sweep since
      found idle for too long. Nobody else is remembered. */
  lemma {:induction false} MapHoldsTheRemembered(p: Params, run: seq<Event>, ip: string)
    requires Monotone(run)
    ensures ip in State(p, run) <==> Remembered(run, ip)
  {
    if run != [] {
      hide Monotone, State, Remembered, TimesOf, After, AnswersOf, WithoutSweeps;
      var before, e := run[..|run| - 1], run[|run| - 1];
      assert run == before + [e];
      MonotoneFront(before, e);
      MapHoldsTheRemembered(p, before, ip);
      RunSnoc(p, before, e, ip);
      match e
      case Call(_, _) => RememberedCall(before, e, ip);
      case Sweep(at, maxIdle) =>
        SweepForgetsTheIdle(p, before, at, maxIdle, ip);
        RememberedSweep(before, e, ip);
    } else {
      assert State(p, run) == map[];
    }
  }

  lemma RememberedCall(run: seq<Event>, e: Event, ip: string)
    requires e.Call?
    ensures Remembered(run + [e], ip) <==> Remembered(run, ip) || e.ip == ip
  {
    var all := run + [e];
    assert all[|run|] == e;
    assert forall k :: 0 <= k < |run| ==> all[k] == run[k];
    assert forall i :: 0 <= i < |run| ==> (OutlivesSweeps(all, i) <==> OutlivesSweeps(run, i));
    if e.ip == ip {
      assert OutlivesSweeps(all, |run|);
    }
    if Remembered(run, ip) {
      var i :| 0 <= i < |run| && run[i].Call? && run[i].ip == ip && OutlivesSweeps(run, i);
      assert OutlivesSweeps(all, i) && all[i].ip == ip;
    }
  }

  lemma {:induction false} LastCall(run: seq<Event>, ip: string, k: nat) returns (i: nat)
    requires k < |run| && run[k].Call? && run[k].ip == ip
    ensures TimesOf(run, ip) != [] && k <= i < |run| && run[i].Call? && run[i].ip == ip
    ensures run[i].at == TimesOf(run, ip)[|TimesOf(run, ip)| - 1]
    ensures forall j :: i < j < |run| ==> !(run[j].Call? && run[j].ip == ip)
  {
    var e := run[|run| - 1];
    if e.Call? && e.ip == ip {
      i := |run| - 1;
    } else {
      i := LastCall(run[..|run| - 1], ip, k);
    }
  }

  lemma RememberedSweep(run: seq<Event>, e: Event, ip: string)
    requires e.Sweep? && Monotone(run + [e])
    ensures Remembered(run + [e], ip) ==> Remembered(run, ip)
    ensures Remembered(run, ip) ==>
              var ts := TimesOf(run, ip);
              ts != [] && (Remembered(run + [e], ip) <==> e.at - ts[|ts| - 1] <= e.maxIdle)
  {
    hide TimesOf;
    var all := run + [e];
    assert all[|run|] == e;
    assert forall k :: 0 <= k < |run| ==> all[k] == run[k];
    forall i | 0 <= i < |run|
      ensures OutlivesSweeps(all, i) <==> OutlivesSweeps(run, i) && e.at - run[i].at <= e.maxIdle
    {
      assert OutlivesSweeps(all, i) ==> all[|run|].at - all[i].at <= all[|run|].maxIdle;
      assert OutlivesSweeps(all, i) ==> OutlivesSweeps(run, i);
    }
    if Remembered(run, ip) {
      var k :| 0 <= k < |run| && run[k].Call? && run[k].ip == ip && OutlivesSweeps(run, k);
      var l := LastCall(run, ip, k);
      assert all[k].at <= all[l].at;
      assert OutlivesSweeps(run, l);
      if Remembered(all, ip) {
        var i :| 0 <= i < |all| && all[i].Call? && all[i].ip == ip && OutlivesSweeps(all, i);
        assert i <= l;
        assert all[i].at <= all[l].at;
      }
      if OutlivesSweeps(all, l) {
        assert all[l].Call? && all[l].ip == ip;
      }
    }
  }

  // ---------- the condition is exact ----------

  function Calls(ip: string, at: int, n: nat): (es: seq<Event>)
    ensures |es| == n
  {
    seq(n, _ => Call(ip, at))
  }

  lemma OneMoreCall(p: Params, run: seq<Event>, ip: string, at: int, x: real)
    requires Current(p, State(p, run), ip, at) == Bucket(x, at)
    ensures var m := State(p, run + [Call(ip, at)]);
            ip in m && m[ip] == Spend(Bucket(x, at)) && Current(p, m, ip, at) == m[ip]
    ensures AnswersOf(p, run + [Call(ip, at)], ip) == AnswersOf(p, run, ip) + [x >= 1.0]
  {
    assert (run + [Call(ip, at)])[..|run|] == run;
  }

  function Yes(n: nat): seq<bool> {
    seq(n, _ => true)
  }

  /** A burst of n calls at one instant on a bucket holding x tokens. */
  lemma {:induction false} BurstDrains(p: Params, pre: seq<Event>, ip: string, at: int, x: real, n: nat)
    requires Current(p, State(p, pre), ip, at) == Bucket(x, at) && x >= n as real
    ensures var m := State(p, pre + Calls(ip, at, n));
            Current(p, m, ip, at) == Bucket(x - n as real, at) &&
            (n > 0 ==> ip in m && m[ip] == Bucket(x - n as real, at))
    ensures AnswersOf(p, pre + Calls(ip, at, n), ip) == AnswersOf(p, pre, ip) + Yes(n)
  {
    if n == 0 {
      assert pre + Calls(ip, at, 0) == pre;
    } else {
      BurstDrains(p, pre, ip, at, x, n - 1);
      var most := pre + Calls(ip, at, n - 1);
      OneMoreCall(p, most, ip, at, x - (n - 1) as real);
      assert pre + Calls(ip, at, n) == most + [Call(ip, at)];
      assert Yes(n) == Yes(n - 1) + [true];
    }
  }

  /** How long the run below waits before its sweep. */
  function Wait(maxIdle: int): nat {
    if maxIdle < 0 then 0 else maxIdle + 1
  }

  function DrainedRun(p: Params): seq<Event> {
    Calls("ip", 0, p.burst)
  }

  /** The run that shows a sweep which comes too early: drain, wait, sweep, drain again. */
  function EarlySweepRun(p: Params, maxIdle: int): seq<Event> {
    DrainedRun(p) + [Sweep(Wait(maxIdle), maxIdle)] + Calls("ip", Wait(maxIdle), p.burst)
  }

  lemma Drained(p: Params)
    ensures var m := State(p, DrainedRun(p)); "ip" in m && m["ip"] == Bucket(0.0, 0)
    ensures AnswersOf(p, DrainedRun(p), "ip") == Yes(p.burst)
  {
    BurstDrains(p, [], "ip", 0, p.burst as real, p.burst);
    assert [] + Calls("ip", 0, p.burst) == DrainedRun(p);
  }

  lemma EarlySweepSwept(p: Params, maxIdle: int)
    ensures AnswersOf(p, EarlySweepRun(p, maxIdle), "ip") == Yes(2 * p.burst)
  {
    Drained(p);
    var mid := DrainedRun(p) + [Sweep(Wait(maxIdle), maxIdle)];
    assert mid[..|mid| - 1] == DrainedRun(p);
    assert "ip" !in State(p, mid);
    BurstDrains(p, mid, "ip", Wait(maxIdle), p.burst as real, p.burst);
    assert Yes(p.burst) + Yes(p.burst) == Yes(2 * p.burst);
  }

  lemma EarlySweepRunWithoutSweep(p: Params, maxIdle: int)
    ensures WithoutSweeps(EarlySweepRun(p, maxIdle)) == DrainedRun(p) + Calls("ip", Wait(maxIdle), p.burst)
  {
    var mid := DrainedRun(p) + [Sweep(Wait(maxIdle), maxIdle)];
    assert mid[..|mid| - 1] == DrainedRun(p);
    WithoutSweepsOfCalls("ip", 0, p.burst, []);
    assert [] + Calls("ip", 0, p.burst) == DrainedRun(p);
    WithoutSweepsOfCalls("ip", Wait(maxIdle), p.burst, mid);
  }

  lemma WaitIsShort(p: Params, maxIdle: int)
    requires !Enough(p, maxIdle)
    ensures 0.0 <= Earned(p, Wait(maxIdle)) < p.burst as real
    ensures Current(p, State(p, DrainedRun(p)), "ip", Wait(maxIdle)) == Bucket(Earned(p, Wait(maxIdle)), Wait(maxIdle))
  {
    Drained(p);
    EarnedZero(p);
    EarnedMonotone(p, 0, Wait(maxIdle));
  }

  lemma EarlySweepUnswept(p: Params, maxIdle: int)
    requires !Enough(p, maxIdle)
    ensures AnswersOf(p, WithoutSweeps(EarlySweepRun(p, maxIdle)), "ip") != Yes(2 * p.burst)
  {
    EarlySweepRunWithoutSweep(p, maxIdle);
    WaitIsShort(p, maxIdle);
    var wait := Wait(maxIdle);
    RefusedAfter(p, DrainedRun(p), "ip", wait, Earned(p, wait), p.burst);
    Drained(p);
  }

  /** A bucket holding fewer than n tokens refuses one of n calls made at once. */
  lemma RefusedAfter(p: Params, pre: seq<Event>, ip: string, at: int, x: real, n: nat)
    requires Current(p, State(p, pre), ip, at) == Bucket(x, at) && 0.0 <= x < n as real
    ensures false in AnswersOf(p, pre + Calls(ip, at, n), ip)
  {
    hide Refill, Spend, AfterCall, AnswersOf, State, Current;
    var k := x.Floor;
    BurstDrains(p, pre, ip, at, x, k);
    var one := pre + Calls(ip, at, k) + [Call(ip, at)];
    RefusedNext(p, pre + Calls(ip, at, k), ip, at, x - k as real);
    var rest := Calls(ip, at, n - k - 1);
    AnswersExtend(p, one, rest, ip);
    assert one + rest == pre + Calls(ip, at, n);
  }

  lemma RefusedNext(p: Params, run: seq<Event>, ip: string, at: int, x: real)
    requires Current(p, State(p, run), ip, at) == Bucket(x, at) && x < 1.0
    ensures false in AnswersOf(p, run + [Call(ip, at)], ip)
  {
    OneMoreCall(p, run, ip, at, x);
    var ans := AnswersOf(p, run, ip);
    assert (ans + [false])[|ans|] == false;
  }

  lemma {:induction false} WithoutSweepsOfCalls(ip: string, at: int, n: nat, pre: seq<Event>)
    ensures WithoutSweeps(pre + Calls(ip, at, n)) == WithoutSweeps(pre) + Calls(ip, at, n)
  {
    if n == 0 {
      assert pre + Calls(ip, at, 0) == pre;
    } else {
      var run := pre + Calls(ip, at, n);
      assert run[..|run| - 1] == pre + Calls(ip, at, n - 1);
      WithoutSweepsOfCalls(ip, at, n - 1, pre);
      assert Calls(ip, at, n) == Calls(ip, at, n - 1) + [Call(ip, at)];
    }
  }

  lemma {:induction false} AnswersExtend(p: Params, run: seq<Event>, more: seq<Event>, ip: string)
    ensures AnswersOf(p, run, ip) <= AnswersOf(p, run + more, ip)
  {
    if more == [] {
      assert run + more == run;
    } else {
      var all := run + more;
      assert all[..|all| - 1] == run + more[..|more| - 1];
      AnswersExtend(p, run, more[..|more| - 1], ip);
    }
  }

  ghost predicate SweepsAfter(run: seq<Event>, maxIdle: int) {
    forall i :: 0 <= i < |run| && run[i].Sweep? ==> run[i].maxIdle == maxIdle
  }

  ghost predicate InvisibleAt(p: Params, maxIdle: int) {
    forall run: seq<Event>, ip: string :: Monotone(run) && SweepsAfter(run, maxIdle)
      ==> AnswersOf(p, run, ip) == AnswersOf(p, WithoutSweeps(run), ip)
  }

  /** Sweeping with a given idle time is unobservable in all runs exactly when a bucket idle
      for one nanosecond longer has earned a full burst. */
  lemma SweepInvisibleExactly(p: Params, maxIdle: int)
    ensures InvisibleAt(p, maxIdle) <==> Enough(p, maxIdle)
  {
    if Enough(p, maxIdle) {
      forall run: seq<Event>, ip: string | Monotone(run) && SweepsAfter(run, maxIdle)
        ensures AnswersOf(p, run, ip) == AnswersOf(p, WithoutSweeps(run), ip)
      {
        SweepsAreInvisible(p, run, ip);
      }
    } else {
      EarlySweepSwept(p, maxIdle);
      EarlySweepUnswept(p, maxIdle);
      EarlySweepRunIsLegal(p, maxIdle);
      var run := EarlySweepRun(p, maxIdle);
      assert AnswersOf(p, run, "ip") != AnswersOf(p, WithoutSweeps(run), "ip");
    }
  }

  lemma EarlySweepRunIsLegal(p: Params, maxIdle: int)
    ensures Monotone(EarlySweepRun(p, maxIdle)) && SweepsAfter(EarlySweepRun(p, maxIdle), maxIdle)
  {
    var run := EarlySweepRun(p, maxIdle);
    assert forall i :: 0 <= i < |run| ==> run[i].at == if i < p.burst then 0 else Wait(maxIdle);
  }

  const TEN_MINUTES: int := 600 * NANOS_PER_SECOND

  /** The condition in configuration terms, for a rate per minute and a burst. */
  predicate TenMinutesEarn(perMin: int, burst: int) {
    perMin * (TEN_MINUTES + 1) >= 60 * NANOS_PER_SECOND * burst
  }

  lemma EnoughPerMinute(perMin: int, burst: int)
    requires perMin >= 1 && burst >= 1
    ensures Enough(PerMinute(perMin, burst), TEN_MINUTES) <==> TenMinutesEarn(perMin, burst)
    ensures 10 * perMin >= burst ==> TenMinutesEarn(perMin, burst)
  {
    var p := PerMinute(perMin, burst);
    var span := (TEN_MINUTES + 1) as real / NANOS_PER_SECOND as real;
    assert p.rate == perMin as real / 60.0;
    assert Earned(p, TEN_MINUTES + 1) * 60.0 == span * perMin as real;
    assert Earned(p, TEN_MINUTES + 1) * 60.0 * NANOS_PER_SECOND as real == (perMin * (TEN_MINUTES + 1)) as real;
  }

  /** The server's ten-minute sweeps are unobservable on the login limiter (burst 3) under every
      accepted rate, and on the ingest limiter exactly when ten minutes and a nanosecond of its
      rate cover its burst, so in particular when ten times the rate per minute does. */
  lemma ServerSweepsForgive(loginPerMin: int, ingestPerMin: int, ingestBurst: int)
    requires loginPerMin >= 1 && ingestPerMin >= 1 && ingestBurst >= 1
    ensures InvisibleAt(PerMinute(loginPerMin, 3), TEN_MINUTES)
    ensures InvisibleAt(PerMinute(ingestPerMin, ingestBurst), TEN_MINUTES) <==> TenMinutesEarn(ingestPerMin, ingestBurst)
    ensures 10 * ingestPerMin >= ingestBurst ==> InvisibleAt(PerMinute(ingestPerMin, ingestBurst), TEN_MINUTES)
  {
    hide InvisibleAt, Enough, PerMinute;
    EnoughPerMinute(loginPerMin, 3);
    SweepInvisibleExactly(PerMinute(loginPerMin, 3), TEN_MINUTES);
    EnoughPerMinute(ingestPerMin, ingestBurst);
    SweepInvisibleExactly(PerMinute(ingestPerMin, ingestBurst), TEN_MINUTES);
  }

  // ---------- windows ----------

  /** How many of the answers at positions i..j are admissions. */
  function Admitted(ans: seq<bool>, i: nat, j: nat): nat
    requires j <= |ans|
  {
    if j <= i then 0 else Admitted(ans, i, j - 1) + if ans[j - 1] then 1 else 0
  }

  /** A policy's answers obey (burst, rate) on every window of the calls. */
  ghost predicate Respects(p: Params, ts: seq<int>, ans: seq<bool>)
    requires |ans| == |ts|
  {
    forall i, j :: 0 <= i < j <= |ts| ==>
      Admitted(ans, i, j) as real <= p.burst as real + Earned(p, ts[j - 1] - ts[i])
  }

  /** The bucket level an arbitrary policy would leave after its first n answers, allowing debt. */
  function Debt(p: Params, ts: seq<int>, ans: seq<bool>, n: nat): real
    requires |ans| == |ts| && n <= |ts|
  {
    if n == 0 then p.burst as real else
      var had := if n == 1 then p.burst as real else Debt(p, ts, ans, n - 1) + Earned(p, ts[n - 1] - ts[n - 2]);
      (if had > p.burst as real then p.burst as real else had) - if ans[n - 1] then 1.0 else 0.0
  }

  lemma {:induction false} WindowByDebt(p: Params, ts: seq<int>, ans: seq<bool>, i: nat, j: nat)
    requires |ans| == |ts| && Nondecreasing(ts) && i < j <= |ts|
    ensures Admitted(ans, i, j) as real <= p.burst as real + Earned(p, ts[j - 1] - ts[i]) - Debt(p, ts, ans, j)
  {
    EarnedZero(p);
    if j > i + 1 {
      WindowByDebt(p, ts, ans, i, j - 1);
      EarnedAdds(p, ts[j - 2] - ts[i], ts[j - 1] - ts[j - 2]);
    } else {
      assert Admitted(ans, i, i) == 0;
    }
  }

  /** Some window explains the debt of a policy exactly. */
  lemma {:induction false} DebtByWindow(p: Params, ts: seq<int>, ans: seq<bool>, n: nat) returns (i: nat)
    requires |ans| == |ts| && 0 < n <= |ts|
    ensures i < n
    ensures Debt(p, ts, ans, n) == p.burst as real + Earned(p, ts[n - 1] - ts[i]) - Admitted(ans, i, n) as real
  {
    EarnedZero(p);
    if n == 1 || Debt(p, ts, ans, n - 1) + Earned(p, ts[n - 1] - ts[n - 2]) > p.burst as real {
      i := n - 1;
      assert Admitted(ans, i, n - 1) == 0;
    } else {
      i := DebtByWindow(p, ts, ans, n - 1);
      EarnedAdds(p, ts[n - 2] - ts[i], ts[n - 1] - ts[n - 2]);
    }
  }

  lemma {:induction false} GreedyPrefix(p: Params, ts: seq<int>, n: nat)
    requires n <= |ts|
    ensures Greedy(p, ts)[..n] == Greedy(p, ts[..n])
  {
    if n == |ts| {
      assert ts[..n] == ts;
    } else {
      GreedyPrefix(p, ts[..|ts| - 1], n);
      assert ts[..|ts| - 1][..n] == ts[..n];
    }
  }

  lemma SeenNext(p: Params, ts: seq<int>, n: nat)
    requires 1 < n <= |ts|
    ensures Seen(p, ts[..n]) == Refill(p, Level(p, ts[..n - 1]), ts[n - 1])
  {
    assert ts[..n][..n - 1] == ts[..n - 1];
  }

  lemma GreedyAnswer(p: Params, ts: seq<int>, n: nat)
    requires 0 < n <= |ts|
    ensures Greedy(p, ts)[n - 1] == Admits(Seen(p, ts[..n]))
  {
    GreedyPrefix(p, ts, n);
    assert Greedy(p, ts)[n - 1] == Greedy(p, ts)[..n][n - 1];
  }

  /** The greedy answers never leave a debt: their level is the bucket's own. */
  lemma {:induction false} GreedyLevel(p: Params, ts: seq<int>, n: nat)
    requires Nondecreasing(ts) && 0 < n <= |ts|
    ensures Level(p, ts[..n]).last == ts[n - 1]
    ensures Debt(p, ts, Greedy(p, ts), n) == Level(p, ts[..n]).tokens >= 0.0
    ensures Greedy(p, ts)[n - 1] == Admits(Seen(p, ts[..n]))
    ensures Level(p, ts[..n]).tokens <= p.burst as real
  {
    GreedyAnswer(p, ts, n);
    EarnedZero(p);
    if n > 1 {
      GreedyLevel(p, ts, n - 1);
      EarnedMonotone(p, 0, ts[n - 1] - ts[n - 2]);
      SeenNext(p, ts, n);
    }
  }

  /** The limiter obeys its own constraint on every window. */
  lemma GreedyRespects(p: Params, ts: seq<int>)
    requires Nondecreasing(ts)
    ensures Respects(p, ts, Greedy(p, ts))
  {
    forall i: nat, j: nat | i < j <= |ts|
      ensures Admitted(Greedy(p, ts), i, j) as real <= p.burst as real + Earned(p, ts[j - 1] - ts[i])
    {
      WindowByDebt(p, ts, Greedy(p, ts), i, j);
      GreedyLevel(p, ts, j);
    }
  }

  /** No policy that obeys the window constraint is ever ahead of the limiter. */
  lemma {:induction false} GreedyIsOptimal(p: Params, ts: seq<int>, policy: seq<bool>, n: nat)
    requires |policy| == |ts| && Nondecreasing(ts) && Respects(p, ts, policy) && n <= |ts|
    ensures Admitted(policy, 0, n) <= Admitted(Greedy(p, ts), 0, n)
    ensures Debt(p, ts, policy, n) <=
            Debt(p, ts, Greedy(p, ts), n) + (Admitted(Greedy(p, ts), 0, n) - Admitted(policy, 0, n)) as real
  {
    if n > 0 {
      GreedyIsOptimal(p, ts, policy, n - 1);
      GreedyLevel(p, ts, n);
      var i := DebtByWindow(p, ts, policy, n);
      assert Debt(p, ts, policy, n) >= 0.0;
      GreedyDecides(p, ts, n);
    }
  }

  lemma GreedyDecides(p: Params, ts: seq<int>, n: nat)
    requires Nondecreasing(ts) && 0 < n <= |ts|
    ensures Greedy(p, ts)[n - 1] <==> Debt(p, ts, Greedy(p, ts), n) + (if Greedy(p, ts)[n - 1] then 1.0 else 0.0) >= 1.0
  {
    GreedyLevel(p, ts, n);
  }

  /** With forgiving sweeps anywhere in the run, every window of one address's calls is bounded,
      and no constraint-respecting policy admits more of them on any prefix. */
  lemma LimiterIsTightInRuns(p: Params, run: seq<Event>, ip: string, policy: seq<bool>, n: nat)
    requires Monotone(run) && SweepsForgive(p, run)
    requires |policy| == |TimesOf(run, ip)| && n <= |policy|
    requires Respects(p, TimesOf(run, ip), policy)
    ensures |AnswersOf(p, run, ip)| == |policy|
    ensures Respects(p, TimesOf(run, ip), AnswersOf(p, run, ip))
    ensures Admitted(policy, 0, n) <= Admitted(AnswersOf(p, run, ip), 0, n)
  {
    SweptRunIsGreedy(p, run, ip, if run == [] then 0 else run[|run| - 1].at);
    TimesNondecreasing(run, ip);
    GreedyRespects(p, TimesOf(run, ip));
    GreedyIsOptimal(p, TimesOf(run, ip), policy, n);
  }

  lemma {:induction false} TimesNondecreasing(run: seq<Event>, ip: string)
    requires Monotone(run)
    ensures Nondecreasing(TimesOf(run, ip))
    ensures forall t :: t in TimesOf(run, ip) ==> run != [] && t <= run[|run| - 1].at
  {
    if run != [] {
      var before := run[..|run| - 1];
      TimesNondecreasing(before, ip);
      var ts, ts' := TimesOf(before, ip), TimesOf(run, ip);
      forall t | t in ts
        ensures t <= run[|run| - 1].at
      {
        assert before[|before| - 1].at <= run[|run| - 1].at;
      }
      forall i, j | 0 <= i <= j < |ts'|
        ensures ts'[i] <= ts'[j]
      {
        if i < |ts| {
          assert ts[i] in ts;
        }
      }
    }
  }

  /** A refused caller that comes back sooner than the reported wait is refused again; one
      nanosecond past the reported wait it is admitted. */
  lemma RetryIsExact(p: Params, b: Bucket, wait: int)
    requires 0.0 <= b.tokens < 1.0
    ensures RetryAfter(p, b) >= 0
    ensures 0 <= wait < RetryAfter(p, b) ==> !Admits(Refill(p, b, b.last + wait))
    ensures wait > RetryAfter(p, b) ==> Admits(Refill(p, b, b.last + wait))
  {
    var need := (1.0 - b.tokens) / p.rate;
    var wanted := need * NANOS_PER_SECOND as real;
    var w := wait as real / NANOS_PER_SECOND as real;
    assert need * p.rate == 1.0 - b.tokens;
    assert wanted >= 0.0 && wanted.Floor == RetryAfter(p, b);
    if 0 <= wait < RetryAfter(p, b) {
      assert w < need;
      ProductStrict(w, need, p.rate);
    } else if wait > RetryAfter(p, b) {
      assert need < w;
      ProductStrict(need, w, p.rate);
    }
    assert Earned(p, wait) == w * p.rate;
  }

  lemma ProductStrict(x: real, y: real, r: real)
    requires x < y && r > 0.0
    ensures x * r < y * r
  {
    assert (y - x) * r > 0.0;
  }
}
