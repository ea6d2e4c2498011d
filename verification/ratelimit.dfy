/** The per-IP token bucket limiter: its state, one atomic step per locked call, and the
    class whose methods perform those steps on the shared bucket map. */
module RateLimit {

  const NANOS_PER_SECOND: int := 1_000_000_000

  /** Tokens per second and bucket capacity, as the constructor leaves them. */
  datatype RawParams = Params(rate: real, burst: int)

  type Params = p: RawParams | p.rate > 0.0 && p.burst >= 1 witness Params(1.0, 1)

  datatype Bucket = Bucket(tokens: real, last: int)

  type Buckets = map<string, Bucket>

  /** The clamping done by the constructor. */
  function MakeParams(ratePerSec: real, burst: int): Params {
    Params(if ratePerSec <= 0.0 then 1.0 / 60.0 else ratePerSec, if burst < 1 then 1 else burst)
  }

  function PerMinute(ratePerMin: int, burst: int): Params {
    MakeParams(ratePerMin as real / 60.0, burst)
  }

  /** Tokens earned over a span of nanoseconds. */
  function Earned(p: Params, ns: int): real {
    ns as real / NANOS_PER_SECOND as real * p.rate
  }

  function Refill(p: Params, b: Bucket, now: int): Bucket {
    if now - b.last > 0 then
      var tokens := b.tokens + Earned(p, now - b.last);
      Bucket(if tokens > p.burst as real then p.burst as real else tokens, now)
    else
      b
  }

  function Admits(b: Bucket): bool {
    b.tokens >= 1.0
  }

  function Spend(b: Bucket): Bucket {
    if Admits(b) then b.(tokens := b.tokens - 1.0) else b
  }

  /** The wait a refusal reports, in whole nanoseconds, truncated. */
  function RetryAfter(p: Params, b: Bucket): int {
    if Admits(b) then 0
    else ((1.0 - b.tokens) / p.rate * NANOS_PER_SECOND as real).Floor
  }

  /** The bucket a call looks at: the stored one, or a full one created on the spot. */
  function Current(p: Params, m: Buckets, ip: string, now: int): Bucket {
    Refill(p, if ip in m then m[ip] else Bucket(p.burst as real, now), now)
  }

  function AfterCall(p: Params, m: Buckets, ip: string, now: int): Buckets {
    m[ip := Spend(Current(p, m, ip, now))]
  }

  predicate Idle(b: Bucket, now: int, maxIdle: int) {
    b.last < now - maxIdle
  }

  function AfterSweep(m: Buckets, now: int, maxIdle: int): Buckets {
    map ip | ip in m && !Idle(m[ip], now, maxIdle) :: m[ip]
  }

  /** The idle addresses among seen. */
  ghost function Swept(m: Buckets, now: int, maxIdle: int, seen: set<string>): set<string> {
    set ip | ip in seen && ip in m && Idle(m[ip], now, maxIdle)
  }

  lemma SweptSize(m: Buckets, now: int, maxIdle: int)
    ensures |m| - |AfterSweep(m, now, maxIdle)| == |set ip | ip in m && now - m[ip].last > maxIdle|
  {
    var gone := set ip | ip in m && now - m[ip].last > maxIdle;
    var kept := AfterSweep(m, now, maxIdle);
    assert m.Keys == kept.Keys + gone;
    assert kept.Keys !! gone;
    assert |m| == |m.Keys| && |kept| == |kept.Keys|;
  }

  lemma SweptRest(m: Buckets, now: int, maxIdle: int)
    ensures AfterSweep(m, now, maxIdle) == m - Swept(m, now, maxIdle, m.Keys)
    ensures forall ip :: ip in AfterSweep(m, now, maxIdle) <==> ip in m && now - m[ip].last <= maxIdle
  {}

  lemma MinusOne<K, V>(m: map<K, V>, k: K)
    requires k in m
    ensures |m - {k}| == |m| - 1
  {
    assert (m - {k}).Keys == m.Keys - {k};
  }

  datatype Event = Call(ip: string, at: int) | Sweep(at: int, maxIdle: int)

  function After(p: Params, m: Buckets, e: Event): Buckets {
    match e
    case Call(ip, at) => AfterCall(p, m, ip, at)
    case Sweep(at, maxIdle) => AfterSweep(m, at, maxIdle)
  }

  /** The bucket map after a whole run. */
  function State(p: Params, run: seq<Event>): Buckets {
    if run == [] then map[]
    else After(p, State(p, run[..|run| - 1]), run[|run| - 1])
  }

  lemma StateSnoc(p: Params, run: seq<Event>, e: Event)
    ensures State(p, run + [e]) == After(p, State(p, run), e)
  {
    hide After;
    assert (run + [e])[..|run|] == run;
  }

  class Limiter {
    const p: Params
    var buckets: Buckets
    ghost var history: seq<Event>

    ghost predicate Valid()
      reads this
    {
      buckets == State(p, history)
    }

    constructor (ratePerSec: real, burst: int)
      ensures Valid() && history == []
      ensures p == MakeParams(ratePerSec, burst) && buckets == map[]
      ensures p.burst == if burst < 1 then 1 else burst
      ensures p.rate == if ratePerSec > 0.0 then ratePerSec else 1.0 / 60.0
    {
      p := MakeParams(ratePerSec, burst);
      buckets := map[];
      history := [];
    }

    method Allow(ip: string, now: int) returns (ok: bool, retry: int)
      requires Valid()
      modifies this
      ensures Valid() && history == old(history) + [Call(ip, now)]
      ensures ok == Admits(Current(p, old(buckets), ip, now))
      ensures if ok then retry == 0 else retry >= 0
      ensures retry == RetryAfter(p, Current(p, old(buckets), ip, now))
      ensures buckets == AfterCall(p, old(buckets), ip, now)
    {
      hide State;
      StateSnoc(p, history, Call(ip, now));
      if ip !in buckets {
        buckets := buckets[ip := Bucket(p.burst as real, now)];
      }
      var b := buckets[ip];
      var elapsed := (now - b.last) as real / NANOS_PER_SECOND as real;
      if elapsed > 0.0 {
        b := b.(tokens := b.tokens + elapsed * p.rate);
        if b.tokens > p.burst as real {
          b := b.(tokens := p.burst as real);
        }
        b := b.(last := now);
      }
      assert b == Current(p, old(buckets), ip, now);
      history := history + [Call(ip, now)];
      if b.tokens >= 1.0 {
        buckets := buckets[ip := b.(tokens := b.tokens - 1.0)];
        ok, retry := true, 0;
      } else {
        buckets := buckets[ip := b];
        var need := (1.0 - b.tokens) / p.rate;
        ok, retry := false, (need * NANOS_PER_SECOND as real).Floor;
      }
      assert buckets == AfterCall(p, old(buckets), ip, now);
    }

    method Sweep(now: int, maxIdle: int) returns (n: nat)
      requires Valid()
      modifies this
      ensures Valid() && history == old(history) + [Event.Sweep(now, maxIdle)]
      ensures buckets == AfterSweep(old(buckets), now, maxIdle)
      ensures forall ip :: ip in buckets <==> ip in old(buckets) && now - old(buckets)[ip].last <= maxIdle
      ensures forall ip :: ip in buckets ==> buckets[ip] == old(buckets)[ip]
      ensures n == |set ip | ip in old(buckets) && now - old(buckets)[ip].last > maxIdle|
    {
      hide State, AfterSweep;
      StateSnoc(p, history, Event.Sweep(now, maxIdle));
      var cutoff := now - maxIdle;
      n := 0;
      var todo := buckets.Keys;
      while todo != {}
        invariant todo <= buckets.Keys
        invariant buckets == old(buckets) - Swept(old(buckets), now, maxIdle, old(buckets).Keys - todo)
        invariant n + |buckets| == |old(buckets)|
        invariant history == old(history)
      {
        var ip :| ip in todo;
        if buckets[ip].last < cutoff {
          MinusOne(buckets, ip);
          buckets := buckets - {ip};
          n := n + 1;
        }
        todo := todo - {ip};
      }
      SweptRest(old(buckets), now, maxIdle);
      SweptSize(old(buckets), now, maxIdle);
      history := history + [Event.Sweep(now, maxIdle)];
    }
  }
}
