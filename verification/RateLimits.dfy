/** The token bucket: what it grants over whole runs of attempts. */
module RateLimits {

  const TWO_TO_THE_64: nat := 0x1_0000_0000_0000_0000

  /** The clock readings of one attempt, which reads the clock up to four times. */
  datatype Clock = Clock(checked: int, refilled: int, waited: int, stamped: int) {
    predicate Forward() {
      checked <= refilled <= waited <= stamped
    }
  }

  /** The bucket's changing part; times and durations are ticks of the clock. */
  datatype Bucket = Bucket(tokens: nat, lastRefilled: int, lastAttempted: int)

  datatype Config = Config(limit: nat, period: int, minInterval: int) {
    predicate Valid() {
      limit < TWO_TO_THE_64
    }
  }

  /** max(limit, tokens + limit), the sum in 64 bits. */
  function Refilled(limit: nat, tokens: nat): nat {
    var sum := (tokens + limit) % TWO_TO_THE_64;
    if sum >= limit then sum else limit
  }

  class RateLimit {
    const config: Config
    var bucket: Bucket

    constructor (config: Config, bucket: Bucket)
      requires config.Valid() && bucket.tokens < TWO_TO_THE_64
      ensures this.config == config && this.bucket == bucket
    {
      this.config := config;
      this.bucket := bucket;
    }

    /** attempt() */
    method Attempt(clock: Clock) returns (granted: bool)
      requires config.Valid() && bucket.tokens < TWO_TO_THE_64
      modifies this`bucket
      ensures (bucket, granted) == AfterAttempt(config, old(bucket), clock)
      ensures bucket.tokens < TWO_TO_THE_64
    {
      if clock.checked >= bucket.lastRefilled + config.period {
        var sum := (bucket.tokens + config.limit) % TWO_TO_THE_64;
        bucket := bucket.(tokens := if config.limit >= sum then config.limit else sum);
        bucket := bucket.(lastRefilled := clock.refilled);
      }
      if bucket.tokens == 0 {
        return false;
      }
      if clock.waited - bucket.lastAttempted < config.minInterval {
        return false;
      }
      bucket := bucket.(tokens := bucket.tokens - 1);
      bucket := bucket.(lastAttempted := clock.stamped);
      granted := true;
    }

    /** next(): when to try again. */
    function Next(now: int): int
      reads this
    {
      NextTime(config, bucket, now)
    }
  }

  predicate Refills(c: Config, b: Bucket, clock: Clock) {
    clock.checked >= b.lastRefilled + c.period
  }

  function AfterRefill(c: Config, b: Bucket, clock: Clock): Bucket {
    if Refills(c, b, clock) then Bucket(Refilled(c.limit, b.tokens), clock.refilled, b.lastAttempted) else b
  }

  function AfterAttempt(c: Config, b: Bucket, clock: Clock): (Bucket, bool) {
    var r := AfterRefill(c, b, clock);
    if r.tokens > 0 && clock.waited - r.lastAttempted >= c.minInterval
    then (Bucket(r.tokens - 1, r.lastRefilled, clock.stamped), true)
    else (r, false)
  }

  function NextTime(c: Config, b: Bucket, now: int): int {
    if b.tokens > 0 then
      if now - b.lastAttempted >= c.minInterval then now
      else now + ((b.lastAttempted + c.minInterval) - now)
    else now + (b.lastRefilled + c.period - now)
  }

  // ---------------------------------------------------------------- whole runs

  /** Readings that never go back, within an attempt and from one to the next. */
  predicate Forward(clocks: seq<Clock>) {
    && (forall i :: 0 <= i < |clocks| ==> clocks[i].Forward())
    && forall i, j :: 0 <= i < j < |clocks| ==> clocks[i].stamped <= clocks[j].checked
  }

  /** The bucket after a run of attempts. */
  function After(c: Config, b: Bucket, clocks: seq<Clock>): Bucket {
    if clocks == [] then b
    else AfterAttempt(c, After(c, b, clocks[..|clocks| - 1]), clocks[|clocks| - 1]).0
  }

  function Granted(c: Config, b: Bucket, clocks: seq<Clock>): bool
    requires clocks != []
  {
    AfterAttempt(c, After(c, b, clocks[..|clocks| - 1]), clocks[|clocks| - 1]).1
  }

  function Grants(c: Config, b: Bucket, clocks: seq<Clock>): nat {
    if clocks == [] then 0
    else Grants(c, b, clocks[..|clocks| - 1]) + if Granted(c, b, clocks) then 1 else 0
  }

  function Refillings(c: Config, b: Bucket, clocks: seq<Clock>): nat {
    if clocks == [] then 0
    else
      var before := clocks[..|clocks| - 1];
      Refillings(c, b, before) + if Refills(c, After(c, b, before), clocks[|clocks| - 1]) then 1 else 0
  }

  /** When a run of attempts read the clock first. */
  function Start(clocks: seq<Clock>): int
    requires clocks != []
  {
    clocks[0].checked
  }

  function End(clocks: seq<Clock>): int
    requires clocks != []
  {
    clocks[|clocks| - 1].stamped
  }

  lemma ForwardPrefix(clocks: seq<Clock>)
    requires clocks != [] && Forward(clocks)
    ensures Forward(clocks[..|clocks| - 1])
  {
  }

  function Times(k: int, n: int): int {
    k * n
  }

  lemma TimesNext(k: int, n: int)
    ensures Times(k, n + 1) == Times(k, n) + k
    ensures Times(k, 0) == 0
  {
  }

  lemma TimesMonotone(k: nat, a: int, b: int)
    requires a <= b
    ensures Times(k, a) <= Times(k, b)
  {
    assert k * b - k * a == k * (b - a);
  }

  lemma TimesQuotient(d: int, q: int, t: int)
    requires d > 0 && Times(d, q) <= t
    ensures q <= t / d
  {
    hide Times;
    TimesNext(d, t / d);
    assert Times(d, t / d) == t - t % d by {
      DivMod(d, t);
    }
    if t / d < q {
      TimesMonotone(d, t / d + 1, q);
    }
  }

  lemma DivMod(d: int, t: int)
    requires d > 0
    ensures Times(d, t / d) == t - t % d
  {
  }

  /** Conservation: what was granted and what is left came from the start or from refills. */
  lemma {:induction false} TokensConserved(c: Config, b: Bucket, clocks: seq<Clock>)
    requires c.Valid()
    ensures Grants(c, b, clocks) + After(c, b, clocks).tokens <= b.tokens + Times(c.limit, Refillings(c, b, clocks))
  {
    hide Times;
    hide Refilled;
    if clocks == [] {
      TimesNext(c.limit, 0);
    } else {
      var before := clocks[..|clocks| - 1];
      TokensConserved(c, b, before);
      RefillAdds(c, After(c, b, before).tokens);
      TimesNext(c.limit, Refillings(c, b, before));
    }
  }

  lemma RefillAdds(c: Config, tokens: nat)
    ensures Refilled(c.limit, tokens) <= tokens + c.limit
  {
  }

  /** Exactly so, as long as 64 bits hold all the tokens there ever were. */
  lemma {:induction false} TokensConservedExactly(c: Config, b: Bucket, clocks: seq<Clock>)
    requires c.Valid() && b.tokens + Times(c.limit, Refillings(c, b, clocks)) < TWO_TO_THE_64
    ensures Grants(c, b, clocks) + After(c, b, clocks).tokens == b.tokens + Times(c.limit, Refillings(c, b, clocks))
  {
    hide Times;
    hide Refilled;
    if clocks == [] {
      TimesNext(c.limit, 0);
    } else {
      var before := clocks[..|clocks| - 1];
      TimesNext(c.limit, Refillings(c, b, before));
      TokensConservedExactly(c, b, before);
      if Refills(c, After(c, b, before), clocks[|clocks| - 1]) {
        RefillAddsExactly(c, After(c, b, before).tokens);
      }
    }
  }

  lemma RefillAddsExactly(c: Config, tokens: nat)
    requires tokens + c.limit < TWO_TO_THE_64
    ensures Refilled(c.limit, tokens) == tokens + c.limit
  {
  }

  lemma RefillGivesLimit(c: Config, tokens: nat)
    ensures Refilled(c.limit, tokens) >= c.limit
  {
  }

  /** The time of the attempt before this one. */
  function TimeBefore(b: Bucket, clocks: seq<Clock>, i: nat): int
    requires i <= |clocks|
  {
    if i == 0 then b.lastAttempted else clocks[i - 1].stamped
  }

  /** Each attempt comes at least the minimal interval after the one before it. */
  predicate Spaced(c: Config, b: Bucket, clocks: seq<Clock>) {
    forall i :: 0 <= i < |clocks| ==> clocks[i].waited - TimeBefore(b, clocks, i) >= c.minInterval
  }

  /**
    Nothing is refused while there are tokens: of attempts that keep the interval, as many are granted as the
    first of them found, up to the limit.
   */
  lemma {:induction false} SpacedAttemptsGranted(c: Config, b: Bucket, clocks: seq<Clock>)
    requires clocks != [] && Spaced(c, b, clocks)
    requires |clocks| <= c.limit && |clocks| <= AfterRefill(c, b, clocks[0]).tokens
    ensures Grants(c, b, clocks) == |clocks| && Granted(c, b, clocks)
    ensures After(c, b, clocks).lastAttempted == clocks[|clocks| - 1].stamped
    ensures After(c, b, clocks).tokens >= (if c.limit < AfterRefill(c, b, clocks[0]).tokens then c.limit
      else AfterRefill(c, b, clocks[0]).tokens) - |clocks|
  {
    hide Refilled;
    var n := |clocks| - 1;
    if n > 0 {
      var before := clocks[..n];
      forall i | 0 <= i < n
        ensures before[i].waited - TimeBefore(b, before, i) >= c.minInterval
      {
        assert clocks[i].waited - TimeBefore(b, clocks, i) >= c.minInterval;
      }
      SpacedAttemptsGranted(c, b, before);
      RefillGivesLimit(c, After(c, b, before).tokens);
      assert clocks[n].waited - TimeBefore(b, clocks, n) >= c.minInterval;
    } else {
      assert clocks[..0] == [];
      assert clocks[0].waited - TimeBefore(b, clocks, 0) >= c.minInterval;
    }
  }

  /** Refills are at least a period apart, counting back from the last one. */
  lemma {:induction false} RefillsApart(c: Config, b: Bucket, clocks: seq<Clock>)
    requires clocks != [] && Forward(clocks) && c.period >= 0
    ensures var r := Refillings(c, b, clocks);
      && (r == 0 ==> After(c, b, clocks).lastRefilled == b.lastRefilled)
      && (r > 0 ==> Start(clocks) + Times(c.period, r - 1) <= After(c, b, clocks).lastRefilled <= End(clocks))
  {
    hide Times;
    hide Refilled;
    var n := |clocks| - 1;
    var before, clock := clocks[..n], clocks[n];
    assert clock.Forward();
    TimesNext(c.period, 0);
    if n > 0 {
      ForwardPrefix(clocks);
      RefillsApart(c, b, before);
      assert before[0] == clocks[0] && End(before) <= clock.checked;
      assert clocks[0].Forward();
      assert clocks[0].checked <= clocks[0].stamped <= clock.checked;
      TimesNext(c.period, Refillings(c, b, before) - 1);
    } else {
      assert Refillings(c, b, before) == 0;
    }
  }

  /**
    Main result: with a clock that does not go back, a run grants at most the tokens at the start and one
    limit for each period begun.
   */
  lemma GrantsBounded(c: Config, b: Bucket, clocks: seq<Clock>)
    requires c.Valid() && c.period > 0 && clocks != [] && Forward(clocks)
    ensures Grants(c, b, clocks) <= b.tokens + c.limit * (1 + (End(clocks) - Start(clocks)) / c.period)
  {
    hide Times;
    var r := Refillings(c, b, clocks);
    var t := End(clocks) - Start(clocks);
    TokensConserved(c, b, clocks);
    RefillsApart(c, b, clocks);
    StartBeforeEnd(clocks);
    TimesNext(c.period, 0);
    TimesQuotient(c.period, if r > 0 then r - 1 else 0, t);
    TimesMonotone(c.limit, r, 1 + t / c.period);
    TimesMeans(c.limit, 1 + t / c.period);
  }

  lemma TimesMeans(k: int, n: int)
    ensures Times(k, n) == k * n
  {
  }

  lemma StartBeforeEnd(clocks: seq<Clock>)
    requires clocks != [] && Forward(clocks)
    ensures Start(clocks) <= End(clocks)
  {
    assert clocks[0].Forward() && clocks[|clocks| - 1].Forward();
  }

  /** Each grant comes at least the minimal interval after the one before it. */
  lemma {:induction false} GrantsApart(c: Config, b: Bucket, clocks: seq<Clock>, i: nat, j: nat)
    requires Forward(clocks) && i < j < |clocks|
    requires Granted(c, b, clocks[..i + 1]) && Granted(c, b, clocks[..j + 1])
    ensures clocks[j].stamped - clocks[i].stamped >= c.minInterval
  {
    LastGrant(c, b, clocks, i, j);
    assert clocks[..j + 1][..j] == clocks[..j];
    assert clocks[j].Forward();
  }

  /** A grant is remembered, or overtaken by a later one. */
  lemma {:induction false} LastGrant(c: Config, b: Bucket, clocks: seq<Clock>, i: nat, n: nat)
    requires Forward(clocks) && i < n <= |clocks|
    requires Granted(c, b, clocks[..i + 1])
    ensures clocks[i].stamped <= After(c, b, clocks[..n]).lastAttempted
    decreases n
  {
    assert clocks[..n][..n - 1] == clocks[..n - 1];
    if n == i + 1 {
    } else {
      LastGrant(c, b, clocks, i, n - 1);
      assert clocks[n - 1].Forward() && clocks[i].stamped <= clocks[n - 1].checked;
    }
  }

  /**
    After a refusal, trying again at the time that next() names is granted, or refused for the interval
    alone, and then the next time named is granted.
   */
  lemma TwoWaits(c: Config, b: Bucket, first: Clock, second: Clock, third: Clock, now1: int, now2: int)
    requires c.Valid() && c.limit > 0 && c.period >= 0
    requires Forward([first, second, third]) && !AfterAttempt(c, b, first).1
    requires second.checked >= NextTime(c, AfterAttempt(c, b, first).0, now1)
    requires third.checked >= NextTime(c, AfterAttempt(c, AfterAttempt(c, b, first).0, second).0, now2)
    ensures AfterAttempt(c, AfterAttempt(c, b, first).0, second).1 ||
      AfterAttempt(c, AfterAttempt(c, AfterAttempt(c, b, first).0, second).0, third).1
  {
    var clocks := [first, second, third];
    assert clocks[1].Forward() && clocks[2].Forward();
  }

  /** And next() is not later than need be: an attempt that ends before a time to come is refused. */
  lemma NextIsEarliest(c: Config, b: Bucket, clock: Clock, now: int)
    requires clock.Forward() && now < NextTime(c, b, now)
    requires clock.stamped < NextTime(c, b, now)
    ensures !AfterAttempt(c, b, clock).1
  {
  }
}
