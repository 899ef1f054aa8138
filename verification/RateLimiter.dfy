/**
 The production limiter: the script the broker runs atomically, the check around it, the
 retry advice and the expiry of idle buckets. The script is related to the in-memory
 bucket that stands in for it.
 */
module RateLimiter {
  import opened TokenBucket

  // ---------------------------------------------------------------- the script

  function ScriptLevel(b: Bucket, limit: Limit, now: real): real {
    match b
    case Fresh => limit.capacity
    case Held(tokens, at) =>
      var refill := Earned(limit.perSecond, at, now);
      if refill > 0.0 then Min(limit.capacity, tokens + refill) else tokens
  }

  function ScriptAt(b: Bucket, limit: Limit, now: real): real {
    if b.Held? && !(Earned(limit.perSecond, b.at, now) > 0.0) then b.at else now
  }

  predicate ScriptAdmits(b: Bucket, limit: Limit, now: real) {
    ScriptLevel(b, limit, now) >= 1.0
  }

  function ScriptNext(b: Bucket, limit: Limit, now: real): Bucket {
    Held(ScriptLevel(b, limit, now) - (if ScriptAdmits(b, limit, now) then 1.0 else 0.0), ScriptAt(b, limit, now))
  }

  function ScriptRun(b: Bucket, limit: Limit, times: seq<real>): (verdicts: seq<bool>)
    ensures |verdicts| == |times|
    decreases |times|
  {
    if times == [] then []
    else [ScriptAdmits(b, limit, times[0])] + ScriptRun(ScriptNext(b, limit, times[0]), limit, times[1..])
  }

  // ---------------------------------------------------------------- the check

  datatype Outcome =
    | Unavailable
    | Verdict(allowed: bool, remaining: real, retryAfter: int)

  function Ceiling(x: real): int {
    -((-x).Floor)
  }

  function SecondsUntilAToken(remaining: real, perSecond: real): int
    requires perSecond > 0.0
  {
    var wait := Ceiling((1.0 - remaining) / perSecond);
    if wait < 1 then 1 else wait
  }

  function PerMinute(capacity: int): Limit {
    Limit(capacity as real, capacity as real / 60.0)
  }

  /** Whole seconds an idle bucket is kept. */
  function TimeToLive(capacity: int): int
    requires capacity >= 1
  {
    var twice := (PerMinute(capacity).capacity / PerMinute(capacity).perSecond).Floor * 2;
    if twice < 60 then 60 else twice
  }

  class Limiter {
    var keys: Keys
    var reachable: bool

    constructor (reachable: bool)
      ensures keys == map[] && this.reachable == reachable
    {
      keys := map[];
      this.reachable := reachable;
    }

    /** The broker's side of the call. */
    method Eval(key: string, limit: Limit, now: real) returns (allowed: int, left: real)
      requires reachable
      modifies this`keys
      ensures keys == old(keys)[key := ScriptNext(Find(old(keys), key), limit, now)]
      ensures allowed == if ScriptAdmits(Find(old(keys), key), limit, now) then 1 else 0
      ensures left == keys[key].tokens
    {
      var tokens, at := limit.capacity, now;
      if key in keys && keys[key].Held? {
        tokens, at := keys[key].tokens, keys[key].at;
      }
      var refill := Earned(limit.perSecond, at, now);
      if refill > 0.0 {
        tokens := Min(limit.capacity, tokens + refill);
        at := now;
      }
      allowed := 0;
      if tokens >= 1.0 {
        tokens := tokens - 1.0;
        allowed := 1;
      }
      keys := keys[key := Held(tokens, at)];
      left := tokens;
    }

    method Check(organization: string, capacity: int, now: real) returns (r: Outcome)
      modifies this`keys
      ensures capacity < 1 ==> r == Verdict(false, 0.0, 0) && keys == old(keys)
      ensures capacity >= 1 && !reachable ==> r == Unavailable && keys == old(keys)
      ensures capacity >= 1 && reachable ==>
        var b := Find(old(keys), organization);
        && keys == old(keys)[organization := ScriptNext(b, PerMinute(capacity), now)]
        && r.Verdict?
        && r.allowed == ScriptAdmits(b, PerMinute(capacity), now)
        && r.remaining == keys[organization].tokens
        && (!r.allowed ==> r.retryAfter == SecondsUntilAToken(r.remaining, PerMinute(capacity).perSecond))
      // A new tenant finds its configured number of tokens, and this call takes one.
      ensures capacity >= 1 && reachable && organization !in old(keys) ==>
        && r == Verdict(true, capacity as real - 1.0, 0)
        && keys == old(keys)[organization := Held(capacity as real - 1.0, now)]
      // Fails closed: an admission needs a reachable store, a limit and a token.
      ensures r.Verdict? && r.allowed ==>
        reachable && capacity >= 1 && ScriptLevel(Find(old(keys), organization), PerMinute(capacity), now) >= 1.0
    {
      if capacity < 1 {
        return Verdict(false, 0.0, 0);
      }
      if !reachable {
        return Unavailable;
      }
      var limit := PerMinute(capacity);
      var allowed, remaining := Eval(organization, limit, now);
      if allowed == 1 {
        return Verdict(true, remaining, 0);
      }
      return Verdict(false, remaining, SecondsUntilAToken(remaining, limit.perSecond));
    }

    /** One check after the other for one organization. */
    method CheckEach(organization: string, capacity: int, times: seq<real>) returns (verdicts: seq<bool>)
      requires capacity >= 1 && reachable
      modifies this`keys
      ensures verdicts == ScriptRun(Find(old(keys), organization), PerMinute(capacity), times)
    {
      verdicts := [];
      ghost var limit := PerMinute(capacity);
      for i := 0 to |times|
        invariant verdicts + ScriptRun(Find(keys, organization), limit, times[i..])
               == ScriptRun(Find(old(keys), organization), limit, times)
      {
        ghost var b := Find(keys, organization);
        var r := Check(organization, capacity, times[i]);
        assert Find(keys, organization) == ScriptNext(b, limit, times[i]);
        OneMoreVerdict(verdicts, b, limit, times, i);
        verdicts := verdicts + [r.allowed];
      }
    }

    /**
     One new tenant on a forward clock: every window admits at most the configured number and a
     sixtieth of it for each second, no choice of calls that does so is larger, and of the calls at
     the first instant exactly the configured number is admitted.
     */
    method CheckNewTenant(organization: string, capacity: int, times: seq<real>) returns (verdicts: seq<bool>)
      requires capacity >= 1 && reachable && organization !in keys && Ascending(times)
      modifies this`keys
      ensures |verdicts| == |times|
      ensures KeepsTheLimit(capacity, capacity as real / 60.0, times, verdicts)
    {
      verdicts := CheckEach(organization, capacity, times);
      ScriptKeepsTheLimit(PerMinute(capacity), capacity, times);
    }
  }

  lemma OneMoreVerdict(verdicts: seq<bool>, b: Bucket, limit: Limit, times: seq<real>, i: nat)
    requires i < |times|
    ensures verdicts + ScriptRun(b, limit, times[i..])
         == verdicts + [ScriptAdmits(b, limit, times[i])]
            + ScriptRun(ScriptNext(b, limit, times[i]), limit, times[i + 1..])
  {
    assert times[i..][0] == times[i] && times[i..][1..] == times[i + 1..];
  }

  lemma BestChoice(limit: Limit, times: seq<real>, pick: seq<bool>)
    requires Live(limit) && Ascending(times) && |pick| == |times|
    requires WindowsHold(limit.capacity, limit.perSecond, times, pick)
    ensures multiset(pick)[true] <= multiset(ScriptRun(Fresh, limit, times))[true]
  {
    if times != [] {
      ScriptRunIsAdmitAtHighWater(limit, times);
      EnvelopeIsWindows(limit, times, pick);
      BucketIsOptimal(limit, times, pick);
      CountIsMultiplicity(pick);
      CountIsMultiplicity(ScriptRun(Fresh, limit, times));
    }
  }

  lemma RunKeepsWindows(limit: Limit, times: seq<real>)
    requires Live(limit) && Ascending(times)
    ensures WindowsHold(limit.capacity, limit.perSecond, times, ScriptRun(Fresh, limit, times))
  {
    if times != [] {
      ScriptRunIsAdmitAtHighWater(limit, times);
      WindowBound(limit, times);
      EnvelopeIsWindows(limit, times, ScriptRun(Fresh, limit, times));
    }
  }

  /** The script's run over a forward clock, for a limit of `capacity` calls. */
  ghost predicate KeepsTheLimit(capacity: nat, perSecond: real, times: seq<real>, verdicts: seq<bool>)
    requires |times| == |verdicts|
  {
    && WindowsHold(capacity as real, perSecond, times, verdicts)
    && (forall pick :: |pick| == |times| && WindowsHold(capacity as real, perSecond, times, pick) ==>
          multiset(pick)[true] <= multiset(verdicts)[true])
    && (forall i: nat :: i < |times| && times[i] == times[0] ==> (verdicts[i] <==> i < capacity))
  }

  lemma ScriptKeepsTheLimit(limit: Limit, capacity: nat, times: seq<real>)
    requires Live(limit) && limit.capacity == capacity as real && capacity >= 1 && Ascending(times)
    ensures KeepsTheLimit(capacity, limit.perSecond, times, ScriptRun(Fresh, limit, times))
  {
    RunKeepsWindows(limit, times);
    forall pick | |pick| == |times| && WindowsHold(capacity as real, limit.perSecond, times, pick)
      ensures multiset(pick)[true] <= multiset(ScriptRun(Fresh, limit, times))[true]
    {
      BestChoice(limit, times, pick);
    }
    forall i: nat | i < |times| && times[i] == times[0] ensures ScriptRun(Fresh, limit, times)[i] <==> i < capacity {
      FirstInstant(limit, capacity, times, i);
    }
  }

  /** At one instant a bucket admits as many calls as it holds whole tokens. */
  lemma {:induction false} SameInstant(limit: Limit, tokens: real, times: seq<real>, left: nat, i: nat)
    requires Live(limit) && tokens == left as real && i < |times| && forall j :: 0 <= j <= i ==> times[j] == times[0]
    ensures ScriptRun(Held(tokens, times[0]), limit, times)[i] <==> i < left
    decreases i
  {
    var b := Held(tokens, times[0]);
    EarnedSign(limit.perSecond, times[0], times[0]);
    if i > 0 {
      var next := ScriptNext(b, limit, times[0]);
      assert times[1..][0] == times[0];
      assert next == Held(if left > 0 then tokens - 1.0 else tokens, times[0]);
      SameInstant(limit, next.tokens, times[1..], if left > 0 then left - 1 else 0, i - 1);
    }
  }

  lemma FirstInstant(limit: Limit, capacity: nat, times: seq<real>, i: nat)
    requires Live(limit) && limit.capacity == capacity as real && capacity >= 1
    requires i < |times| && forall j :: 0 <= j <= i ==> times[j] == times[0]
    ensures ScriptRun(Fresh, limit, times)[i] <==> i < capacity
  {
    assert ScriptNext(Fresh, limit, times[0]) == Held(capacity as real - 1.0, times[0]);
    if i > 0 {
      assert times[1..][0] == times[0];
      SameInstant(limit, capacity as real - 1.0, times[1..], capacity - 1, i - 1);
    }
  }

  // ---------------------------------------------------------------- the script against the stand-in

  predicate Live(limit: Limit) {
    limit.capacity >= 0.0 && limit.perSecond > 0.0
  }

  ghost predicate InRange(b: Bucket, limit: Limit) {
    b.Held? ==> 0.0 <= b.tokens <= limit.capacity
  }

  function Later(from: real, now: real): real {
    if from > now then from else now
  }

  /** The latest instant seen so far, call by call. */
  function HighWater(from: real, times: seq<real>): (high: seq<real>)
    ensures |high| == |times|
    decreases |times|
  {
    if times == [] then []
    else [Later(from, times[0])] + HighWater(Later(from, times[0]), times[1..])
  }

  lemma EarnedSign(rate: real, from: real, to: real)
    requires rate > 0.0
    ensures Earned(rate, from, to) > 0.0 <==> from < to
    ensures from == to ==> Earned(rate, from, to) == 0.0
  {
  }

  /** One call of the script is one call of the stand-in at the high-water mark of the clock. */
  lemma ScriptIsNextAtHighWater(b: Bucket, limit: Limit, now: real)
    requires Live(limit) && InRange(b, limit)
    ensures var at := if b.Held? then Later(b.at, now) else now;
            && ScriptNext(b, limit, now) == Next(b, limit, at)
            && ScriptAdmits(b, limit, now) == Admits(b, limit, at)
    ensures InRange(ScriptNext(b, limit, now), limit)
  {
    if b.Held? {
      EarnedSign(limit.perSecond, b.at, now);
      EarnedSign(limit.perSecond, b.at, b.at);
    }
  }

  lemma {:induction false} HeldScriptRun(b: Bucket, limit: Limit, times: seq<real>)
    requires Live(limit) && InRange(b, limit) && b.Held?
    ensures ScriptRun(b, limit, times) == Admit(b, limit, HighWater(b.at, times))
    decreases |times|
  {
    if times != [] {
      ScriptIsNextAtHighWater(b, limit, times[0]);
      HeldScriptRun(ScriptNext(b, limit, times[0]), limit, times[1..]);
      var high := HighWater(b.at, times);
      assert high[1..] == HighWater(Later(b.at, times[0]), times[1..]);
    }
  }

  lemma {:induction false} HighWaterAscends(from: real, times: seq<real>)
    ensures forall i :: 0 <= i < |times| ==> HighWater(from, times)[i] >= from
    ensures Ascending(HighWater(from, times))
    decreases |times|
  {
    if times != [] {
      HighWaterAscends(Later(from, times[0]), times[1..]);
    }
  }

  lemma {:induction false} HighWaterOfForwardClock(from: real, times: seq<real>)
    requires Ascending(times) && (times != [] ==> from <= times[0])
    ensures HighWater(from, times) == times
    decreases |times|
  {
    if times != [] {
      HighWaterOfForwardClock(times[0], times[1..]);
    }
  }

  /**
   On any clock, forward or not, the script gives the verdicts the stand-in gives on the
   high-water mark of that clock; on a clock that never goes back they are the same bucket.
   */
  lemma ScriptRunIsAdmitAtHighWater(limit: Limit, times: seq<real>)
    requires Live(limit) && times != []
    ensures ScriptRun(Fresh, limit, times) == Admit(Fresh, limit, HighWater(times[0], times))
    ensures Ascending(times) ==> ScriptRun(Fresh, limit, times) == Admit(Fresh, limit, times)
  {
    ScriptIsNextAtHighWater(Fresh, limit, times[0]);
    HeldScriptRun(ScriptNext(Fresh, limit, times[0]), limit, times[1..]);
    if Ascending(times) {
      HighWaterOfForwardClock(times[0], times);
    }
    var high := HighWater(times[0], times);
    assert high[1..] == HighWater(times[0], times[1..]);
  }

  /** One call agrees with the stand-in exactly when the clock has not gone back. */
  lemma ScriptAgreesIffClockHeld(b: Bucket, limit: Limit, now: real)
    requires Live(limit) && InRange(b, limit) && b.Held?
    ensures ScriptNext(b, limit, now) == Next(b, limit, now) <==> b.at <= now
  {
    ScriptIsNextAtHighWater(b, limit, now);
  }

  /** On any clock the script keeps every window of its high-water mark inside the envelope. */
  lemma ScriptWindowBound(limit: Limit, times: seq<real>)
    requires Live(limit) && times != []
    ensures WithinEnvelope(limit, HighWater(times[0], times), ScriptRun(Fresh, limit, times))
  {
    ScriptRunIsAdmitAtHighWater(limit, times);
    HighWaterAscends(times[0], times);
    WindowBound(limit, HighWater(times[0], times));
  }

  // ---------------------------------------------------------------- retry advice

  lemma CeilingIsLeast(x: real, w: int)
    ensures w >= Ceiling(x) <==> w as real >= x
  {
    var f := (-x).Floor;
    assert f as real <= -x < f as real + 1.0;
    if w >= -f {
      assert w as real >= (-f) as real;
    } else {
      assert w as real <= (-f - 1) as real;
    }
  }

  lemma QuotientBound(w: real, x: real, rate: real)
    requires rate > 0.0
    ensures w >= x / rate <==> w * rate >= x
  {
    var q := x / rate;
    assert q * rate == x;
    if w >= q {
      assert (w - q) * rate >= 0.0;
    } else {
      assert (q - w) * rate > 0.0;
    }
  }

  /** After a refusal, waiting `w` whole seconds is enough exactly when `w` reaches the advice. */
  lemma RetryAdviceIsExact(b: Bucket, capacity: int, now: real, w: nat)
    requires capacity >= 1 && InRange(b, PerMinute(capacity)) && (b.Held? ==> b.at <= now)
    requires !ScriptAdmits(b, PerMinute(capacity), now)
    ensures var limit, refused := PerMinute(capacity), ScriptNext(b, PerMinute(capacity), now);
            ScriptAdmits(refused, limit, now + w as real) <==> w >= SecondsUntilAToken(refused.tokens, limit.perSecond)
  {
    var limit := PerMinute(capacity);
    var refused := ScriptNext(b, limit, now);
    ScriptIsNextAtHighWater(b, limit, now);
    EarnedSign(limit.perSecond, now, now + w as real);
    var missing := 1.0 - refused.tokens;
    QuotientBound(w as real, missing, limit.perSecond);
    QuotientBound(0.0, missing, limit.perSecond);
    CeilingIsLeast(missing / limit.perSecond, w);
    CeilingIsLeast(missing / limit.perSecond, 0);
    assert Earned(limit.perSecond, now, now + w as real) == w as real * limit.perSecond;
  }

  // ---------------------------------------------------------------- forgetting idle buckets

  lemma TimeToLiveRefills(capacity: int)
    requires capacity >= 1
    ensures TimeToLive(capacity) == 120
    ensures forall from, to :: to - from >= 60.0 ==> Earned(PerMinute(capacity).perSecond, from, to) >= capacity as real
  {
    var c := capacity as real;
    var rate := c / 60.0;
    assert rate * 60.0 == c;
    QuotientBound(60.0, c, rate);
    assert c / rate == 60.0 by {
      var q := c / rate;
      assert q * rate == c;
      assert (q - 60.0) * rate == 0.0;
    }
    forall from: real, to: real | to - from >= 60.0 ensures Earned(rate, from, to) >= c {
      assert (to - from - 60.0) * rate >= 0.0;
    }
  }

  /** Calls with an expiry in front of each: `expired` says which found the bucket gone. */
  function ExpiringRun(b: Bucket, limit: Limit, times: seq<real>, expired: seq<bool>): seq<bool>
    requires |times| == |expired|
    decreases |times|
  {
    if times == [] then []
    else
      var found := if expired[0] then Fresh else b;
      [ScriptAdmits(found, limit, times[0])]
        + ExpiringRun(ScriptNext(found, limit, times[0]), limit, times[1..], expired[1..])
  }

  /**
   A bucket is expired only when the broker's own clock, at the instants `broker`, has counted
   its time to live since the last call touched it.
   */
  ghost predicate ExpiresOnlyIdle(b: Bucket, touched: real, capacity: int, times: seq<real>, broker: seq<real>,
                                  expired: seq<bool>)
    requires capacity >= 1 && |times| == |broker| == |expired|
    decreases |times|
  {
    times == [] ||
    (&& (expired[0] && b.Held? ==> broker[0] - touched >= TimeToLive(capacity) as real)
     && ExpiresOnlyIdle(ScriptNext(if expired[0] then Fresh else b, PerMinute(capacity), times[0]), broker[0],
                        capacity, times[1..], broker[1..], expired[1..]))
  }

  /** When a bucket expires, the limiter's clock has run at least half as far as the broker's since the last call. */
  ghost predicate ClockKeepsUp(b: Bucket, touched: real, capacity: int, times: seq<real>, broker: seq<real>,
                               expired: seq<bool>)
    requires capacity >= 1 && |times| == |broker| == |expired|
    decreases |times|
  {
    times == [] ||
    (&& (expired[0] && b.Held? ==> 2.0 * (times[0] - b.at) >= broker[0] - touched)
     && ClockKeepsUp(ScriptNext(if expired[0] then Fresh else b, PerMinute(capacity), times[0]), broker[0],
                     capacity, times[1..], broker[1..], expired[1..]))
  }

  /**
   Forgetting idle buckets changes no verdict, as long as the limiter's clock runs at least
   half as fast as the broker's: the time to live is twice the time a bucket needs to refill.
   */
  lemma {:induction false} ForgettingIsInvisible(b: Bucket, touched: real, capacity: int, times: seq<real>,
                                                 broker: seq<real>, expired: seq<bool>)
    requires capacity >= 1 && |times| == |broker| == |expired| && InRange(b, PerMinute(capacity))
    requires ExpiresOnlyIdle(b, touched, capacity, times, broker, expired)
    requires ClockKeepsUp(b, touched, capacity, times, broker, expired)
    ensures ExpiringRun(b, PerMinute(capacity), times, expired) == ScriptRun(b, PerMinute(capacity), times)
    decreases |times|
  {
    if times != [] {
      var limit := PerMinute(capacity);
      ScriptIsNextAtHighWater(b, limit, times[0]);
      TimeToLiveRefills(capacity);
      if expired[0] && b.Held? {
        assert times[0] - b.at >= 60.0;
        assert ScriptNext(b, limit, times[0]) == ScriptNext(Fresh, limit, times[0]);
      }
      ForgettingIsInvisible(ScriptNext(b, limit, times[0]), broker[0], capacity, times[1..], broker[1..], expired[1..]);
    }
  }

  /** Where the limiter's clock stands still, forgetting an empty bucket admits a call. */
  lemma StoppedClockForgets(capacity: int)
    requires capacity >= 1
    ensures var b, times, broker, expired := Held(0.0, 0.0), [0.0], [120.0], [true];
            && ExpiresOnlyIdle(b, 0.0, capacity, times, broker, expired)
            && ExpiringRun(b, PerMinute(capacity), times, expired) == [true]
            && ScriptRun(b, PerMinute(capacity), times) == [false]
  {
    TimeToLiveRefills(capacity);
    var limit, b := PerMinute(capacity), Held(0.0, 0.0);
    assert Earned(limit.perSecond, 0.0, 0.0) == 0.0 * limit.perSecond == 0.0;
    assert ScriptAdmits(Fresh, limit, 0.0) && !ScriptAdmits(b, limit, 0.0);
  }
}
