/**
 The in-memory token bucket of the Phase 12 gate: one bucket per key, refilled by
 elapsed time, capped, and spent by one token per admitted call.
 */
module TokenBucket {
  datatype Limit = Limit(capacity: real, perSecond: real)

  /** What the dictionary holds for a key; `Fresh` is a key it does not hold yet. */
  datatype Bucket = Fresh | Held(tokens: real, at: real)

  type Keys = map<string, Bucket>

  datatype Call = Call(key: string, now: real)

  function Min(a: real, b: real): real {
    if a <= b then a else b
  }

  function Earned(perSecond: real, from: real, to: real): real {
    (to - from) * perSecond
  }

  function Find(keys: Keys, key: string): Bucket {
    if key in keys then keys[key] else Fresh
  }

  /** Tokens available at `now`, before the call spends anything. */
  function Level(b: Bucket, limit: Limit, now: real): real {
    match b
    case Fresh => limit.capacity
    case Held(tokens, at) => Min(limit.capacity, tokens + Earned(limit.perSecond, at, now))
  }

  predicate Admits(b: Bucket, limit: Limit, now: real) {
    Level(b, limit, now) >= 1.0
  }

  /** The bucket after one call that spends a token exactly when `spend` holds. */
  function Spend(b: Bucket, limit: Limit, now: real, spend: bool): Bucket {
    Held(Level(b, limit, now) - (if spend then 1.0 else 0.0), now)
  }

  function Next(b: Bucket, limit: Limit, now: real): Bucket {
    Spend(b, limit, now, Admits(b, limit, now))
  }

  class Memory {
    var keys: Keys

    constructor ()
      ensures keys == map[]
    {
      keys := map[];
    }

    method Eval(key: string, capacity: real, perSecond: real, now: real) returns (allowed: int, left: real)
      modifies this
      ensures allowed == if Admits(Find(old(keys), key), Limit(capacity, perSecond), now) then 1 else 0
      ensures left == Level(Find(old(keys), key), Limit(capacity, perSecond), now) - allowed as real
      ensures keys == old(keys)[key := Next(Find(old(keys), key), Limit(capacity, perSecond), now)]
      // In plain arithmetic: a new bucket is full, a held one has grown with time but not past its capacity.
      ensures var held := key in old(keys) && old(keys)[key].Held?;
              var grown := if held then old(keys)[key].tokens + (now - old(keys)[key].at) * perSecond else capacity;
              var full := if grown <= capacity then grown else capacity;
              && allowed == (if full >= 1.0 then 1 else 0) && left == full - allowed as real
              && keys == old(keys)[key := Held(left, now)]
    {
      var tokens, at := capacity, now;
      if key in keys && keys[key].Held? {
        tokens, at := keys[key].tokens, keys[key].at;
      }
      assert Earned(perSecond, now, now) == 0.0;
      tokens := tokens + Earned(perSecond, at, now);
      assert Level(Find(keys, key), Limit(capacity, perSecond), now) == Min(capacity, tokens);
      if tokens > capacity {
        tokens := capacity;
      }
      allowed := if tokens >= 1.0 then 1 else 0;
      tokens := tokens - allowed as real;
      keys := keys[key := Held(tokens, now)];
      left := tokens;
    }
  }

  // ---------------------------------------------------------------- runs

  /** The verdicts of a whole trace, in call order; `limits` gives each key's limit. */
  function Run(keys: Keys, calls: seq<Call>, limits: string -> Limit): (verdicts: seq<bool>)
    ensures |verdicts| == |calls|
    decreases |calls|
  {
    if calls == [] then []
    else
      var c := calls[0];
      var b := Find(keys, c.key);
      [Admits(b, limits(c.key), c.now)]
      + Run(keys[c.key := Next(b, limits(c.key), c.now)], calls[1..], limits)
  }

  function After(keys: Keys, calls: seq<Call>, limits: string -> Limit): Keys
    decreases |calls|
  {
    if calls == [] then keys
    else
      var c := calls[0];
      After(keys[c.key := Next(Find(keys, c.key), limits(c.key), c.now)], calls[1..], limits)
  }

  /** One bucket fed one list of instants. */
  function Admit(b: Bucket, limit: Limit, times: seq<real>): (verdicts: seq<bool>)
    ensures |verdicts| == |times|
    decreases |times|
  {
    if times == [] then []
    else [Admits(b, limit, times[0])] + Admit(Next(b, limit, times[0]), limit, times[1..])
  }

  /** `now` never goes backwards for a key, within the trace and against the buckets held. */
  predicate TimeOrdered(keys: Keys, calls: seq<Call>) {
    && (forall i, j :: 0 <= i < j < |calls| && calls[i].key == calls[j].key ==> calls[i].now <= calls[j].now)
    && (forall i :: 0 <= i < |calls| && Find(keys, calls[i].key).Held? ==> Find(keys, calls[i].key).at <= calls[i].now)
  }

  predicate Sensible(limit: Limit) {
    limit.capacity >= 0.0 && limit.perSecond >= 0.0
  }

  lemma TimeOrderedTail(keys: Keys, calls: seq<Call>, limits: string -> Limit)
    requires calls != [] && TimeOrdered(keys, calls)
    ensures var c := calls[0];
            TimeOrdered(keys[c.key := Next(Find(keys, c.key), limits(c.key), c.now)], calls[1..])
  {
  }

  /** A trace goes on from the dictionary its first part leaves. */
  lemma {:induction false} RunGoesOn(keys: Keys, a: seq<Call>, b: seq<Call>, limits: string -> Limit)
    ensures Run(keys, a + b, limits) == Run(keys, a, limits) + Run(After(keys, a, limits), b, limits)
    decreases |a|
  {
    if a == [] {
      assert a + b == b;
    } else {
      var c := a[0];
      var next := keys[c.key := Next(Find(keys, c.key), limits(c.key), c.now)];
      assert (a + b)[1..] == a[1..] + b;
      RunGoesOn(next, a[1..], b, limits);
    }
  }

  // ---------------------------------------------------------------- arithmetic

  /** Waiting in two stages earns what waiting once earns. */
  lemma Earn(rate: real, a: real, b: real, c: real)
    requires rate >= 0.0 && a <= b <= c
    ensures Earned(rate, a, c) == Earned(rate, a, b) + Earned(rate, b, c)
    ensures Earned(rate, a, b) >= 0.0 && Earned(rate, b, c) >= 0.0
    ensures Earned(rate, a, a) == 0.0
  {
  }

  // ---------------------------------------------------------------- bounds

  ghost predicate InBounds(keys: Keys, limits: string -> Limit) {
    forall k :: Find(keys, k).Held? ==> 0.0 <= Find(keys, k).tokens <= limits(k).capacity
  }

  /** No bucket ever holds a negative balance or more than its capacity. */
  lemma {:induction false} TokensStayInBounds(keys: Keys, calls: seq<Call>, limits: string -> Limit)
    requires forall k :: Sensible(limits(k))
    requires InBounds(keys, limits) && TimeOrdered(keys, calls)
    ensures InBounds(After(keys, calls, limits), limits)
    decreases |calls|
  {
    if calls != [] {
      var c := calls[0];
      var b, limit := Find(keys, c.key), limits(c.key);
      assert Sensible(limit);
      if b.Held? {
        Earn(limit.perSecond, b.at, b.at, c.now);
      }
      var next := keys[c.key := Next(b, limit, c.now)];
      assert InBounds(next, limits) by {
        forall k | Find(next, k).Held? ensures 0.0 <= Find(next, k).tokens <= limits(k).capacity {
          if k != c.key {
            assert Find(next, k) == Find(keys, k);
          } else {
            assert b.Held? ==> 0.0 <= b.tokens;
            assert Find(next, k) == Next(b, limit, c.now);
          }
        }
      }
      TimeOrderedTail(keys, calls, limits);
      TokensStayInBounds(next, calls[1..], limits);
    }
  }

  // ---------------------------------------------------------------- tenants do not interfere

  function TimesOf(key: string, calls: seq<Call>): seq<real> {
    if calls == [] then []
    else (if calls[0].key == key then [calls[0].now] else []) + TimesOf(key, calls[1..])
  }

  function VerdictsOf(key: string, calls: seq<Call>, verdicts: seq<bool>): seq<bool>
    requires |calls| == |verdicts|
  {
    if calls == [] then []
    else (if calls[0].key == key then [verdicts[0]] else []) + VerdictsOf(key, calls[1..], verdicts[1..])
  }

  /** In any interleaving a key gets the verdicts it would get alone on its own bucket. */
  lemma {:induction false} TenantsDoNotInterfere(keys: Keys, calls: seq<Call>, limits: string -> Limit, key: string)
    ensures VerdictsOf(key, calls, Run(keys, calls, limits))
         == Admit(Find(keys, key), limits(key), TimesOf(key, calls))
    decreases |calls|
  {
    if calls != [] {
      var c := calls[0];
      var next := keys[c.key := Next(Find(keys, c.key), limits(c.key), c.now)];
      TenantsDoNotInterfere(next, calls[1..], limits, key);
      assert Run(keys, calls, limits)[1..] == Run(next, calls[1..], limits);
      if c.key == key {
        var times := TimesOf(key, calls);
        assert times == [c.now] + TimesOf(key, calls[1..]);
        assert times[0] == c.now && times[1..] == TimesOf(key, calls[1..]);
        assert Find(next, key) == Next(Find(keys, key), limits(key), c.now);
      } else {
        assert TimesOf(key, calls) == TimesOf(key, calls[1..]);
        assert Find(next, key) == Find(keys, key);
      }
    }
  }

  // ---------------------------------------------------------------- refusals are free

  /** The two dictionaries give every call of the trace the same balance. */
  predicate Agree(k1: Keys, k2: Keys, calls: seq<Call>, limits: string -> Limit) {
    forall i :: 0 <= i < |calls| ==>
      Level(Find(k1, calls[i].key), limits(calls[i].key), calls[i].now)
      == Level(Find(k2, calls[i].key), limits(calls[i].key), calls[i].now)
  }

  lemma {:induction false} AgreeingRuns(k1: Keys, k2: Keys, calls: seq<Call>, limits: string -> Limit)
    requires Agree(k1, k2, calls, limits)
    ensures Run(k1, calls, limits) == Run(k2, calls, limits)
    decreases |calls|
  {
    if calls != [] {
      var c := calls[0];
      var n1 := k1[c.key := Next(Find(k1, c.key), limits(c.key), c.now)];
      var n2 := k2[c.key := Next(Find(k2, c.key), limits(c.key), c.now)];
      assert Agree(n1, n2, calls[1..], limits) by {
        forall i | 0 <= i < |calls[1..]|
          ensures Level(Find(n1, calls[1..][i].key), limits(calls[1..][i].key), calls[1..][i].now)
               == Level(Find(n2, calls[1..][i].key), limits(calls[1..][i].key), calls[1..][i].now)
        {
          assert calls[1..][i] == calls[i + 1];
        }
      }
      AgreeingRuns(n1, n2, calls[1..], limits);
    }
  }

  /** A refused call only restates the bucket: every later balance is what it was. */
  lemma RefusalKeepsLevels(b: Bucket, limit: Limit, now: real, later: real)
    requires Sensible(limit) && now <= later && (b.Held? ==> b.at <= now)
    requires !Admits(b, limit, now)
    ensures Level(Next(b, limit, now), limit, later) == Level(b, limit, later)
  {
    if b.Held? {
      Earn(limit.perSecond, b.at, now, later);
    } else {
      Earn(limit.perSecond, now, now, later);
    }
  }

  lemma RefusedFirstCallIsFree(keys: Keys, calls: seq<Call>, limits: string -> Limit)
    requires forall k :: Sensible(limits(k))
    requires calls != [] && TimeOrdered(keys, calls) && !Run(keys, calls, limits)[0]
    ensures Run(keys, calls[1..], limits) == Run(keys, calls, limits)[1..]
  {
    var c := calls[0];
    var b, limit := Find(keys, c.key), limits(c.key);
    var next := keys[c.key := Next(b, limit, c.now)];
    forall j | 0 <= j < |calls[1..]|
      ensures Level(Find(next, calls[1..][j].key), limits(calls[1..][j].key), calls[1..][j].now)
           == Level(Find(keys, calls[1..][j].key), limits(calls[1..][j].key), calls[1..][j].now)
    {
      var d := calls[1..][j];
      assert d == calls[j + 1];
      if d.key == c.key {
        RefusalKeepsLevels(b, limit, c.now, d.now);
      }
    }
    AgreeingRuns(next, keys, calls[1..], limits);
  }

  function Without<T>(s: seq<T>, i: nat): seq<T>
    requires i < |s|
  {
    s[..i] + s[i + 1..]
  }

  lemma WithoutTail<T>(x: T, s: seq<T>, i: nat)
    requires 0 < i <= |s|
    ensures Without([x] + s, i) == [x] + Without(s, i - 1)
  {
  }

  lemma RunCons(keys: Keys, c: Call, calls: seq<Call>, limits: string -> Limit)
    ensures var b := Find(keys, c.key);
            Run(keys, [c] + calls, limits)
            == [Admits(b, limits(c.key), c.now)] + Run(keys[c.key := Next(b, limits(c.key), c.now)], calls, limits)
  {
    assert ([c] + calls)[1..] == calls;
  }

  /** Deleting a refused call leaves every other verdict of the trace unchanged. */
  lemma {:induction false} RefusalsAreFree(keys: Keys, calls: seq<Call>, limits: string -> Limit, i: nat)
    requires forall k :: Sensible(limits(k))
    requires TimeOrdered(keys, calls)
    requires i < |calls| && !Run(keys, calls, limits)[i]
    ensures Run(keys, Without(calls, i), limits) == Without(Run(keys, calls, limits), i)
    decreases |calls|
  {
    if i == 0 {
      RefusedFirstCallIsFree(keys, calls, limits);
      assert Without(calls, 0) == calls[1..];
    } else {
      var c := calls[0];
      var next := keys[c.key := Next(Find(keys, c.key), limits(c.key), c.now)];
      TimeOrderedTail(keys, calls, limits);
      assert calls == [c] + calls[1..];
      RunCons(keys, c, calls[1..], limits);
      RunCons(keys, c, Without(calls[1..], i - 1), limits);
      WithoutTail(c, calls[1..], i);
      WithoutTail(Admits(Find(keys, c.key), limits(c.key), c.now), Run(next, calls[1..], limits), i);
      RefusalsAreFree(next, calls[1..], limits, i - 1);
    }
  }

  // ---------------------------------------------------------------- the envelope

  function Count(pick: seq<bool>): nat {
    if pick == [] then 0 else (if pick[0] then 1 else 0) + Count(pick[1..])
  }

  ghost predicate Ascending(times: seq<real>) {
    forall i, j :: 0 <= i <= j < |times| ==> times[i] <= times[j]
  }

  /** An admission choice that spends only when its own bucket holds a token. */
  ghost predicate Conforms(b: Bucket, limit: Limit, times: seq<real>, pick: seq<bool>)
    requires |times| == |pick|
    decreases |times|
  {
    times == [] ||
    (&& (pick[0] ==> Admits(b, limit, times[0]))
     && Conforms(Spend(b, limit, times[0], pick[0]), limit, times[1..], pick[1..]))
  }

  /** The calls picked among the first `n` fit a balance of `level` at the first instant. */
  ghost predicate PrefixFits(level: real, rate: real, times: seq<real>, pick: seq<bool>, n: nat)
    requires 0 < n <= |times| == |pick|
  {
    Count(pick[..n]) as real <= level + Earned(rate, times[0], times[n - 1])
  }

  ghost predicate PrefixesFit(level: real, rate: real, times: seq<real>, pick: seq<bool>)
    requires |times| == |pick|
  {
    forall n :: 0 < n <= |times| ==> PrefixFits(level, rate, times, pick, n)
  }

  /** Every window of the trace admits at most capacity + rate * (its length). */
  ghost predicate WithinEnvelope(limit: Limit, times: seq<real>, pick: seq<bool>)
    requires |times| == |pick|
  {
    forall i :: 0 <= i < |times| ==> PrefixesFit(limit.capacity, limit.perSecond, times[i..], pick[i..])
  }

  lemma EnvelopeTail(limit: Limit, times: seq<real>, pick: seq<bool>)
    requires |times| == |pick| > 0
    ensures WithinEnvelope(limit, times, pick)
       <==> PrefixesFit(limit.capacity, limit.perSecond, times, pick) && WithinEnvelope(limit, times[1..], pick[1..])
  {
    assert times[0..] == times && pick[0..] == pick;
    assert forall i :: 0 <= i < |times[1..]| ==> times[1..][i..] == times[i + 1..] && pick[1..][i..] == pick[i + 1..];
    if PrefixesFit(limit.capacity, limit.perSecond, times, pick) && WithinEnvelope(limit, times[1..], pick[1..]) {
      forall i | 0 <= i < |times| ensures PrefixesFit(limit.capacity, limit.perSecond, times[i..], pick[i..]) {
        if i > 0 {
          assert times[1..][i - 1..] == times[i..] && pick[1..][i - 1..] == pick[i..];
        }
      }
    }
  }

  /** One step of the prefix bound: what is left after the first instant bounds the rest. */
  lemma PrefixStep(level: real, limit: Limit, times: seq<real>, pick: seq<bool>, n: nat)
    requires Sensible(limit) && |times| == |pick| && 1 < n <= |times| && Ascending(times)
    requires PrefixFits(limit.capacity, limit.perSecond, times[1..], pick[1..], n - 1)
    ensures PrefixFits(level, limit.perSecond, times, pick, n)
       <==> PrefixFits(Level(Held(level - (if pick[0] then 1.0 else 0.0), times[0]), limit, times[1]),
                       limit.perSecond, times[1..], pick[1..], n - 1)
  {
    assert pick[..n][1..] == pick[1..][..n - 1];
    Earn(limit.perSecond, times[0], times[1], times[n - 1]);
  }

  lemma FirstPrefix(level: real, rate: real, times: seq<real>, pick: seq<bool>)
    requires |times| == |pick| > 0 && level >= 0.0
    ensures PrefixFits(level, rate, times, pick, 1) <==> (pick[0] ==> level >= 1.0)
  {
    assert pick[..1] == [pick[0]];
    assert Count(pick[..1]) == if pick[0] then 1 else 0;
    assert Earned(rate, times[0], times[0]) == 0.0;
  }

  /** Spending only from one's own bucket is the same as keeping inside the envelope. */
  lemma {:induction false} ConformsIffFits(b: Bucket, limit: Limit, times: seq<real>, pick: seq<bool>)
    requires Sensible(limit) && |times| == |pick| > 0 && Ascending(times)
    requires 0.0 <= Level(b, limit, times[0])
    ensures Conforms(b, limit, times, pick)
       <==> PrefixesFit(Level(b, limit, times[0]), limit.perSecond, times, pick)
            && WithinEnvelope(limit, times[1..], pick[1..])
    decreases |times|
  {
    var level := Level(b, limit, times[0]);
    var rest := Spend(b, limit, times[0], pick[0]);
    FirstPrefix(level, limit.perSecond, times, pick);
    if |times| == 1 {
      assert PrefixesFit(level, limit.perSecond, times, pick) <==> PrefixFits(level, limit.perSecond, times, pick, 1);
    } else if PrefixFits(level, limit.perSecond, times, pick, 1) {
      Earn(limit.perSecond, times[0], times[0], times[1]);
      ConformsIffFits(rest, limit, times[1..], pick[1..]);
      EnvelopeTail(limit, times[1..], pick[1..]);
      var level' := Level(rest, limit, times[1]);
      if WithinEnvelope(limit, times[1..], pick[1..]) {
        forall n | 1 < n <= |times|
          ensures PrefixFits(level, limit.perSecond, times, pick, n)
             <==> PrefixFits(level', limit.perSecond, times[1..], pick[1..], n - 1)
        {
          PrefixStep(level, limit, times, pick, n);
        }
        if PrefixesFit(level', limit.perSecond, times[1..], pick[1..]) {
          forall n | 0 < n <= |times| ensures PrefixFits(level, limit.perSecond, times, pick, n) {
            if n > 1 {
              assert PrefixFits(level', limit.perSecond, times[1..], pick[1..], n - 1);
            }
          }
        }
        if PrefixesFit(level, limit.perSecond, times, pick) {
          forall n | 0 < n <= |times[1..]| ensures PrefixFits(level', limit.perSecond, times[1..], pick[1..], n) {
            assert PrefixFits(level, limit.perSecond, times, pick, n + 1);
          }
        }
      } else if Conforms(b, limit, times, pick) {
        FitsTighter(level', limit, times[1..], pick[1..]);
      }
    }
  }

  /** A balance no larger than the capacity gives a bound no looser than the capacity's. */
  lemma FitsTighter(level: real, limit: Limit, times: seq<real>, pick: seq<bool>)
    requires |times| == |pick| && level <= limit.capacity
    ensures PrefixesFit(level, limit.perSecond, times, pick)
        ==> PrefixesFit(limit.capacity, limit.perSecond, times, pick)
  {
    if PrefixesFit(level, limit.perSecond, times, pick) {
      forall n | 0 < n <= |times| ensures PrefixFits(limit.capacity, limit.perSecond, times, pick, n) {
        assert PrefixFits(level, limit.perSecond, times, pick, n);
      }
    }
  }

  /**
   From a fresh bucket, a choice conforms to its own bucket exactly when every window
   admits at most capacity + rate * (its length).
   */
  lemma {:induction false} ConformsIffWithinEnvelope(limit: Limit, times: seq<real>, pick: seq<bool>)
    requires Sensible(limit) && |times| == |pick| && Ascending(times)
    ensures Conforms(Fresh, limit, times, pick) <==> WithinEnvelope(limit, times, pick)
  {
    if times != [] {
      ConformsIffFits(Fresh, limit, times, pick);
      EnvelopeTail(limit, times, pick);
    }
  }

  lemma {:induction false} AdmitConforms(b: Bucket, limit: Limit, times: seq<real>)
    ensures Conforms(b, limit, times, Admit(b, limit, times))
    decreases |times|
  {
    if times != [] {
      AdmitConforms(Next(b, limit, times[0]), limit, times[1..]);
    }
  }

  /** The bucket meets the envelope on every time-ordered list of calls. */
  lemma WindowBound(limit: Limit, times: seq<real>)
    requires Sensible(limit) && Ascending(times)
    ensures WithinEnvelope(limit, times, Admit(Fresh, limit, times))
  {
    AdmitConforms(Fresh, limit, times);
    ConformsIffWithinEnvelope(limit, times, Admit(Fresh, limit, times));
  }

  // ---------------------------------------------------------------- windows in plain terms

  lemma {:induction false} CountIsMultiplicity(pick: seq<bool>)
    ensures Count(pick) == multiset(pick)[true]
  {
    if pick != [] {
      CountIsMultiplicity(pick[1..]);
      assert pick == [pick[0]] + pick[1..];
    }
  }

  /** From call `i` to call `j - 1` at most capacity + rate * (the time between) calls are picked. */
  ghost predicate WindowHolds(capacity: real, perSecond: real, times: seq<real>, pick: seq<bool>, i: nat, j: nat)
    requires i < j <= |times| == |pick|
  {
    multiset(pick[i..j])[true] as real <= capacity + (times[j - 1] - times[i]) * perSecond
  }

  ghost predicate WindowsHold(capacity: real, perSecond: real, times: seq<real>, pick: seq<bool>)
    requires |times| == |pick|
  {
    forall i: nat, j: nat :: i < j <= |times| ==> WindowHolds(capacity, perSecond, times, pick, i, j)
  }

  lemma WindowIsPrefix(limit: Limit, times: seq<real>, pick: seq<bool>, i: nat, j: nat)
    requires |times| == |pick| && i < j <= |times|
    ensures PrefixFits(limit.capacity, limit.perSecond, times[i..], pick[i..], j - i)
       <==> WindowHolds(limit.capacity, limit.perSecond, times, pick, i, j)
  {
    assert pick[i..][..j - i] == pick[i..j];
    CountIsMultiplicity(pick[i..j]);
  }

  /** The envelope is the plain statement about the windows. */
  lemma EnvelopeIsWindows(limit: Limit, times: seq<real>, pick: seq<bool>)
    requires |times| == |pick|
    ensures WithinEnvelope(limit, times, pick) <==> WindowsHold(limit.capacity, limit.perSecond, times, pick)
  {
    if WithinEnvelope(limit, times, pick) {
      forall i: nat, j: nat | i < j <= |times|
        ensures WindowHolds(limit.capacity, limit.perSecond, times, pick, i, j)
      {
        assert PrefixesFit(limit.capacity, limit.perSecond, times[i..], pick[i..]);
        assert 0 < j - i <= |times[i..]|;
        WindowIsPrefix(limit, times, pick, i, j);
      }
    }
    if WindowsHold(limit.capacity, limit.perSecond, times, pick) {
      forall i: nat | i < |times| ensures PrefixesFit(limit.capacity, limit.perSecond, times[i..], pick[i..]) {
        WindowsFromHold(limit, times, pick, i);
      }
    }
  }

  lemma WindowsFromHold(limit: Limit, times: seq<real>, pick: seq<bool>, i: nat)
    requires i < |times| == |pick| && WindowsHold(limit.capacity, limit.perSecond, times, pick)
    ensures PrefixesFit(limit.capacity, limit.perSecond, times[i..], pick[i..])
  {
    forall n: nat | 0 < n <= |times[i..]|
      ensures PrefixFits(limit.capacity, limit.perSecond, times[i..], pick[i..], n)
    {
      WindowIsPrefix(limit, times, pick, i, i + n);
      assert WindowHolds(limit.capacity, limit.perSecond, times, pick, i, i + n) && i + n - i == n;
    }
  }

  // ---------------------------------------------------------------- optimality

  lemma {:induction false} GreedyDominates(g: Bucket, a: Bucket, limit: Limit, times: seq<real>, pick: seq<bool>,
                                           lead: nat)
    requires Sensible(limit) && |times| == |pick| && Ascending(times)
    requires g == a == Fresh || (g.Held? && a.Held? && g.at == a.at && a.tokens - g.tokens <= lead as real)
    requires times != [] && g.Held? ==> g.at <= times[0]
    requires Conforms(a, limit, times, pick)
    ensures Count(pick) <= lead + Count(Admit(g, limit, times))
    decreases |times|
  {
    if times != [] {
      var t := times[0];
      if g.Held? {
        Earn(limit.perSecond, g.at, g.at, t);
      }
      var ahead := lead + (if Admits(g, limit, t) then 1 else 0) - (if pick[0] then 1 else 0);
      assert Level(a, limit, t) - Level(g, limit, t) <= lead as real;
      assert ahead >= 0;
      GreedyDominates(Next(g, limit, t), Spend(a, limit, t, pick[0]), limit, times[1..], pick[1..], ahead);
      assert Admit(g, limit, times)[1..] == Admit(Next(g, limit, t), limit, times[1..]);
    }
  }

  /** No choice that keeps every window inside the envelope admits more calls than the bucket. */
  lemma {:induction false} BucketIsOptimal(limit: Limit, times: seq<real>, pick: seq<bool>)
    requires Sensible(limit) && |times| == |pick| && Ascending(times)
    requires WithinEnvelope(limit, times, pick)
    ensures Count(pick) <= Count(Admit(Fresh, limit, times))
  {
    ConformsIffWithinEnvelope(limit, times, pick);
    GreedyDominates(Fresh, Fresh, limit, times, pick, 0);
  }

  // ---------------------------------------------------------------- every tenant, every trace

  lemma {:induction false} TimesOfCalls(calls: seq<Call>, key: string, k: nat)
    requires k < |TimesOf(key, calls)|
    ensures exists i :: 0 <= i < |calls| && calls[i] == Call(key, TimesOf(key, calls)[k])
  {
    var own := if calls[0].key == key then 1 else 0;
    if k < own {
      assert calls[0] == Call(key, TimesOf(key, calls)[k]);
    } else {
      TimesOfCalls(calls[1..], key, k - own);
      var i :| 0 <= i < |calls[1..]| && calls[1..][i] == Call(key, TimesOf(key, calls[1..])[k - own]);
      assert calls[i + 1] == Call(key, TimesOf(key, calls)[k]);
    }
  }

  lemma {:induction false} TimesOfOrdered(calls: seq<Call>, key: string)
    requires TimeOrdered(map[], calls)
    ensures Ascending(TimesOf(key, calls))
  {
    if calls != [] {
      var rest := TimesOf(key, calls[1..]);
      TimesOfOrdered(calls[1..], key);
      if calls[0].key == key {
        forall j: nat | j < |rest| ensures calls[0].now <= rest[j] {
          TimesOfCalls(calls[1..], key, j);
          var i :| 0 <= i < |calls[1..]| && calls[1..][i] == Call(key, rest[j]);
          assert calls[i + 1] == Call(key, rest[j]);
        }
        assert TimesOf(key, calls) == [calls[0].now] + rest;
      }
    }
  }

  /**
   In every interleaved trace each tenant stays inside its own envelope, and no other
   choice of that tenant's calls inside the same envelope is larger.
   */
  lemma EveryTenantGetsItsEnvelope(calls: seq<Call>, limits: string -> Limit, key: string, pick: seq<bool>)
    requires Sensible(limits(key)) && TimeOrdered(map[], calls)
    requires |pick| == |TimesOf(key, calls)| && WithinEnvelope(limits(key), TimesOf(key, calls), pick)
    ensures var verdicts := VerdictsOf(key, calls, Run(map[], calls, limits));
            && |verdicts| == |pick|
            && WithinEnvelope(limits(key), TimesOf(key, calls), verdicts)
            && Count(pick) <= Count(verdicts)
            && WindowsHold(limits(key).capacity, limits(key).perSecond, TimesOf(key, calls), verdicts)
            && multiset(pick)[true] <= multiset(verdicts)[true]
  {
    TimesOfOrdered(calls, key);
    TenantsDoNotInterfere(map[], calls, limits, key);
    WindowBound(limits(key), TimesOf(key, calls));
    BucketIsOptimal(limits(key), TimesOf(key, calls), pick);
    EnvelopeIsWindows(limits(key), TimesOf(key, calls), VerdictsOf(key, calls, Run(map[], calls, limits)));
    CountIsMultiplicity(pick);
    CountIsMultiplicity(VerdictsOf(key, calls, Run(map[], calls, limits)));
  }
}
