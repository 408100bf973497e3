/** server/rate_limiter.py: a token bucket per key, refilled when it is looked at. Token counts and
    clock readings are reals; the monotonic clock is a parameter. */
module RateLimiter {

  /** The capacity of a bucket, and the tokens it regains per second. */
  datatype Limit = Limit(cap: real, speed: real)

  /** `rate` tokens per `per` seconds. */
  function LimitOf(rate: int, per: real): Limit
    requires per > 0.0
  {
    Limit(rate as real, rate as real / per)
  }

  ghost predicate Sensible(l: Limit) {
    l.cap >= 1.0 && l.speed > 0.0
  }

  lemma LimitsAreSensible(rate: int, per: real)
    requires rate > 0 && per > 0.0
    ensures Sensible(LimitOf(rate, per))
  {
  }

  datatype Bucket = Bucket(tokens: real, last: real)
  datatype Level = Unseen | Seen(bucket: Bucket)

  function Least(a: real, b: real): real {
    if a <= b then a else b
  }

  /** The tokens a bucket holds at `now`, refilled continuously and capped. */
  function TokensAt(l: Limit, level: Level, now: real): real
  {
    match level
    case Unseen => l.cap
    case Seen(b) => Least(l.cap, b.tokens + (now - b.last) * l.speed)
  }

  /** One call of allow: the verdict, and the bucket it leaves. */
  function AllowAt(l: Limit, level: Level, now: real): (bool, Level)
  {
    var tokens := TokensAt(l, level, now);
    if level.Unseen? then (true, Seen(Bucket(tokens - 1.0, now)))
    else if tokens < 1.0 then (false, Seen(Bucket(tokens, now)))
    else (true, Seen(Bucket(tokens - 1.0, now)))
  }

  function LevelIn(buckets: map<string, Bucket>, key: string): Level {
    if key in buckets then Seen(buckets[key]) else Unseen
  }

  /** The bucket of `key` after a call; every other bucket is as it was. */
  function AfterCall(l: Limit, buckets: map<string, Bucket>, key: string, now: real): map<string, Bucket> {
    var level := AllowAt(l, LevelIn(buckets, key), now).1;
    if level.Seen? then buckets[key := level.bucket] else buckets
  }

  class RateLimiter {
    const rate: int
    const per: real
    var buckets: map<string, Bucket>

    constructor (rate: int, per: real)
      requires rate > 0 && per > 0.0
      ensures this.rate == rate && this.per == per && buckets == map[]
    {
      this.rate, this.per := rate, per;
      buckets := map[];
    }

    /** allow(key) when the clock reads `now`. */
    method Allow(key: string, now: real) returns (allowed: bool)
      requires rate > 0 && per > 0.0
      modifies this
      ensures allowed == AllowAt(LimitOf(rate, per), LevelIn(old(buckets), key), now).0
      ensures buckets == AfterCall(LimitOf(rate, per), old(buckets), key, now)
    {
      if key !in buckets {
        buckets := buckets[key := Bucket(rate as real - 1.0, now)];
        return true;
      }
      var bucket := buckets[key];
      var elapsed := now - bucket.last;
      var tokens := Least(rate as real, bucket.tokens + elapsed * (rate as real / per));
      assert tokens == TokensAt(LimitOf(rate, per), LevelIn(buckets, key), now);
      if tokens < 1.0 {
        buckets := buckets[key := Bucket(tokens, now)];
        return false;
      }
      buckets := buckets[key := Bucket(tokens - 1.0, now)];
      return true;
    }

    method Reset(key: string)
      modifies this
      ensures buckets == old(buckets) - {key}
    {
      buckets := buckets - {key};
    }
  }

  // ---------------------------------------------------------------- one key

  ghost predicate Clock(times: seq<real>) {
    forall i, j :: 0 <= i <= j < |times| ==> times[i] <= times[j]
  }

  /** The level of a key, new at first, after calls at the given times. */
  function After(l: Limit, times: seq<real>): Level
    decreases |times|
  {
    if |times| == 0 then Unseen
    else AllowAt(l, After(l, times[..|times| - 1]), times[|times| - 1]).1
  }

  /** The verdict on call k. */
  predicate Allowed(l: Limit, times: seq<real>, k: nat)
    requires k < |times|
  {
    AllowAt(l, After(l, times[..k]), times[k]).0
  }

  /** How many of the calls i, ..., j - 1 were allowed. */
  function Count(l: Limit, times: seq<real>, i: nat, j: nat): nat
    requires i <= j <= |times|
    decreases j
  {
    if i == j then 0 else Count(l, times, i, j - 1) + if Allowed(l, times, j - 1) then 1 else 0
  }

  /** The tokens that call k finds. */
  function Found(l: Limit, times: seq<real>, k: nat): real
    requires k < |times|
  {
    TokensAt(l, After(l, times[..k]), times[k])
  }

  lemma AllowedIff(l: Limit, times: seq<real>, k: nat)
    requires Sensible(l) && k < |times|
    ensures Allowed(l, times, k) <==> Found(l, times, k) >= 1.0
  {
  }

  /** The tokens gained from call i to call j. */
  function Refill(l: Limit, times: seq<real>, i: nat, j: nat): real
    requires i < |times| && j < |times|
  {
    (times[j] - times[i]) * l.speed
  }

  /** From one call to the next: what is left, refilled, and capped at the rate. */
  lemma FoundNext(l: Limit, times: seq<real>, k: nat)
    requires Sensible(l) && k + 1 < |times|
    ensures Found(l, times, k + 1)
         == Least(l.cap,
                  Found(l, times, k) - (if Allowed(l, times, k) then 1.0 else 0.0)
                  + Refill(l, times, k, k + 1))
  {
    var front := times[..k + 1];
    assert front[..k] == times[..k] && front[k] == times[k];
  }

  // ---------------------------------------------------------------- in units of one token

  ghost predicate IsUnit(l: Limit, times: seq<real>, u: seq<real>, k: nat)
    requires k < |u| == |times|
  {
    u[k] == times[k] * l.speed
  }

  /** `u` reads the same clock as `times`, in units of the time that refills one token. */
  ghost predicate InUnits(l: Limit, times: seq<real>, u: seq<real>) {
    |u| == |times| && forall k :: 0 <= k < |u| ==> IsUnit(l, times, u, k)
  }

  function Units(l: Limit, times: seq<real>): (u: seq<real>)
    ensures InUnits(l, times, u)
  {
    seq(|times|, k requires 0 <= k < |times| => times[k] * l.speed)
  }

  /** Found, for a clock that runs at one token per unit. */
  function Fill(cap: real, u: seq<real>, k: nat): real
    requires k < |u|
    decreases k, 0
  {
    if k == 0 then cap
    else Least(cap, Fill(cap, u, k - 1) - Spend(cap, u, k - 1) + (u[k] - u[k - 1]))
  }

  function Spend(cap: real, u: seq<real>, k: nat): real
    requires k < |u|
    decreases k, 1
  {
    if Fill(cap, u, k) >= 1.0 then 1.0 else 0.0
  }

  function Spent(cap: real, u: seq<real>, i: nat, j: nat): real
    requires i <= j <= |u|
    decreases j
  {
    if i == j then 0.0 else Spent(cap, u, i, j - 1) + Spend(cap, u, j - 1)
  }

  /** What a window starting full at call i still has for call j. */
  function Budget(cap: real, u: seq<real>, i: nat, j: nat): real
    requires i <= j < |u|
  {
    cap + (u[j] - u[i]) - Spent(cap, u, i, j)
  }

  lemma {:induction false} FillWithinBudget(cap: real, u: seq<real>, i: nat, j: nat)
    requires i <= j < |u|
    ensures Fill(cap, u, j) <= Budget(cap, u, i, j)
    decreases j - i
  {
    if i < j {
      FillWithinBudget(cap, u, i, j - 1);
    }
  }

  /** Some window's budget is exactly what the call finds. */
  lemma {:induction false} SomeWindowIsTight(cap: real, u: seq<real>, j: nat) returns (i: nat)
    requires j < |u|
    ensures i <= j && Fill(cap, u, j) == Budget(cap, u, i, j)
    decreases j
  {
    i := j;
    if j > 0 && Fill(cap, u, j) != cap {
      i := SomeWindowIsTight(cap, u, j - 1);
    }
  }

  ghost predicate Rising(u: seq<real>) {
    forall k :: 0 < k < |u| ==> u[k - 1] <= u[k]
  }

  lemma {:induction false} FillInRange(cap: real, u: seq<real>, k: nat)
    requires cap >= 1.0 && Rising(u) && k < |u|
    ensures 0.0 <= Fill(cap, u, k) <= cap
    decreases k
  {
    if k > 0 { FillInRange(cap, u, k - 1); }
  }

  lemma FillAfterUnit(cap: real, u: seq<real>, k: nat)
    requires cap >= 1.0 && Rising(u) && 0 < k < |u| && u[k] - u[k - 1] >= 1.0
    ensures Spend(cap, u, k) == 1.0
  {
    FillInRange(cap, u, k - 1);
    assert Fill(cap, u, k) == Least(cap, Fill(cap, u, k - 1) - Spend(cap, u, k - 1) + (u[k] - u[k - 1]));
  }

  lemma {:induction false} SpentBound(cap: real, u: seq<real>, i: nat, j: nat)
    requires cap >= 1.0 && Rising(u) && i <= j < |u|
    ensures Spent(cap, u, i, j + 1) <= cap + (u[j] - u[i])
    decreases j
  {
    if Spend(cap, u, j) == 1.0 {
      FillWithinBudget(cap, u, i, j);
    } else if i < j {
      SpentBound(cap, u, i, j - 1);
    }
  }

  lemma Scale(speed: real, a: real, b: real)
    ensures (b - a) * speed == b * speed - a * speed
  {
  }

  /** The refill between two readings is their distance in units. */
  lemma Gap(l: Limit, times: seq<real>, u: seq<real>, i: nat, j: nat)
    requires InUnits(l, times, u) && i < |times| && j < |times|
    ensures Refill(l, times, i, j) == u[j] - u[i]
  {
    assert IsUnit(l, times, u, i) && IsUnit(l, times, u, j);
    Scale(l.speed, times[i], times[j]);
  }

  lemma FoundStep(l: Limit, times: seq<real>, u: seq<real>, k: nat)
    requires Sensible(l) && InUnits(l, times, u) && 0 < k < |times|
    ensures Found(l, times, k)
         == Least(l.cap, Found(l, times, k - 1) - (if Allowed(l, times, k - 1) then 1.0 else 0.0) + (u[k] - u[k - 1]))
  {
    FoundNext(l, times, k - 1);
    Gap(l, times, u, k - 1, k);
  }

  /** The limiter on its own clock and the bucket in token units find the same. */
  lemma {:induction false} SameFill(l: Limit, times: seq<real>, u: seq<real>, k: nat)
    requires Sensible(l) && InUnits(l, times, u) && k < |times|
    ensures Found(l, times, k) == Fill(l.cap, u, k)
    ensures Allowed(l, times, k) <==> Spend(l.cap, u, k) == 1.0
    decreases k
  {
    AllowedIff(l, times, k);
    if k == 0 {
      assert times[..0] == [];
    } else {
      SameFill(l, times, u, k - 1);
      FoundStep(l, times, u, k);
    }
  }

  lemma {:induction false} SameCount(l: Limit, times: seq<real>, u: seq<real>, i: nat, j: nat)
    requires Sensible(l) && InUnits(l, times, u) && i <= j <= |times|
    ensures Count(l, times, i, j) as real == Spent(l.cap, u, i, j)
    decreases j
  {
    if i < j {
      SameCount(l, times, u, i, j - 1);
      SameFill(l, times, u, j - 1);
    }
  }

  lemma UnitsRise(l: Limit, times: seq<real>, u: seq<real>)
    requires Sensible(l) && Clock(times) && InUnits(l, times, u)
    ensures Rising(u)
  {
    forall k | 0 < k < |u|
      ensures u[k - 1] <= u[k]
    {
      Gap(l, times, u, k - 1, k);
      assert (times[k] - times[k - 1]) * l.speed >= 0.0;
    }
  }

  // ---------------------------------------------------------------- every window

  /** Calls i to j - 1, plus one more at call j, stay within what a full bucket and its refill
      since call i can pay for. */
  predicate WindowBears(l: Limit, times: seq<real>, i: nat, j: nat)
    requires i <= j < |times|
  {
    Count(l, times, i, j) as real + 1.0 <= l.cap + Refill(l, times, i, j)
  }

  lemma BearsLinear(count: nat, cap: real, refill: real, distance: real, spent: real)
    requires count as real == spent && refill == distance
    ensures count as real + 1.0 <= cap + refill <==> cap + distance - spent >= 1.0
  {
  }

  lemma BearsIff(l: Limit, times: seq<real>, u: seq<real>, i: nat, j: nat)
    requires Sensible(l) && InUnits(l, times, u) && i <= j < |times|
    ensures WindowBears(l, times, i, j) <==> Budget(l.cap, u, i, j) >= 1.0
  {
    SameCount(l, times, u, i, j);
    Gap(l, times, u, i, j);
    BearsLinear(Count(l, times, i, j), l.cap, Refill(l, times, i, j), u[j] - u[i], Spent(l.cap, u, i, j));
  }

  lemma ExactFor(l: Limit, times: seq<real>, j: nat)
    requires Sensible(l) && j < |times|
    ensures Allowed(l, times, j) <==> forall i :: 0 <= i <= j ==> WindowBears(l, times, i, j)
  {
    var u := Units(l, times);
    SameFill(l, times, u, j);
    if Allowed(l, times, j) {
      forall i | 0 <= i <= j
        ensures WindowBears(l, times, i, j)
      {
        FillWithinBudget(l.cap, u, i, j);
        BearsIff(l, times, u, i, j);
      }
    } else {
      var i := SomeWindowIsTight(l.cap, u, j);
      BearsIff(l, times, u, i, j);
    }
  }

  lemma BoundFor(l: Limit, times: seq<real>, i: nat, j: nat)
    requires Sensible(l) && Clock(times) && i <= j < |times|
    ensures Count(l, times, i, j + 1) as real <= l.cap + Refill(l, times, i, j)
  {
    var u := Units(l, times);
    UnitsRise(l, times, u);
    SpentBound(l.cap, u, i, j);
    SameCount(l, times, u, i, j + 1);
    Gap(l, times, u, i, j);
  }

  lemma RangeFor(l: Limit, times: seq<real>, k: nat)
    requires Sensible(l) && Clock(times) && k < |times|
    ensures 0.0 <= Found(l, times, k) <= l.cap
  {
    var u := Units(l, times);
    UnitsRise(l, times, u);
    FillInRange(l.cap, u, k);
    SameFill(l, times, u, k);
  }

  lemma PassesIfRefilled(l: Limit, times: seq<real>, k: nat)
    requires Sensible(l) && Clock(times) && 0 < k < |times|
    requires Refill(l, times, k - 1, k) >= 1.0
    ensures Allowed(l, times, k)
  {
    var u := Units(l, times);
    UnitsRise(l, times, u);
    Gap(l, times, u, k - 1, k);
    FillAfterUnit(l.cap, u, k);
    SameFill(l, times, u, k);
  }

  lemma Monotone(speed: real, a: real, b: real)
    requires speed > 0.0 && a <= b
    ensures a * speed <= b * speed
  {
  }

  lemma RefillsOne(rate: int, per: real, gap: real)
    requires rate > 0 && per > 0.0 && gap >= per / rate as real
    ensures gap * LimitOf(rate, per).speed >= 1.0
  {
    var r := rate as real;
    var speed := r / per;
    assert (per / r) * speed == 1.0;
    Monotone(speed, per / r, gap);
  }

  // ---------------------------------------------------------------- the theorems, for `rate` per `per`

  /** What `rate` tokens per `per` seconds come to in the time from one reading to another. */
  function Earned(rate: int, per: real, from: real, to: real): real
    requires per > 0.0
  {
    (to - from) * (rate as real / per)
  }

  lemma EarnedIsRefill(rate: int, per: real, times: seq<real>, i: nat, j: nat)
    requires per > 0.0 && i < |times| && j < |times|
    ensures Earned(rate, per, times[i], times[j]) == Refill(LimitOf(rate, per), times, i, j)
    ensures LimitOf(rate, per).cap == rate as real
  {
  }

  /** Calls i to j - 1, plus one more at call j, number at most rate + elapsed * rate / per. */
  predicate Bears(rate: int, per: real, times: seq<real>, i: nat, j: nat)
    requires per > 0.0 && i <= j < |times|
  {
    Count(LimitOf(rate, per), times, i, j) as real + 1.0
    <= rate as real + Earned(rate, per, times[i], times[j])
  }

  lemma BearsForLimit(rate: int, per: real, times: seq<real>, i: nat, j: nat)
    requires per > 0.0 && i <= j < |times|
    ensures Bears(rate, per, times, i, j) <==> WindowBears(LimitOf(rate, per), times, i, j)
  {
    EarnedIsRefill(rate, per, times, i, j);
  }

  /** Exactness: a call is allowed if and only if allowing it keeps every window ending at it
      within rate + elapsed * rate / per. The limiter neither exceeds a window nor refuses a call
      that all windows would bear. */
  lemma AllowedIffEveryWindowBears(rate: int, per: real, times: seq<real>, j: nat)
    requires rate > 0 && per > 0.0 && j < |times|
    ensures Allowed(LimitOf(rate, per), times, j) <==> forall i :: 0 <= i <= j ==> Bears(rate, per, times, i, j)
  {
    var l := LimitOf(rate, per);
    LimitsAreSensible(rate, per);
    ExactFor(l, times, j);
    forall i | 0 <= i <= j
      ensures Bears(rate, per, times, i, j) <==> WindowBears(l, times, i, j)
    {
      BearsForLimit(rate, per, times, i, j);
    }
  }

  /** Over every window: the calls allowed from call i to call j number at most
      rate + (t_j - t_i) * rate / per. */
  lemma WindowBound(rate: int, per: real, times: seq<real>, i: nat, j: nat)
    requires rate > 0 && per > 0.0 && Clock(times) && i <= j < |times|
    ensures Count(LimitOf(rate, per), times, i, j + 1) as real
         <= rate as real + Earned(rate, per, times[i], times[j])
  {
    LimitsAreSensible(rate, per);
    BoundFor(LimitOf(rate, per), times, i, j);
    EarnedIsRefill(rate, per, times, i, j);
  }

  /** Tokens never leave [0, rate]. */
  lemma TokensInRange(rate: int, per: real, times: seq<real>, k: nat)
    requires rate > 0 && per > 0.0 && Clock(times) && k < |times|
    ensures 0.0 <= Found(LimitOf(rate, per), times, k) <= rate as real
  {
    LimitsAreSensible(rate, per);
    RangeFor(LimitOf(rate, per), times, k);
  }

  /** Of calls at one instant, exactly the first `rate` pass. */
  lemma {:induction false} BurstOfRate(rate: int, per: real, times: seq<real>, k: nat)
    requires rate > 0 && per > 0.0 && k < |times| && forall j :: 0 <= j < |times| ==> times[j] == times[0]
    ensures Allowed(LimitOf(rate, per), times, k) <==> k < rate
    ensures Found(LimitOf(rate, per), times, k) == if k < rate then (rate - k) as real else 0.0
    decreases k
  {
    var l := LimitOf(rate, per);
    LimitsAreSensible(rate, per);
    AllowedIff(l, times, k);
    if k == 0 {
      assert times[..0] == [];
    } else {
      BurstOfRate(rate, per, times, k - 1);
      FoundNext(l, times, k - 1);
      assert times[k] - times[k - 1] == 0.0;
      assert Refill(l, times, k - 1, k) == 0.0;
    }
  }

  /** A call at least per / rate after the one before it is never denied. */
  lemma SpacedCallsPass(rate: int, per: real, times: seq<real>, k: nat)
    requires rate > 0 && per > 0.0 && Clock(times) && k < |times|
    requires k > 0 ==> times[k] - times[k - 1] >= per / rate as real
    ensures Allowed(LimitOf(rate, per), times, k)
  {
    LimitsAreSensible(rate, per);
    if k == 0 {
      assert times[..0] == [];
    } else {
      RefillsOne(rate, per, times[k] - times[k - 1]);
      PassesIfRefilled(LimitOf(rate, per), times, k);
    }
  }
}
