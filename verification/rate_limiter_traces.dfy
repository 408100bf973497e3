/** The rate limiter against a bucket that refills continuously, and against other keys. */
module RateLimiterTraces {
  import opened RateLimiter

  /** Something happens to a key: a call of allow, or the clock merely being taken into account,
      as a bucket that refills by itself does at every instant. */
  datatype Touch = Call(time: real) | Look(time: real)

  /** Refill now, spend nothing. */
  function Refresh(l: Limit, level: Level, now: real): Level {
    if level.Unseen? then Unseen else Seen(Bucket(TokensAt(l, level, now), now))
  }

  function Verdicts(l: Limit, level: Level, touches: seq<Touch>): seq<bool>
    decreases |touches|
  {
    if |touches| == 0 then []
    else
      match touches[0]
      case Call(now) =>
        [AllowAt(l, level, now).0] + Verdicts(l, AllowAt(l, level, now).1, touches[1..])
      case Look(now) => Verdicts(l, Refresh(l, level, now), touches[1..])
  }

  function OnlyCalls(touches: seq<Touch>): seq<Touch> {
    if |touches| == 0 then []
    else (if touches[0].Call? then [touches[0]] else []) + OnlyCalls(touches[1..])
  }

  /** The clock does not run backwards. */
  ghost predicate Ordered(now: real, touches: seq<Touch>)
    decreases |touches|
  {
    |touches| == 0 || (now <= touches[0].time && Ordered(touches[0].time, touches[1..]))
  }

  ghost predicate SeenBy(level: Level, now: real) {
    level.Seen? ==> level.bucket.last <= now
  }

  /** No later look can tell the two levels apart. */
  ghost predicate SameFrom(l: Limit, a: Level, b: Level, now: real) {
    && (a.Unseen? <==> b.Unseen?)
    && forall t: real :: now <= t ==> TokensAt(l, a, t) == TokensAt(l, b, t)
  }

  lemma JoinRefills(cap: real, tokens: real, first: real, second: real, both: real)
    requires first + second == both && second >= 0.0
    ensures Least(cap, Least(cap, tokens + first) + second) == Least(cap, tokens + both)
  {
  }

  lemma RefreshTokens(l: Limit, level: Level, now: real, t: real)
    requires Sensible(l) && level.Seen? && level.bucket.last <= now <= t
    ensures TokensAt(l, Refresh(l, level, now), t) == TokensAt(l, level, t)
  {
    var b, s := level.bucket, l.speed;
    Scale(s, b.last, now);
    Scale(s, now, t);
    Scale(s, b.last, t);
    Monotone(s, b.last, now);
    Monotone(s, now, t);
    JoinRefills(l.cap, b.tokens, (now - b.last) * s, (t - now) * s, (t - b.last) * s);
  }

  lemma RefreshSame(l: Limit, level: Level, now: real)
    requires Sensible(l) && SeenBy(level, now)
    ensures SameFrom(l, Refresh(l, level, now), level, now)
  {
    if level.Seen? {
      forall t: real | now <= t
        ensures TokensAt(l, Refresh(l, level, now), t) == TokensAt(l, level, t)
      {
        RefreshTokens(l, level, now, t);
      }
    }
  }

  /** A call on indistinguishable levels gives one verdict and one and the same bucket. */
  lemma CallsAgree(l: Limit, a: Level, b: Level, now: real)
    requires SameFrom(l, a, b, now)
    ensures AllowAt(l, a, now) == AllowAt(l, b, now)
  {
    assert TokensAt(l, a, now) == TokensAt(l, b, now);
  }

  /** Lazy refill refines continuous refill: however often the bucket is refilled between calls,
      every verdict is what the limiter, which refills only when called, gives. */
  lemma {:induction false} LooksAreInvisible(l: Limit, a: Level, b: Level, now: real, touches: seq<Touch>)
    requires Sensible(l) && SameFrom(l, a, b, now) && SeenBy(a, now) && Ordered(now, touches)
    ensures Verdicts(l, a, touches) == Verdicts(l, b, OnlyCalls(touches))
    decreases |touches|
  {
    if |touches| > 0 {
      var t := touches[0].time;
      if touches[0].Call? {
        CallsAgree(l, a, b, t);
        var next := AllowAt(l, a, t).1;
        LooksAreInvisible(l, next, next, t, touches[1..]);
        assert OnlyCalls(touches) == [touches[0]] + OnlyCalls(touches[1..]);
        assert OnlyCalls(touches)[1..] == OnlyCalls(touches[1..]);
      } else {
        RefreshSame(l, a, t);
        LooksAreInvisible(l, Refresh(l, a, t), b, t, touches[1..]);
        assert OnlyCalls(touches) == OnlyCalls(touches[1..]);
      }
    }
  }

  /** The level after some touches. */
  function LevelAfter(l: Limit, level: Level, touches: seq<Touch>): Level
    decreases |touches|
  {
    if |touches| == 0 then level
    else
      LevelAfter(l, if touches[0].Call? then AllowAt(l, level, touches[0].time).1
                else Refresh(l, level, touches[0].time), touches[1..])
  }

  lemma {:induction false} VerdictsJoin(l: Limit, level: Level, a: seq<Touch>, b: seq<Touch>)
    ensures Verdicts(l, level, a + b) == Verdicts(l, level, a) + Verdicts(l, LevelAfter(l, level, a), b)
    decreases |a|
  {
    if |a| == 0 {
      assert a + b == b;
    } else {
      assert (a + b)[0] == a[0] && (a + b)[1..] == a[1..] + b;
      if a[0].Call? {
        VerdictsJoin(l, AllowAt(l, level, a[0].time).1, a[1..], b);
      } else {
        VerdictsJoin(l, Refresh(l, level, a[0].time), a[1..], b);
      }
    }
  }

  lemma {:induction false} LevelOrdered(l: Limit, level: Level, now: real, a: seq<Touch>, b: seq<Touch>)
    returns (t: real)
    requires SeenBy(level, now) && Ordered(now, a + b)
    ensures SeenBy(LevelAfter(l, level, a), t) && Ordered(t, b)
    decreases |a|
  {
    if |a| == 0 {
      t := now;
      assert a + b == b;
    } else {
      assert (a + b)[0] == a[0] && (a + b)[1..] == a[1..] + b;
      t := LevelOrdered(l, if a[0].Call? then AllowAt(l, level, a[0].time).1 else Refresh(l, level, a[0].time),
                        a[0].time, a[1..], b);
    }
  }

  lemma {:induction false} VerdictsAgree(l: Limit, a: Level, b: Level, now: real, touches: seq<Touch>)
    requires Sensible(l) && SameFrom(l, a, b, now) && SeenBy(a, now) && SeenBy(b, now) && Ordered(now, touches)
    ensures Verdicts(l, a, touches) == Verdicts(l, b, touches)
  {
    LooksAreInvisible(l, a, b, now, touches);
    assert SameFrom(l, b, b, now);
    LooksAreInvisible(l, b, b, now, touches);
  }

  lemma CutOne(a: seq<bool>, x: bool, b: seq<bool>)
    ensures var all := a + ([x] + b); all[|a|] == x && all[..|a|] + all[|a| + 1..] == a + b
  {
  }

  /** Denied calls are transparent: deleting one leaves every other verdict as it was. */
  lemma DeniedCallsAreTransparent(l: Limit, a: seq<Touch>, now: real, b: seq<Touch>, start: real)
    requires Sensible(l) && Ordered(start, a + ([Call(now)] + b))
    requires !AllowAt(l, LevelAfter(l, Unseen, a), now).0
    ensures var all := Verdicts(l, Unseen, a + ([Call(now)] + b));
            var k := |Verdicts(l, Unseen, a)|;
            && k < |all| && !all[k]
            && Verdicts(l, Unseen, a + b) == all[..k] + all[k + 1..]
  {
    var level := LevelAfter(l, Unseen, a);
    var t := LevelOrdered(l, Unseen, start, a, [Call(now)] + b);
    assert ([Call(now)] + b)[1..] == b;
    assert AllowAt(l, level, now).1 == Refresh(l, level, now);
    RefreshSame(l, level, now);
    VerdictsAgree(l, Refresh(l, level, now), level, now, b);
    VerdictsJoin(l, Unseen, a, [Call(now)] + b);
    VerdictsJoin(l, Unseen, a, b);
    var rest := Verdicts(l, level, b);
    assert Verdicts(l, level, [Call(now)] + b) == [false] + rest;
    CutOne(Verdicts(l, Unseen, a), false, rest);
  }

  // ---------------------------------------------------------------- the same limiter

  function Calls(times: seq<real>): (touches: seq<Touch>)
    ensures |touches| == |times|
  {
    seq(|times|, k requires 0 <= k < |times| => Call(times[k]))
  }

  lemma {:induction false} LevelJoin(l: Limit, level: Level, a: seq<Touch>, b: seq<Touch>)
    ensures LevelAfter(l, level, a + b) == LevelAfter(l, LevelAfter(l, level, a), b)
    decreases |a|
  {
    if |a| == 0 {
      assert a + b == b;
    } else {
      assert (a + b)[0] == a[0] && (a + b)[1..] == a[1..] + b;
      LevelJoin(l, if a[0].Call? then AllowAt(l, level, a[0].time).1 else Refresh(l, level, a[0].time), a[1..], b);
    }
  }

  lemma {:induction false} SameLevel(l: Limit, times: seq<real>)
    ensures LevelAfter(l, Unseen, Calls(times)) == After(l, times)
    decreases |times|
  {
    if |times| > 0 {
      var last := |times| - 1;
      SameLevel(l, times[..last]);
      assert Calls(times) == Calls(times[..last]) + [Call(times[last])];
      LevelJoin(l, Unseen, Calls(times[..last]), [Call(times[last])]);
    }
  }

  /** The verdicts of a trace of calls are those of the exactness and window theorems. */
  lemma {:induction false} SameVerdicts(l: Limit, times: seq<real>)
    ensures |Verdicts(l, Unseen, Calls(times))| == |times|
    ensures forall k :: 0 <= k < |times| ==> Verdicts(l, Unseen, Calls(times))[k] == Allowed(l, times, k)
    decreases |times|
  {
    if |times| > 0 {
      var last := |times| - 1;
      var front := times[..last];
      SameVerdicts(l, front);
      SameLevel(l, front);
      assert Calls(times) == Calls(front) + [Call(times[last])];
      VerdictsJoin(l, Unseen, Calls(front), [Call(times[last])]);
      assert Verdicts(l, After(l, front), [Call(times[last])]) == [Allowed(l, times, last)];
      assert forall k :: 0 <= k < last ==> front[..k] == times[..k];
    }
  }

  // ---------------------------------------------------------------- several keys

  datatype Event = Allow(key: string, time: real) | Reset(key: string)

  /** The limiter's state transition, as its methods state it. */
  function Step(l: Limit, buckets: map<string, Bucket>, e: Event): map<string, Bucket> {
    match e
    case Allow(key, now) => AfterCall(l, buckets, key, now)
    case Reset(key) => buckets - {key}
  }

  /** Each call's key and verdict. */
  function Answers(l: Limit, buckets: map<string, Bucket>, events: seq<Event>): seq<(string, bool)>
    decreases |events|
  {
    if |events| == 0 then []
    else
      (if events[0].Allow?
       then [(events[0].key, AllowAt(l, LevelIn(buckets, events[0].key), events[0].time).0)] else [])
      + Answers(l, Step(l, buckets, events[0]), events[1..])
  }

  function EventsOf(key: string, events: seq<Event>): seq<Event> {
    if |events| == 0 then []
    else (if events[0].key == key then [events[0]] else []) + EventsOf(key, events[1..])
  }

  function AnswersOf(key: string, answers: seq<(string, bool)>): seq<(string, bool)> {
    if |answers| == 0 then []
    else (if answers[0].0 == key then [answers[0]] else []) + AnswersOf(key, answers[1..])
  }

  /** A key's verdicts are those of its own calls and resets alone, whatever other keys do. */
  lemma {:induction false} KeysAreIndependent(l: Limit, a: map<string, Bucket>, b: map<string, Bucket>,
                                              key: string, events: seq<Event>)
    requires LevelIn(a, key) == LevelIn(b, key)
    ensures AnswersOf(key, Answers(l, a, events)) == Answers(l, b, EventsOf(key, events))
    decreases |events|
  {
    if |events| > 0 {
      var e := events[0];
      var own := EventsOf(key, events[1..]);
      var next := Step(l, a, e);
      if e.key == key {
        assert EventsOf(key, events) == [e] + own;
        assert ([e] + own)[1..] == own;
        KeysAreIndependent(l, next, Step(l, b, e), key, events[1..]);
      } else {
        assert EventsOf(key, events) == own;
        KeysAreIndependent(l, next, b, key, events[1..]);
      }
      if e.Allow? {
        var first := (e.key, AllowAt(l, LevelIn(a, e.key), e.time).0);
        assert ([first] + Answers(l, next, events[1..]))[1..] == Answers(l, next, events[1..]);
      } else {
        assert [] + Answers(l, next, events[1..]) == Answers(l, next, events[1..]);
      }
    }
  }

  // ---------------------------------------------------------------- one key between two resets

  predicate NeverReset(key: string, events: seq<Event>) {
    forall i :: 0 <= i < |events| ==> events[i] != Reset(key)
  }

  /** When a key is called. */
  function TimesOf(key: string, events: seq<Event>): seq<real> {
    if |events| == 0 then []
    else (if events[0].Allow? && events[0].key == key then [events[0].time] else []) + TimesOf(key, events[1..])
  }

  function Allows(key: string, times: seq<real>): seq<Event> {
    if |times| == 0 then [] else [Allow(key, times[0])] + Allows(key, times[1..])
  }

  function Labelled(key: string, verdicts: seq<bool>): (answers: seq<(string, bool)>)
    ensures |answers| == |verdicts|
  {
    seq(|verdicts|, k requires 0 <= k < |verdicts| => (key, verdicts[k]))
  }

  lemma {:induction false} OnlyAllows(key: string, events: seq<Event>)
    requires NeverReset(key, events)
    ensures EventsOf(key, events) == Allows(key, TimesOf(key, events))
    decreases |events|
  {
    if |events| > 0 {
      OnlyAllows(key, events[1..]);
      var e, times := events[0], TimesOf(key, events[1..]);
      if e.key == key {
        assert e == Allow(key, e.time);
        assert TimesOf(key, events) == [e.time] + times;
        assert ([e.time] + times)[1..] == times;
      } else {
        assert TimesOf(key, events) == times;
      }
    }
  }

  lemma FirstLabel(key: string, first: bool, rest: seq<bool>)
    ensures Labelled(key, [first] + rest) == [(key, first)] + Labelled(key, rest)
  {
  }

  lemma {:induction false} AnswersAreVerdicts(l: Limit, buckets: map<string, Bucket>, key: string, times: seq<real>)
    ensures Answers(l, buckets, Allows(key, times)) == Labelled(key, Verdicts(l, LevelIn(buckets, key), Calls(times)))
    decreases |times|
  {
    if |times| > 0 {
      var level := LevelIn(buckets, key);
      var next := AfterCall(l, buckets, key, times[0]);
      assert LevelIn(next, key) == AllowAt(l, level, times[0]).1;
      AnswersAreVerdicts(l, next, key, times[1..]);
      var rest := Allows(key, times[1..]);
      assert Allows(key, times)[0] == Allow(key, times[0]) && Allows(key, times)[1..] == rest;
      assert Calls(times)[0] == Call(times[0]) && Calls(times)[1..] == Calls(times[1..]);
      FirstLabel(key, AllowAt(l, level, times[0]).0, Verdicts(l, LevelIn(next, key), Calls(times[1..])));
    }
  }

  /** The buckets after some events. */
  function BucketsAfter(l: Limit, buckets: map<string, Bucket>, events: seq<Event>): map<string, Bucket>
    decreases |events|
  {
    if |events| == 0 then buckets else BucketsAfter(l, Step(l, buckets, events[0]), events[1..])
  }

  lemma {:induction false} AnswersJoin(l: Limit, buckets: map<string, Bucket>, a: seq<Event>, b: seq<Event>)
    ensures Answers(l, buckets, a + b) == Answers(l, buckets, a) + Answers(l, BucketsAfter(l, buckets, a), b)
    ensures BucketsAfter(l, buckets, a + b) == BucketsAfter(l, BucketsAfter(l, buckets, a), b)
    decreases |a|
  {
    if |a| == 0 {
      assert a + b == b;
    } else {
      assert (a + b)[0] == a[0] && (a + b)[1..] == a[1..] + b;
      AnswersJoin(l, Step(l, buckets, a[0]), a[1..], b);
    }
  }

  lemma {:induction false} AnswersOfJoin(key: string, a: seq<(string, bool)>, b: seq<(string, bool)>)
    ensures AnswersOf(key, a + b) == AnswersOf(key, a) + AnswersOf(key, b)
    decreases |a|
  {
    if |a| == 0 {
      assert a + b == b;
    } else {
      assert (a + b)[0] == a[0] && (a + b)[1..] == a[1..] + b;
      AnswersOfJoin(key, a[1..], b);
    }
  }

  /** A key's verdicts from a reset of it, or from the start, to the next reset: those of a new key
      called at the same times. */
  lemma SinceReset(l: Limit, buckets: map<string, Bucket>, key: string, events: seq<Event>)
    requires key !in buckets && NeverReset(key, events)
    ensures AnswersOf(key, Answers(l, buckets, events))
         == Labelled(key, Verdicts(l, Unseen, Calls(TimesOf(key, events))))
  {
    var none: map<string, Bucket> := map[];
    KeysAreIndependent(l, buckets, none, key, events);
    OnlyAllows(key, events);
    AnswersAreVerdicts(l, none, key, TimesOf(key, events));
  }

  lemma ResetFirst(l: Limit, buckets: map<string, Bucket>, key: string, events: seq<Event>)
    ensures Answers(l, buckets, [Reset(key)] + events) == Answers(l, buckets - {key}, events)
    ensures BucketsAfter(l, buckets, [Reset(key)] + events) == BucketsAfter(l, buckets - {key}, events)
  {
    assert ([Reset(key)] + events)[1..] == events;
  }

  lemma CutAtReset(l: Limit, buckets: map<string, Bucket>, before: seq<Event>, key: string,
                   middle: seq<Event>, after: seq<Event>)
    requires NeverReset(key, middle)
    ensures AnswersOf(key, Answers(l, buckets, before + ([Reset(key)] + (middle + after))))
         == AnswersOf(key, Answers(l, buckets, before))
            + (Labelled(key, Verdicts(l, Unseen, Calls(TimesOf(key, middle))))
               + AnswersOf(key, Answers(l, BucketsAfter(l, buckets, before + ([Reset(key)] + middle)), after)))
  {
    var b0 := BucketsAfter(l, buckets, before);
    var b1 := b0 - {key};
    AnswersJoin(l, buckets, before, [Reset(key)] + (middle + after));
    ResetFirst(l, b0, key, middle + after);
    AnswersJoin(l, b1, middle, after);
    AnswersJoin(l, buckets, before, [Reset(key)] + middle);
    ResetFirst(l, b0, key, middle);
    SinceReset(l, b1, key, middle);
    AnswersOfJoin(key, Answers(l, buckets, before), Answers(l, b1, middle + after));
    AnswersOfJoin(key, Answers(l, b1, middle), Answers(l, BucketsAfter(l, b1, middle), after));
  }

  /** Any run, cut at a reset of the key and before the next one: what the key is answered in
      between depends on its own calls there alone, each is allowed exactly when every window
      since the reset bears it, and no window exceeds rate + elapsed * rate / per. */
  lemma WindowsBetweenResets(rate: int, per: real, l: Limit, buckets: map<string, Bucket>, before: seq<Event>,
                             key: string, middle: seq<Event>, after: seq<Event>)
    requires rate > 0 && per > 0.0 && l == LimitOf(rate, per) && NeverReset(key, middle)
    ensures AnswersOf(key, Answers(l, buckets, before + ([Reset(key)] + (middle + after))))
         == AnswersOf(key, Answers(l, buckets, before))
            + (Labelled(key, Verdicts(l, Unseen, Calls(TimesOf(key, middle))))
               + AnswersOf(key, Answers(l, BucketsAfter(l, buckets, before + ([Reset(key)] + middle)), after)))
    ensures |Verdicts(l, Unseen, Calls(TimesOf(key, middle)))| == |TimesOf(key, middle)|
    ensures forall k :: 0 <= k < |TimesOf(key, middle)| ==>
              (Verdicts(l, Unseen, Calls(TimesOf(key, middle)))[k]
               <==> forall i :: 0 <= i <= k ==> Bears(rate, per, TimesOf(key, middle), i, k))
    ensures Clock(TimesOf(key, middle)) ==> forall i, j :: 0 <= i <= j < |TimesOf(key, middle)| ==>
              Count(l, TimesOf(key, middle), i, j + 1) as real
              <= rate as real + Earned(rate, per, TimesOf(key, middle)[i], TimesOf(key, middle)[j])
  {
    var times := TimesOf(key, middle);
    CutAtReset(l, buckets, before, key, middle, after);
    SameVerdicts(l, times);
    forall k | 0 <= k < |times|
      ensures Allowed(l, times, k) <==> forall i :: 0 <= i <= k ==> Bears(rate, per, times, i, k)
    {
      AllowedIffEveryWindowBears(rate, per, times, k);
    }
    if Clock(times) {
      forall i, j | 0 <= i <= j < |times|
        ensures Count(l, times, i, j + 1) as real <= rate as real + Earned(rate, per, times[i], times[j])
      {
        WindowBound(rate, per, times, i, j);
      }
    }
  }
}
