/** The fixed-window rate limiter `check_rate_limit`, over a Redis whose keys really expire. */
module RateLimit {
  import opened Options
  import opened ApiKeys

  const RATE_LIMIT := 10
  const RATE_WINDOW := 60.0

  /** Who is limited: the key prefix and the client address. */
  datatype Caller = Caller(prefix: string, ip: string)

  datatype Key = Key(caller: Caller, window: int)

  const RATES := "rate_limit:"

  /** The key as Redis knows it; an IPv6 address holds colons of its own. */
  function KeyText(k: Key): string {
    RATES + k.caller.prefix + ":" + k.caller.ip + ":" + Decimal(k.window)
  }

  /** The window can always be read off, and the colons of an address cannot make two callers one. */
  lemma KeyTextInjective(k: Key, l: Key)
    requires ':' !in k.caller.prefix && ':' !in l.caller.prefix
    ensures KeyText(k) == KeyText(l) <==> k == l
  {
    if KeyText(k) == KeyText(l) {
      KeyTextParts(k, l);
      var a, b := k.caller, l.caller;
      assert RATES + a.prefix + ":" + a.ip == RATES + (a.prefix + ":" + a.ip);
      assert RATES + b.prefix + ":" + b.ip == RATES + (b.prefix + ":" + b.ip);
      SplitAtFirst(RATES, a.prefix, ":", a.ip, b.prefix, b.ip);
    }
  }

  /** Without a condition on prefixes, texts agree exactly when windows and joined callers do. */
  lemma KeyTextParts(k: Key, l: Key)
    ensures KeyText(k) == KeyText(l) <==>
            && k.window == l.window
            && k.caller.prefix + ":" + k.caller.ip == l.caller.prefix + ":" + l.caller.ip
  {
    var a, b := k.caller.prefix + ":" + k.caller.ip, l.caller.prefix + ":" + l.caller.ip;
    assert KeyText(k) == RATES + a + ":" + Decimal(k.window);
    assert KeyText(l) == RATES + b + ":" + Decimal(l.window);
    if KeyText(k) == KeyText(l) {
      FirstChar(Some(k.window));
      FirstChar(Some(l.window));
      SplitAtLast(RATES, a, ":", Decimal(k.window), b, Decimal(l.window));
      ShownIntInjective(Some(k.window), Some(l.window));
    }
  }

  datatype Counter = Counter(count: nat, expiresAt: real)

  datatype Call = Call(caller: Caller, time: real, accepted: bool)

  datatype Headers = Headers(limit: nat, remaining: nat, reset: int)

  function Window(t: real): (w: int)
    ensures w as real * RATE_WINDOW <= t < (w + 1) as real * RATE_WINDOW
  {
    (t / RATE_WINDOW).Floor
  }

  /** How many calls of `c` fell into window `w`, accepted or not. */
  function CallsIn(log: seq<Call>, c: Caller, w: int): nat {
    if log == [] then 0
    else CallsIn(log[..|log| - 1], c, w)
         + if log[|log| - 1].caller == c && Window(log[|log| - 1].time) == w then 1 else 0
  }

  ghost predicate InTime(log: seq<Call>, clock: real) {
    && (forall i :: 0 <= i < |log| ==> log[i].time <= clock)
    && (forall i, j :: 0 <= i < j < |log| ==> log[i].time <= log[j].time)
  }

  /** A call is accepted exactly when fewer than ten earlier calls of its caller share its window. */
  ghost predicate FairLog(log: seq<Call>) {
    forall i :: 0 <= i < |log| ==>
      (log[i].accepted <==> CallsIn(log[..i], log[i].caller, Window(log[i].time)) < RATE_LIMIT)
  }

  /** The stored counters agree with the calls made; those of the current window are all there. */
  ghost predicate Agrees(counters: map<Key, Counter>, log: seq<Call>, clock: real) {
    && (forall k :: k in counters ==>
          && counters[k].count == CallsIn(log, k.caller, k.window) > 0
          && counters[k].expiresAt >= WindowClose(k.window))
    && (forall k :: k !in counters && CallsIn(log, k.caller, k.window) > 0 ==> WindowClose(k.window) < clock)
  }

  class Limiter {
    var counters: map<Key, Counter>
    ghost var clock: real
    ghost var log: seq<Call>

    ghost predicate Valid()
      reads this
    {
      InTime(log, clock) && FairLog(log) && Agrees(counters, log, clock)
    }

    constructor ()
      ensures Valid() && log == []
    {
      counters, clock, log := map[], 0.0, [];
    }

    /** Redis drops a key some time after its time to live has passed. */
    method Evict(key: Key, ghost now: real)
      requires Valid() && now >= clock
      requires key in counters && now > counters[key].expiresAt
      modifies this
      ensures Valid() && log == old(log) && clock == now
      ensures counters == old(counters) - {key}
    {
      clock := now;
      counters := counters - {key};
    }

    /**
      * One request. An expired counter still stored counts as absent, as it does in Redis; `lag` is
      * the time between reading the clock and setting the time to live.
      */
    method CheckRateLimit(caller: Caller, now: real, lag: real) returns (accepted: bool, headers: Headers)
      requires Valid() && now >= clock && lag >= 0.0
      modifies this
      ensures Valid() && clock == now
      ensures log == old(log) + [Call(caller, now, accepted)]
      ensures accepted <==> CallsIn(old(log), caller, Window(now)) < RATE_LIMIT
      ensures headers.limit == RATE_LIMIT
      ensures headers.remaining == Left(CallsIn(log, caller, Window(now)))
      ensures CallsIn(log, caller, Window(now)) + headers.remaining
              == if accepted then RATE_LIMIT else CallsIn(old(log), caller, Window(now)) + 1
      ensures headers.reset as real == WindowClose(Window(now)) > now
      ensures headers.reset == (Window(now) + 1) * 60 && headers.reset as real - RATE_WINDOW <= now
    {
      hide InTime, FairLog, CallsIn, Agrees, WindowClose;
      var window := Window(now);
      var key := Key(caller, window);
      NeverExpiresInWindow(counters, log, clock, now, key);
      var live := key in counters && now <= counters[key].expiresAt;
      var current := if live then counters[key].count + 1 else 1;
      var expiry := if current == 1 then now + lag + RATE_WINDOW else counters[key].expiresAt;
      accepted := current <= RATE_LIMIT;
      LogOneMore(log, clock, Call(caller, now, accepted));
      Counted(counters, log, clock, Call(caller, now, accepted), expiry);
      counters := counters[key := Counter(current, expiry)];
      headers := Headers(RATE_LIMIT, Left(current), (window + 1) * 60);
      CloseOf(window, now);
      clock := now;
      log := log + [Call(caller, now, accepted)];
    }
  }

  function Left(calls: nat): nat { if calls < RATE_LIMIT then RATE_LIMIT - calls else 0 }

  function WindowClose(w: int): real { (w + 1) as real * RATE_WINDOW }

  lemma CloseOf(w: int, now: real)
    requires w == Window(now)
    ensures ((w + 1) * 60) as real == WindowClose(w) > now
  {
  }

  /** The key of the current window is stored, alive and exact as soon as the window has seen a call. */
  lemma NeverExpiresInWindow(counters: map<Key, Counter>, log: seq<Call>, clock: real, now: real, key: Key)
    requires Agrees(counters, log, clock) && clock <= now
    requires key.window == Window(now)
    ensures key in counters ==> now < counters[key].expiresAt
                                && counters[key].count == CallsIn(log, key.caller, key.window) > 0
    ensures key !in counters ==> CallsIn(log, key.caller, key.window) == 0
  {
    hide CallsIn;
    CloseOf(key.window, now);
  }

  lemma Counted(counters: map<Key, Counter>, log: seq<Call>, clock: real, call: Call, expiry: real)
    requires Agrees(counters, log, clock) && clock <= call.time
    requires expiry >= call.time + RATE_WINDOW ||
             (Key(call.caller, Window(call.time)) in counters
              && expiry == counters[Key(call.caller, Window(call.time))].expiresAt)
    requires forall c, w :: CallsIn(log + [call], c, w) ==
                            CallsIn(log, c, w) + if call.caller == c && Window(call.time) == w then 1 else 0
    ensures var key := Key(call.caller, Window(call.time));
            Agrees(counters[key := Counter(CallsIn(log, call.caller, key.window) + 1, expiry)], log + [call], call.time)
  {
    hide CallsIn, Window;
    var window := Window(call.time);
    assert WindowClose(window) <= call.time + RATE_WINDOW by {
      assert window as real * RATE_WINDOW <= call.time;
    }
  }

  lemma LogOneMore(log: seq<Call>, clock: real, call: Call)
    requires InTime(log, clock) && FairLog(log) && clock <= call.time
    requires call.accepted <==> CallsIn(log, call.caller, Window(call.time)) < RATE_LIMIT
    ensures InTime(log + [call], call.time) && FairLog(log + [call])
    ensures forall c, w :: CallsIn(log + [call], c, w) ==
                           CallsIn(log, c, w) + if call.caller == c && Window(call.time) == w then 1 else 0
  {
    var log' := log + [call];
    assert log'[..|log|] == log;
    forall i | 0 <= i < |log'|
      ensures log'[i].accepted <==> CallsIn(log'[..i], log'[i].caller, Window(log'[i].time)) < RATE_LIMIT
    {
      if i < |log| { assert log'[..i] == log[..i]; }
    }
  }

  // ---- what the limiter guarantees about every history --------------------

  function AcceptedIn(log: seq<Call>, c: Caller, w: int): nat {
    if log == [] then 0
    else AcceptedIn(log[..|log| - 1], c, w)
         + if log[|log| - 1].caller == c && log[|log| - 1].accepted && Window(log[|log| - 1].time) == w then 1 else 0
  }

  function AcceptedBetween(log: seq<Call>, c: Caller, from: real, to: real): nat {
    if log == [] then 0
    else AcceptedBetween(log[..|log| - 1], c, from, to)
         + if log[|log| - 1].caller == c && log[|log| - 1].accepted && from <= log[|log| - 1].time <= to then 1 else 0
  }

  lemma FairPrefix(log: seq<Call>)
    requires FairLog(log) && log != []
    ensures FairLog(log[..|log| - 1])
  {
    var front := log[..|log| - 1];
    forall i | 0 <= i < |front|
      ensures front[i].accepted <==> CallsIn(front[..i], front[i].caller, Window(front[i].time)) < RATE_LIMIT
    {
      assert front[..i] == log[..i];
    }
  }

  /** Exactly the first ten calls of a window are accepted. */
  lemma {:induction false} TenPerWindow(log: seq<Call>, c: Caller, w: int)
    requires FairLog(log)
    ensures AcceptedIn(log, c, w) == if CallsIn(log, c, w) <= RATE_LIMIT then CallsIn(log, c, w) else RATE_LIMIT
  {
    if log != [] {
      FairPrefix(log);
      TenPerWindow(log[..|log| - 1], c, w);
    }
  }

  /** A span of sixty seconds meets at most two windows. */
  lemma {:induction false} SpanWithinTwoWindows(log: seq<Call>, c: Caller, from: real)
    ensures AcceptedBetween(log, c, from, from + RATE_WINDOW) <=
            AcceptedIn(log, c, Window(from)) + AcceptedIn(log, c, Window(from) + 1)
  {
    if log != [] {
      SpanWithinTwoWindows(log[..|log| - 1], c, from);
      var t := log[|log| - 1].time;
      if from <= t <= from + RATE_WINDOW {
        WindowsOfSpan(from, t);
      }
    }
  }

  lemma WindowsOfSpan(from: real, t: real)
    requires from <= t <= from + RATE_WINDOW
    ensures Window(t) == Window(from) || Window(t) == Window(from) + 1
  {
  }

  lemma TwentyPerSpan(log: seq<Call>, c: Caller, from: real)
    requires FairLog(log)
    ensures AcceptedBetween(log, c, from, from + RATE_WINDOW) <= 2 * RATE_LIMIT
  {
    SpanWithinTwoWindows(log, c, from);
    TenPerWindow(log, c, Window(from));
    TenPerWindow(log, c, Window(from) + 1);
  }
}
