/** Token-bucket rate limiting per client, with eviction of stale buckets; tokens and times are reals. */
module RateLimits {

  datatype Limits = Limits(burst: nat, rate: nat)

  datatype Bucket = Bucket(tokens: real, lastRefill: real)

  function Full(l: Limits, now: real): Bucket {
    Bucket(l.burst as real, now)
  }

  /** What accrues between two moments. */
  function Accrued(l: Limits, from: real, to: real): real {
    (to - from) * l.rate as real
  }

  function Refilled(l: Limits, b: Bucket, now: real): Bucket {
    var tokens := b.tokens + Accrued(l, b.lastRefill, now);
    Bucket(if tokens > l.burst as real then l.burst as real else tokens, now)
  }

  function Allows(l: Limits, b: Bucket, now: real): bool {
    Refilled(l, b, now).tokens >= 1.0
  }

  function Allowed(l: Limits, b: Bucket, now: real): Bucket {
    var r := Refilled(l, b, now);
    if r.tokens >= 1.0 then Bucket(r.tokens - 1.0, now) else r
  }

  ghost predicate InRange(l: Limits, b: Bucket) {
    0.0 <= b.tokens <= l.burst as real
  }

  lemma AccruedNotNegative(l: Limits, from: real, to: real)
    requires from <= to
    ensures Accrued(l, from, to) >= 0.0
  {
  }

  lemma AccruedAdds(l: Limits, a: real, b: real, c: real)
    ensures Accrued(l, a, b) + Accrued(l, b, c) == Accrued(l, a, c) && Accrued(l, a, a) == 0.0
  {
  }

  /** The tokens never leave the range from 0 to the burst size. */
  lemma AllowStaysInRange(l: Limits, b: Bucket, now: real)
    requires InRange(l, b) && b.lastRefill <= now
    ensures InRange(l, Refilled(l, b, now)) && InRange(l, Allowed(l, b, now)) && Allowed(l, b, now).lastRefill == now
  {
    AccruedNotNegative(l, b.lastRefill, now);
  }

  // ----- one bucket: no window admits more than its allowance

  ghost predicate Rising(times: seq<real>, from: real) {
    && (forall i | 0 <= i < |times| :: from <= times[i])
    && (forall i, j | 0 <= i < j < |times| :: times[i] <= times[j])
  }

  function BucketAfter(l: Limits, b: Bucket, times: seq<real>): Bucket {
    if times == [] then b
    else Allowed(l, BucketAfter(l, b, times[..|times| - 1]), times[|times| - 1])
  }

  /** How many of the requests from index `i` on are allowed. */
  function Admitted(l: Limits, b: Bucket, times: seq<real>, i: nat): nat
    requires i <= |times|
  {
    if i == |times| then 0
    else
      var init := times[..|times| - 1];
      Admitted(l, b, init, i) + if Allows(l, BucketAfter(l, b, init), times[|times| - 1]) then 1 else 0
  }

  lemma {:induction false} RunStaysInRange(l: Limits, b: Bucket, times: seq<real>)
    requires InRange(l, b) && Rising(times, b.lastRefill)
    ensures InRange(l, BucketAfter(l, b, times))
    ensures BucketAfter(l, b, times).lastRefill == if times == [] then b.lastRefill else times[|times| - 1]
  {
    if times != [] {
      var init := times[..|times| - 1];
      RunStaysInRange(l, b, init);
      AllowStaysInRange(l, BucketAfter(l, b, init), times[|times| - 1]);
    }
  }

  /** What a request takes and leaves never exceeds what was there and what accrued. */
  lemma AllowConserves(l: Limits, b: Bucket, now: real)
    ensures Allowed(l, b, now).tokens + (if Allows(l, b, now) then 1.0 else 0.0) 
            <= b.tokens + Accrued(l, b.lastRefill, now)
    ensures Allowed(l, b, now).tokens + (if Allows(l, b, now) then 1.0 else 0.0) <= l.burst as real
  {
  }

  /** Requests `i` to the last, together with the tokens left, fit in the burst and what accrues between them. */
  lemma {:induction false} WindowConserves(l: Limits, b: Bucket, times: seq<real>, i: nat)
    requires InRange(l, b) && Rising(times, b.lastRefill) && i < |times|
    ensures Admitted(l, b, times, i) as real + BucketAfter(l, b, times).tokens
            <= l.burst as real + Accrued(l, times[i], times[|times| - 1])
  {
    var init, last := times[..|times| - 1], times[|times| - 1];
    var before := BucketAfter(l, b, init);
    RunStaysInRange(l, b, init);
    AllowConserves(l, before, last);
    if i < |init| {
      WindowConserves(l, b, init, i);
      AccruedAdds(l, times[i], init[|init| - 1], last);
    } else {
      AccruedAdds(l, last, last, last);
      assert Admitted(l, b, init, i) == 0;
    }
  }

  /** In any window of any run the requests allowed number at most the burst size plus what the window accrues. */
  lemma WindowBound(l: Limits, start: real, times: seq<real>, i: nat, j: nat)
    requires Rising(times, start) && i < j <= |times|
    ensures Admitted(l, Full(l, start), times[..j], i) as real
            <= l.burst as real + Accrued(l, times[i], times[j - 1])
  {
    var window := times[..j];
    WindowConserves(l, Full(l, start), window, i);
    RunStaysInRange(l, Full(l, start), window);
    assert window[|window| - 1] == times[j - 1] && window[i] == times[i];
  }

  // ----- one bucket: exactly the requests beyond the allowance are refused

  function Least(x: real, y: real): real {
    if x < y then x else y
  }

  /** What is left, with the token taken, is what was there and what has accrued since, up to the burst size. */
  lemma AllowAccounts(l: Limits, b: Bucket, now: real)
    ensures var after := Allowed(l, b, now);
            var level := Least(l.burst as real, b.tokens + (now - b.lastRefill) * l.rate as real);
            && (Allows(l, b, now) <==> level >= 1.0)
            && after.tokens + (if Allows(l, b, now) then 1.0 else 0.0) == level
            && after.lastRefill == now
  {
  }

  lemma AllowAccrues(l: Limits, b: Bucket, now: real)
    ensures var level := Least(l.burst as real, b.tokens + Accrued(l, b.lastRefill, now));
            && (Allows(l, b, now) <==> level >= 1.0)
            && Allowed(l, b, now).tokens + (if Allows(l, b, now) then 1.0 else 0.0) == level
            && Allowed(l, b, now).lastRefill == now
  {
  }

  /** The tokens there are for the last request, before it takes one. */
  function LevelAt(l: Limits, b: Bucket, times: seq<real>): real
    requires times != []
  {
    var before := BucketAfter(l, b, times[..|times| - 1]);
    Least(l.burst as real, before.tokens + Accrued(l, before.lastRefill, times[|times| - 1]))
  }

  /** What the requests from `i` on have left of a full bucket, if none of the accrual since was lost. */
  function LeftSince(l: Limits, b: Bucket, times: seq<real>, i: nat): real
    requires i < |times|
  {
    var n := |times| - 1;
    l.burst as real + Accrued(l, times[i], times[n]) - Admitted(l, b, times[..n], i) as real
  }

  /** After the last request but one: one more token admitted is one token less. */
  lemma OneMore(l: Limits, b: Bucket, times: seq<real>, i: nat)
    requires i < |times|
    ensures BucketAfter(l, b, times).lastRefill == times[|times| - 1]
    ensures BucketAfter(l, b, times).tokens + Admitted(l, b, times, i) as real
            == LevelAt(l, b, times) + Admitted(l, b, times[..|times| - 1], i) as real
  {
    AllowAccrues(l, BucketAfter(l, b, times[..|times| - 1]), times[|times| - 1]);
  }

  lemma LeftSinceNext(l: Limits, b: Bucket, times: seq<real>, i: nat)
    requires i + 1 < |times|
    ensures var n := |times| - 1;
            var before := BucketAfter(l, b, times[..n]);
            && before.lastRefill == times[n - 1]
            && LeftSince(l, b, times, i) - before.tokens - Accrued(l, times[n - 1], times[n])
               == LeftSince(l, b, times[..n], i) - LevelAt(l, b, times[..n])
  {
    var n := |times| - 1;
    OneMore(l, b, times[..n], i);
    AccruedAdds(l, times[i], times[n - 1], times[n]);
  }

  lemma LastWindow(l: Limits, b: Bucket, times: seq<real>)
    requires times != []
    ensures LeftSince(l, b, times, |times| - 1) == l.burst as real
  {
    AccruedAdds(l, times[|times| - 1], times[|times| - 1], times[|times| - 1]);
  }

  /** No window leaves less than the level, ... */
  lemma {:induction false} LevelBelow(l: Limits, b: Bucket, times: seq<real>, i: nat)
    requires i < |times|
    ensures LevelAt(l, b, times) <= LeftSince(l, b, times, i)
  {
    var n := |times| - 1;
    if i < n {
      LevelBelow(l, b, times[..n], i);
      LeftSinceNext(l, b, times, i);
    } else {
      LastWindow(l, b, times);
    }
  }

  /** ... and the one that starts when the bucket was last full leaves exactly that. */
  lemma {:induction false} LevelReached(l: Limits, start: real, times: seq<real>) returns (i: nat)
    requires times != [] && start <= times[0]
    ensures i < |times| && LevelAt(l, Full(l, start), times) == LeftSince(l, Full(l, start), times, i)
  {
    var b, n := Full(l, start), |times| - 1;
    var before := BucketAfter(l, b, times[..n]);
    if before.tokens + Accrued(l, before.lastRefill, times[n]) >= l.burst as real {
      i := n;
      LastWindow(l, b, times);
    } else if n == 0 {
      i := 0;
      AccruedNotNegative(l, start, times[0]);
    } else {
      i := LevelReached(l, start, times[..n]);
      LeftSinceNext(l, b, times, i);
    }
  }

  /** With this request a window that starts at request `i` would exceed the burst size and what it accrues. */
  predicate Exceeds(l: Limits, start: real, times: seq<real>, j: nat, i: nat)
    requires i <= j < |times|
  {
    Admitted(l, Full(l, start), times[..j], i) as real + 1.0 > l.burst as real + (times[j] - times[i]) * l.rate as real
  }

  lemma ExceedsIs(l: Limits, start: real, times: seq<real>, j: nat, i: nat)
    requires i <= j < |times|
    ensures Exceeds(l, start, times, j, i) <==> LeftSince(l, Full(l, start), times[..j + 1], i) < 1.0
  {
    assert times[..j + 1][..j] == times[..j];
  }

  /** In any run from a full bucket, a request is refused exactly if with it some window would exceed its allowance. */
  lemma RefusedExactly(l: Limits, start: real, times: seq<real>, j: nat)
    requires j < |times| && start <= times[0]
    ensures !Allows(l, BucketAfter(l, Full(l, start), times[..j]), times[j]) <==>
            exists i | 0 <= i <= j :: Exceeds(l, start, times, j, i)
  {
    var b, upTo := Full(l, start), times[..j + 1];
    assert upTo[..j] == times[..j];
    AllowAccrues(l, BucketAfter(l, b, times[..j]), times[j]);
    forall i: nat | i <= j
      ensures LevelAt(l, b, upTo) <= LeftSince(l, b, upTo, i) && (Exceeds(l, start, times, j, i) <==> LeftSince(l, b, upTo, i) < 1.0)
    {
      LevelBelow(l, b, upTo, i);
      ExceedsIs(l, start, times, j, i);
    }
    var i := LevelReached(l, start, upTo);
    ExceedsIs(l, start, times, j, i);
  }

  // ----- many clients, with eviction

  type Clients = map<string, Bucket>

  datatype Call = Request(at: real, client: string) | Cleanup(at: real)

  function BucketFor(l: Limits, s: Clients, client: string, now: real): Bucket {
    if client in s then s[client] else Full(l, now)
  }

  function Evicted(s: Clients, maxAge: real, now: real): Clients {
    map c | c in s && !(now - s[c].lastRefill > maxAge) :: s[c]
  }

  /** A request: the client's bucket, or a full one for a new client, refilled and taken from. */
  function Served(l: Limits, s: Clients, client: string, at: real): Clients {
    s[client := Allowed(l, BucketFor(l, s, client, at), at)]
  }

  function Step(l: Limits, maxAge: real, s: Clients, c: Call): Clients {
    match c
    case Request(at, client) => Served(l, s, client, at)
    case Cleanup(at) => Evicted(s, maxAge, at)
  }

  function After(l: Limits, maxAge: real, s: Clients, calls: seq<Call>): Clients
    decreases |calls|
  {
    if calls == [] then s else After(l, maxAge, Step(l, maxAge, s, calls[0]), calls[1..])
  }

  /** One answer for every request. */
  function Answers(l: Limits, maxAge: real, s: Clients, calls: seq<Call>): seq<bool>
    decreases |calls|
  {
    if calls == [] then [] else
      var c := calls[0];
      (if c.Request? then [Allows(l, BucketFor(l, s, c.client, c.at), c.at)] else [])
      + Answers(l, maxAge, Step(l, maxAge, s, c), calls[1..])
  }

  function WithoutCleanup(calls: seq<Call>): seq<Call> {
    if calls == [] then []
    else if calls[0].Cleanup? then WithoutCleanup(calls[1..])
    else [calls[0]] + WithoutCleanup(calls[1..])
  }

  ghost predicate Timed(calls: seq<Call>, from: real) {
    && (forall i | 0 <= i < |calls| :: from <= calls[i].at)
    && (forall i, j | 0 <= i < j < |calls| :: calls[i].at <= calls[j].at)
  }

  /** Eviction loses nothing when a bucket idle for `maxAge` has filled up. */
  predicate FillsUp(l: Limits, maxAge: real) {
    l.rate as real * maxAge >= l.burst as real
  }

  /** The second limiter holds the first's buckets, and otherwise only buckets idle for more than `maxAge`. */
  ghost predicate OnlyStaleMissing(l: Limits, maxAge: real, s: Clients, t: Clients, now: real) {
    && (forall c | c in s :: c in t && t[c] == s[c])
    && (forall c | c in t :: InRange(l, t[c]) && t[c].lastRefill <= now)
    && (forall c | c in t && c !in s :: now - t[c].lastRefill > maxAge)
  }

  lemma StaleIsFull(l: Limits, maxAge: real, b: Bucket, now: real)
    requires FillsUp(l, maxAge) && maxAge >= 0.0 && InRange(l, b) && now - b.lastRefill > maxAge
    ensures Refilled(l, b, now) == Refilled(l, Full(l, now), now) == Full(l, now)
  {
    AccruedNotNegative(l, b.lastRefill + maxAge, now);
    AccruedAdds(l, b.lastRefill, b.lastRefill + maxAge, now);
    AccruedAdds(l, now, now, now);
  }

  lemma StepAgrees(l: Limits, maxAge: real, s: Clients, t: Clients, c: Call, now: real)
    requires FillsUp(l, maxAge) && maxAge >= 0.0 && OnlyStaleMissing(l, maxAge, s, t, now) && now <= c.at
    ensures c.Request? ==> Allows(l, BucketFor(l, s, c.client, c.at), c.at) == Allows(l, BucketFor(l, t, c.client, c.at), c.at)
    ensures OnlyStaleMissing(l, maxAge, Step(l, maxAge, s, c), if c.Cleanup? then t else Step(l, maxAge, t, c), c.at)
  {
    if c.Request? {
      var b := BucketFor(l, t, c.client, c.at);
      if c.client in t && c.client !in s {
        StaleIsFull(l, maxAge, b, c.at);
      }
      AllowStaysInRange(l, b, c.at);
    }
  }

  lemma {:induction false} EvictionAgrees(l: Limits, maxAge: real, s: Clients, t: Clients, calls: seq<Call>, now: real)
    requires FillsUp(l, maxAge) && maxAge >= 0.0 && OnlyStaleMissing(l, maxAge, s, t, now) && Timed(calls, now)
    ensures Answers(l, maxAge, s, calls) == Answers(l, maxAge, t, WithoutCleanup(calls))
    decreases |calls|
  {
    if calls != [] {
      var c, rest := calls[0], calls[1..];
      StepAgrees(l, maxAge, s, t, c, now);
      if c.Cleanup? {
        EvictionAgrees(l, maxAge, Step(l, maxAge, s, c), t, rest, c.at);
      } else {
        EvictionAgrees(l, maxAge, Step(l, maxAge, s, c), Step(l, maxAge, t, c), rest, c.at);
        assert WithoutCleanup(calls)[1..] == WithoutCleanup(rest);
      }
    }
  }

  // ----- and conversely: too short an age lets a client burst twice

  lemma {:induction false} RunsCompose(l: Limits, maxAge: real, s: Clients, a: seq<Call>, b: seq<Call>)
    ensures Answers(l, maxAge, s, a + b) == Answers(l, maxAge, s, a) + Answers(l, maxAge, After(l, maxAge, s, a), b)
    ensures After(l, maxAge, s, a + b) == After(l, maxAge, After(l, maxAge, s, a), b)
    decreases |a|
  {
    if a == [] {
      assert a + b == b;
    } else {
      assert (a + b)[1..] == a[1..] + b;
      RunsCompose(l, maxAge, Step(l, maxAge, s, a[0]), a[1..], b);
    }
  }

  function Burst(client: string, at: real, n: nat): (calls: seq<Call>)
    ensures |calls| == n && forall i | 0 <= i < n :: calls[i] == Request(at, client)
  {
    if n == 0 then [] else [Request(at, client)] + Burst(client, at, n - 1)
  }

  lemma {:induction false} BurstHasNoCleanup(client: string, at: real, n: nat, rest: seq<Call>)
    ensures WithoutCleanup(Burst(client, at, n) + rest) == Burst(client, at, n) + WithoutCleanup(rest)
  {
    var burst := Burst(client, at, n);
    if n == 0 {
      assert burst + rest == rest;
    } else {
      assert (burst + rest)[1..] == Burst(client, at, n - 1) + rest;
      BurstHasNoCleanup(client, at, n - 1, rest);
    }
  }

  /** The client's tokens after refilling at this moment. */
  function Level(l: Limits, s: Clients, client: string, now: real): real {
    Refilled(l, BucketFor(l, s, client, now), now).tokens
  }

  lemma RequestTakesOne(l: Limits, maxAge: real, s: Clients, client: string, at: real)
    ensures var next := Step(l, maxAge, s, Request(at, client));
            && client in next && next[client].lastRefill == at
            && Level(l, next, client, at) == next[client].tokens
               == Level(l, s, client, at) - if Level(l, s, client, at) >= 1.0 then 1.0 else 0.0
  {
    AccruedAdds(l, at, at, at);
  }

  /** Of `n` requests at one moment all are allowed exactly if the level is at least `n`. */
  lemma {:induction false} BurstAnswers(l: Limits, maxAge: real, s: Clients, client: string, at: real, n: nat)
    requires 0.0 <= Level(l, s, client, at)
    ensures var run := Burst(client, at, n);
            && (false in Answers(l, maxAge, s, run) <==> Level(l, s, client, at) < n as real)
            && |Answers(l, maxAge, s, run)| == n
            && (Level(l, s, client, at) >= n as real && n > 0 ==>
                  After(l, maxAge, s, run) == s[client := Bucket(Level(l, s, client, at) - n as real, at)])
    decreases n
  {
    if n > 0 {
      var run := Burst(client, at, n);
      var next := Step(l, maxAge, s, run[0]);
      assert run[0] == Request(at, client) && run[1..] == Burst(client, at, n - 1);
      RequestTakesOne(l, maxAge, s, client, at);
      BurstAnswers(l, maxAge, next, client, at, n - 1);
    }
  }

  /** A moment after `maxAge` by which an empty bucket has not filled up. */
  function Later(l: Limits, maxAge: real): real {
    if l.rate == 0 then maxAge + 1.0 else (maxAge + l.burst as real / l.rate as real) / 2.0
  }

  lemma LaterIsTooSoon(l: Limits, maxAge: real)
    requires maxAge >= 0.0 && !FillsUp(l, maxAge)
    ensures Later(l, maxAge) > maxAge && 0.0 <= Accrued(l, 0.0, Later(l, maxAge)) < l.burst as real
  {
    if l.rate > 0 {
      var r := l.rate as real;
      var full := l.burst as real / r;
      assert full * r == l.burst as real;
      assert (full - maxAge) * r > 0.0;
      assert full > maxAge;
      assert (full - Later(l, maxAge)) * r > 0.0;
    }
  }

  /** Empty the bucket, clean up when it is stale but not full again, and ask for a full burst. */
  function DoubleBurst(l: Limits, maxAge: real): seq<Call> {
    var at := Later(l, maxAge);
    Burst("c", 0.0, l.burst) + ([Cleanup(at)] + Burst("c", at, l.burst))
  }

  lemma FirstBurst(l: Limits, maxAge: real)
    requires l.burst > 0
    ensures After(l, maxAge, map[], Burst("c", 0.0, l.burst)) == map["c" := Bucket(0.0, 0.0)]
  {
    var start: Clients := map[];
    AccruedAdds(l, 0.0, 0.0, 0.0);
    BurstAnswers(l, maxAge, start, "c", 0.0, l.burst);
    assert start["c" := Bucket(0.0, 0.0)] == map["c" := Bucket(0.0, 0.0)];
  }

  /** A fresh bucket allows the second burst; the bucket emptied by the first does not. */
  lemma SecondBurst(l: Limits, maxAge: real)
    requires maxAge >= 0.0 && !FillsUp(l, maxAge)
    ensures var run := Burst("c", Later(l, maxAge), l.burst);
            false !in Answers(l, maxAge, map[], run) && false in Answers(l, maxAge, map["c" := Bucket(0.0, 0.0)], run)
  {
    var at := Later(l, maxAge);
    LaterIsTooSoon(l, maxAge);
    AccruedAdds(l, at, at, at);
    BurstAnswers(l, maxAge, map[], "c", at, l.burst);
    BurstAnswers(l, maxAge, map["c" := Bucket(0.0, 0.0)], "c", at, l.burst);
  }

  lemma BurstThen(l: Limits, maxAge: real, rest: seq<Call>)
    requires l.burst > 0
    ensures Answers(l, maxAge, map[], Burst("c", 0.0, l.burst) + rest) ==
            Answers(l, maxAge, map[], Burst("c", 0.0, l.burst)) + Answers(l, maxAge, map["c" := Bucket(0.0, 0.0)], rest)
  {
    FirstBurst(l, maxAge);
    RunsCompose(l, maxAge, map[], Burst("c", 0.0, l.burst), rest);
  }

  lemma CleanupEvicts(l: Limits, maxAge: real, run: seq<Call>)
    requires maxAge >= 0.0 && !FillsUp(l, maxAge)
    ensures Answers(l, maxAge, map["c" := Bucket(0.0, 0.0)], [Cleanup(Later(l, maxAge))] + run) == Answers(l, maxAge, map[], run)
  {
    var at := Later(l, maxAge);
    LaterIsTooSoon(l, maxAge);
    assert ([Cleanup(at)] + run)[1..] == run;
    assert Evicted(map["c" := Bucket(0.0, 0.0)], maxAge, at) == map[];
  }

  lemma DoubleBurstWithoutCleanup(l: Limits, maxAge: real)
    ensures WithoutCleanup(DoubleBurst(l, maxAge)) == Burst("c", 0.0, l.burst) + Burst("c", Later(l, maxAge), l.burst)
  {
    var at := Later(l, maxAge);
    var second := Burst("c", at, l.burst);
    BurstHasNoCleanup("c", 0.0, l.burst, [Cleanup(at)] + second);
    assert ([Cleanup(at)] + second)[1..] == second;
    BurstHasNoCleanup("c", at, l.burst, []);
    assert second + [] == second;
  }

  lemma SamePrefix(a: seq<bool>, x: seq<bool>, y: seq<bool>)
    requires false !in x && false in y
    ensures a + x != a + y
  {
    assert (a + x)[|a|..] == x && (a + y)[|a|..] == y;
  }

  lemma DoubleBurstDiffers(l: Limits, maxAge: real)
    requires maxAge >= 0.0 && !FillsUp(l, maxAge)
    ensures Answers(l, maxAge, map[], DoubleBurst(l, maxAge))
            != Answers(l, maxAge, map[], WithoutCleanup(DoubleBurst(l, maxAge)))
  {
    var second := Burst("c", Later(l, maxAge), l.burst);
    DoubleBurstWithoutCleanup(l, maxAge);
    assert l.burst > 0;
    BurstThen(l, maxAge, [Cleanup(Later(l, maxAge))] + second);
    CleanupEvicts(l, maxAge, second);
    BurstThen(l, maxAge, second);
    SecondBurst(l, maxAge);
    SamePrefix(Answers(l, maxAge, map[], Burst("c", 0.0, l.burst)), Answers(l, maxAge, map[], second),
               Answers(l, maxAge, map["c" := Bucket(0.0, 0.0)], second));
  }

  lemma DoubleBurstIsTimed(l: Limits, maxAge: real)
    requires maxAge >= 0.0 && !FillsUp(l, maxAge)
    ensures Timed(DoubleBurst(l, maxAge), 0.0)
  {
    LaterIsTooSoon(l, maxAge);
    var calls := DoubleBurst(l, maxAge);
    assert calls[l.burst] == Cleanup(Later(l, maxAge));
    assert forall i | 0 <= i < l.burst :: calls[i].at == 0.0;
    assert forall i | l.burst < i < |calls| :: calls[i] == Burst("c", Later(l, maxAge), l.burst)[i - l.burst - 1];
  }

  /** Eviction changes no answer in any run exactly if a bucket idle for `maxAge` has filled up. */
  lemma EvictionIsInvisible(l: Limits, maxAge: real)
    requires maxAge >= 0.0
    ensures FillsUp(l, maxAge) <==>
            forall calls | Timed(calls, 0.0) ::
              Answers(l, maxAge, map[], calls) == Answers(l, maxAge, map[], WithoutCleanup(calls))
  {
    if FillsUp(l, maxAge) {
      forall calls | Timed(calls, 0.0)
        ensures Answers(l, maxAge, map[], calls) == Answers(l, maxAge, map[], WithoutCleanup(calls))
      {
        EvictionAgrees(l, maxAge, map[], map[], calls, 0.0);
      }
    } else {
      DoubleBurstIsTimed(l, maxAge);
      DoubleBurstDiffers(l, maxAge);
    }
  }

  // ----- one client among many

  /** The moments of the client's requests. */
  function TimesOf(calls: seq<Call>, client: string): seq<real> {
    if calls == [] then []
    else
      var last := calls[|calls| - 1];
      TimesOf(calls[..|calls| - 1], client) + if last.Request? && last.client == client then [last.at] else []
  }

  /** The client's bucket is that of these requests alone, full when the first of them comes. */
  ghost predicate IsOwn(l: Limits, s: Clients, client: string, times: seq<real>) {
    && (client in s <==> times != [])
    && (times != [] ==> s[client] == BucketAfter(l, Full(l, times[0]), times))
  }

  lemma OwnServed(l: Limits, s: Clients, client: string, times: seq<real>, at: real)
    requires IsOwn(l, s, client, times)
    ensures IsOwn(l, Served(l, s, client, at), client, times + [at])
  {
    var more := times + [at];
    assert more[..|more| - 1] == times;
  }

  lemma {:induction false} OwnBucket(l: Limits, maxAge: real, calls: seq<Call>, client: string)
    requires forall c | c in calls :: c.Request?
    ensures IsOwn(l, After(l, maxAge, map[], calls), client, TimesOf(calls, client))
  {
    if calls != [] {
      var init, last := calls[..|calls| - 1], calls[|calls| - 1];
      assert calls == init + [last];
      assert last in calls;
      OwnBucket(l, maxAge, init, client);
      RunsCompose(l, maxAge, map[], init, [last]);
      assert [last][1..] == [];
      if last.client == client {
        OwnServed(l, After(l, maxAge, map[], init), client, TimesOf(init, client), last.at);
      } else {
        assert TimesOf(calls, client) == TimesOf(init, client);
      }
    }
  }

  /** With request `j` some window that ends with it would exceed its allowance. */
  ghost predicate SomeExceeds(l: Limits, start: real, times: seq<real>, j: nat)
    requires j < |times|
  {
    exists i | 0 <= i <= j :: Exceeds(l, start, times, j, i)
  }

  /**
    * Whatever other clients do in between, a request is refused if and only if with it the client's own requests in some window
    * ending with it would exceed the burst size plus what the window accrues.
    */
  lemma ClientRefusedExactly(l: Limits, maxAge: real, calls: seq<Call>, client: string, at: real)
    requires forall c | c in calls :: c.Request?
    ensures var own := TimesOf(calls, client) + [at];
            Answers(l, maxAge, map[], calls + [Request(at, client)]) ==
            Answers(l, maxAge, map[], calls) + [!SomeExceeds(l, own[0], own, |own| - 1)]
  {
    var times, s := TimesOf(calls, client), After(l, maxAge, map[], calls);
    var own := times + [at];
    OwnBucket(l, maxAge, calls, client);
    RunsCompose(l, maxAge, map[], calls, [Request(at, client)]);
    assert [Request(at, client)][1..] == [];
    assert own[..|times|] == times;
    RefusedExactly(l, own[0], own, |times|);
    assert BucketFor(l, s, client, at) == BucketAfter(l, Full(l, own[0]), times);
  }

  // ----- the limiter as objects

  class TokenBucket {
    var tokens: real
    const maxTokens: real
    const refillRate: real
    var lastRefill: real

    function View(): Bucket
      reads this
    {
      Bucket(tokens, lastRefill)
    }

    constructor (maxTokens: real, refillRate: real, now: real)
      ensures this.maxTokens == maxTokens && this.refillRate == refillRate && View() == Bucket(maxTokens, now)
    {
      tokens, this.maxTokens, this.refillRate, lastRefill := maxTokens, maxTokens, refillRate, now;
    }

    method Allow(ghost l: Limits, now: real) returns (ok: bool)
      requires maxTokens == l.burst as real && refillRate == l.rate as real
      modifies this
      ensures View() == Allowed(l, old(View()), now) && ok == Allows(l, old(View()), now)
      ensures tokens + (if ok then 1.0 else 0.0) == Least(maxTokens, old(tokens) + (now - old(lastRefill)) * refillRate)
      ensures lastRefill == now && (ok || tokens < 1.0)
      ensures old(InRange(l, View())) && old(lastRefill) <= now ==> InRange(l, View())
    {
      if InRange(l, View()) && lastRefill <= now {
        AllowStaysInRange(l, View(), now);
      }
      var elapsed := now - lastRefill;
      tokens := tokens + elapsed * refillRate;
      if tokens > maxTokens {
        tokens := maxTokens;
      }
      lastRefill := now;
      if tokens >= 1.0 {
        tokens := tokens - 1.0;
        return true;
      }
      return false;
    }
  }

  class RateLimiter {
    const limits: Limits
    var clients: map<string, TokenBucket>

    /** Every client has its own bucket with the configured limits. */
    ghost predicate Valid()
      reads this, clients.Values
    {
      && (forall c | c in clients ::
            clients[c].maxTokens == limits.burst as real && clients[c].refillRate == limits.rate as real)
      && (forall c, d | c in clients && d in clients && c != d :: clients[c] != clients[d])
    }

    function View(): Clients
      reads this, clients.Values
    {
      map c | c in clients :: clients[c].View()
    }

    constructor (limits: Limits)
      ensures Valid() && this.limits == limits && clients == map[]
    {
      this.limits, clients := limits, map[];
    }

    method GetClientBucket(client: string, now: real) returns (bucket: TokenBucket)
      requires Valid()
      modifies this
      ensures Valid() && client in clients && clients[client] == bucket
      ensures forall c | c in old(clients) :: c in clients && clients[c] == old(clients[c])
      ensures clients.Keys == old(clients.Keys) + {client}
      ensures client in old(clients) || (fresh(bucket) && bucket.View() == Full(limits, now))
    {
      if client in clients {
        bucket := clients[client];
      } else {
        bucket := new TokenBucket(limits.burst as real, limits.rate as real, now);
        clients := clients[client := bucket];
      }
    }

    method Request(client: string, now: real) returns (ok: bool)
      requires Valid()
      modifies this, clients.Values
      ensures Valid() && fresh(clients.Values - old(clients.Values))
      ensures ok == Allows(limits, BucketFor(limits, old(View()), client, now), now)
      ensures View() == Served(limits, old(View()), client, now)
    {
      var bucket := GetClientBucket(client, now);
      ok := bucket.Allow(limits, now);
    }

    method CleanupStaleClients(maxAge: real, now: real)
      requires Valid()
      modifies this
      ensures Valid() && clients.Values <= old(clients.Values)
      ensures View() == Evicted(old(View()), maxAge, now)
    {
      ghost var was := View();
      var rest := clients.Keys;
      while rest != {}
        invariant rest <= clients.Keys <= was.Keys
        invariant forall c | c in clients :: clients[c] == old(clients)[c]
        invariant forall c :: c in clients <==> c in was && (c in rest || !(now - was[c].lastRefill > maxAge))
        decreases |rest|
      {
        var key :| key in rest;
        if now - clients[key].lastRefill > maxAge {
          clients := clients - {key};
        }
        rest := rest - {key};
      }
    }
  }
}
