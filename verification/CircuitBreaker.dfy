/** The circuit breaker (pkg/circuitbreaker).

    Time is an integer clock reading.  A call is split as in the source: `Preflight`
    decides admission, `Postflight` records the outcome, and calls may overlap between
    the two.  Class `CB` carries the mutable fields; the functions on `Breaker` say what
    each method does, and the lemmas are about whole runs.
  */
module BreakerModel {

  datatype State = Open | HalfOpen | Closed

  datatype Verdict = Admitted | ErrTripped | ErrTooManyRequests

  datatype Config = Config(
    maxRequests: int,
    cyclicPeriod: int,
    timeout: int,
    tripThreshold: int,
    failureRatio: real,
    minRequests: int)

  datatype Breaker = Breaker(
    state: State,
    resetCountersAt: int,
    resetStateAt: int,
    requests: nat,
    successes: nat,
    failures: nat,
    consecutiveSuccesses: nat,
    consecutiveFailures: nat)

  // ---------- What each method does ----------

  function Fresh(c: Config, now: int, now': int): Breaker
  {
    Breaker(Closed, now + c.cyclicPeriod, now' + c.timeout, 0, 0, 0, 0, 0)
  }

  /** The counters start over once the clock is past `resetCountersAt`. */
  function ResetCounters(c: Config, b: Breaker, now: int): Breaker
  {
    if now > b.resetCountersAt then
      Breaker(b.state, now + c.cyclicPeriod, b.resetStateAt, 0, 0, 0, 0, 0)
    else b
  }

  function Preflight(c: Config, b: Breaker, now: int): (Breaker, Verdict)
  {
    var b1 := ResetCounters(c, b, now);
    var b2 := if b1.state == Open && now > b1.resetStateAt
              then b1.(state := HalfOpen, resetStateAt := now + c.timeout) else b1;
    (b2,
     if b2.state == Open then ErrTripped
     else if b2.state == HalfOpen && b2.requests >= c.maxRequests then ErrTooManyRequests
     else Admitted)
  }

  /** One more completed request; `failed` says the error counts as a downstream error. */
  function Count(b: Breaker, failed: bool): Breaker
  {
    if failed then
      b.(requests := b.requests + 1, failures := b.failures + 1,
         consecutiveFailures := b.consecutiveFailures + 1, consecutiveSuccesses := 0)
    else
      b.(requests := b.requests + 1, successes := b.successes + 1,
         consecutiveSuccesses := b.consecutiveSuccesses + 1, consecutiveFailures := 0)
  }

  predicate ShouldTrip(c: Config, b: Breaker)
    requires b.requests > 0
  {
    if c.failureRatio > 0.0 then
      b.requests >= c.minRequests && b.failures as real / b.requests as real >= c.failureRatio
    else
      b.failures >= c.tripThreshold
  }

  function Postflight(c: Config, b: Breaker, failed: bool): Breaker
  {
    var b1 := Count(b, failed);
    match b1.state
    case Closed => if ShouldTrip(c, b1) then b1.(state := Open) else b1
    case HalfOpen => if b1.consecutiveSuccesses >= c.maxRequests then b1.(state := Closed) else b1
    case Open => b1
  }

  /** A call that runs to its end before the next one starts. */
  function Call(c: Config, b: Breaker, now: int, failed: bool): Breaker
  {
    var (b', v) := Preflight(c, b, now);
    if v == Admitted then Postflight(c, b', failed) else b'
  }

  // ---------- Runs of overlapping calls ----------

  /** One atomic step of a run, at a point in time: a call arrives and passes preflight,
      or an admitted call completes. */
  datatype Event = Arrive(at: int) | Complete(at: int, failed: bool)

  /** A breaker in use: the calls admitted but not yet completed, the time of the latest step,
      the time of the latest trip, if any, and the outcomes (did it fail?) of the calls that
      completed since the counters were last reset. */
  datatype Run = Run(b: Breaker, inFlight: nat, clock: int, trippedAt: int, outcomes: seq<bool>)

  ghost predicate Step(c: Config, r: Run, e: Event, r': Run)
  {
    && e.at >= r.clock
    && r'.clock == e.at
    && match e
       case Arrive(now) =>
         var (b', v) := Preflight(c, r.b, now);
         && r'.b == b'
         && r'.inFlight == r.inFlight + (if v == Admitted then 1 else 0)
         && r'.trippedAt == r.trippedAt
         && r'.outcomes == (if now > r.b.resetCountersAt then [] else r.outcomes)
       case Complete(now, failed) =>
         && r.inFlight > 0
         && r'.b == Postflight(c, r.b, failed)
         && r'.inFlight == r.inFlight - 1
         && r'.trippedAt == (if r.b.state != Open && r'.b.state == Open then now else r.trippedAt)
         && r'.outcomes == r.outcomes + [failed]
  }

  /** `rs` is a run: every state follows from the previous one by the event between. */
  ghost predicate IsRun(c: Config, rs: seq<Run>, es: seq<Event>)
  {
    && |rs| == |es| + 1
    && forall i :: 0 <= i < |es| ==> Step(c, rs[i], es[i], rs[i + 1])
  }

  /** The breaker after the steps of a run, whoever's calls they belong to. */
  function Turn(c: Config, b: Breaker, e: Event): Breaker
  {
    match e
    case Arrive(now) => Preflight(c, b, now).0
    case Complete(_, failed) => Postflight(c, b, failed)
  }

  function Turns(c: Config, b: Breaker, es: seq<Event>): Breaker
  {
    if es == [] then b else Turn(c, Turns(c, b, es[..|es| - 1]), es[|es| - 1])
  }

  lemma TurnsOneMore(c: Config, b: Breaker, es: seq<Event>, e: Event)
    ensures Turns(c, b, es + [e]) == Turn(c, Turns(c, b, es), e)
  {
    assert (es + [e])[..|es|] == es;
  }

  lemma {:induction false} TurnsInTwo(c: Config, b: Breaker, es: seq<Event>, es': seq<Event>)
    ensures Turns(c, b, es + es') == Turns(c, Turns(c, b, es), es')
    decreases |es'|
  {
    if es' == [] {
      assert es + es' == es;
    } else {
      var front, e := es'[..|es'| - 1], es'[|es'| - 1];
      assert es + es' == (es + front) + [e];
      TurnsInTwo(c, b, es, front);
      TurnsOneMore(c, b, es + front, e);
    }
  }

  /** The steps of one call, with those of others between: preflight, them, postflight. */
  lemma TurnsOfCall(c: Config, b: Breaker, now: int, others: seq<Event>, done: int, failed: bool)
    ensures Turns(c, b, [Arrive(now)]) == Preflight(c, b, now).0
    ensures Turns(c, b, [Arrive(now)] + (others + [Complete(done, failed)]))
         == Postflight(c, Turns(c, Preflight(c, b, now).0, others), failed)
  {
    TurnsOneMore(c, b, [], Arrive(now));
    assert [] + [Arrive(now)] == [Arrive(now)];
    TurnsInTwo(c, b, [Arrive(now)], others + [Complete(done, failed)]);
    TurnsOneMore(c, Preflight(c, b, now).0, others, Complete(done, failed));
  }

  lemma {:induction false} RunTurns(c: Config, rs: seq<Run>, es: seq<Event>, n: nat)
    requires IsRun(c, rs, es) && n <= |es|
    ensures rs[n].b == Turns(c, rs[0].b, es[..n])
  {
    if n == 0 {
    } else {
      RunTurns(c, rs, es, n - 1);
      assert es[..n][..n - 1] == es[..n - 1];
      assert Step(c, rs[n - 1], es[n - 1], rs[n]);
    }
  }

  ghost predicate Starts(c: Config, r: Run)
  {
    exists now, now' :: now <= now' <= r.clock && r == Run(Fresh(c, now, now'), 0, r.clock, r.clock, [])
  }

  /** The counters add up, and a streak is never longer than what it is a streak of. */
  ghost predicate Consistent(b: Breaker)
  {
    && b.requests == b.successes + b.failures
    && b.consecutiveSuccesses <= b.successes
    && b.consecutiveFailures <= b.failures
  }

  /** The state deadline never lies more than `timeout` ahead: of the clock always, and of
      the trip itself while the breaker is open because of that trip. */
  ghost predicate Timely(c: Config, r: Run)
  {
    && r.b.resetStateAt <= r.clock + c.timeout
    && (r.b.state == Open ==> r.b.resetStateAt <= r.trippedAt + c.timeout)
    && r.trippedAt <= r.clock
  }

  function CountOf(o: seq<bool>, x: bool): nat
  {
    if o == [] then 0 else CountOf(o[..|o| - 1], x) + (if o[|o| - 1] == x then 1 else 0)
  }

  /** How many outcomes at the end are all `x`. */
  function Streak(o: seq<bool>, x: bool): nat
  {
    if o == [] || o[|o| - 1] != x then 0 else 1 + Streak(o[..|o| - 1], x)
  }

  /** The five counters are what they are named after. */
  ghost predicate Counts(b: Breaker, o: seq<bool>)
  {
    && b.requests == |o|
    && b.successes == CountOf(o, false) && b.failures == CountOf(o, true)
    && b.consecutiveSuccesses == Streak(o, false) && b.consecutiveFailures == Streak(o, true)
  }

  lemma CountsOneMore(b: Breaker, o: seq<bool>, failed: bool)
    requires Counts(b, o)
    ensures Counts(Count(b, failed), o + [failed])
  {
    assert (o + [failed])[..|o|] == o;
  }

  /** A completion counts, and beyond that changes the state at most. */
  lemma OnlyStateChanges(c: Config, b: Breaker, failed: bool)
    ensures Postflight(c, b, failed) == Count(b, failed).(state := Postflight(c, b, failed).state)
    ensures b.state == Open ==> Postflight(c, b, failed).state == Open
  {
  }

  lemma StepInvariant(c: Config, r: Run, e: Event, r': Run)
    requires Step(c, r, e, r') && Counts(r.b, r.outcomes) && Timely(c, r)
    ensures Counts(r'.b, r'.outcomes) && Timely(c, r')
  {
    if e.Complete? {
      CountsOneMore(r.b, r.outcomes, e.failed);
      OnlyStateChanges(c, r.b, e.failed);
    }
  }

  lemma {:induction false} RunInvariant(c: Config, rs: seq<Run>, es: seq<Event>, k: nat)
    requires IsRun(c, rs, es) && Starts(c, rs[0]) && k < |rs|
    ensures Counts(rs[k].b, rs[k].outcomes) && Timely(c, rs[k])
  {
    if k == 0 {
    } else {
      RunInvariant(c, rs, es, k - 1);
      StepInvariant(c, rs[k - 1], es[k - 1], rs[k]);
    }
  }

  lemma {:induction false} StreakMeans(o: seq<bool>, x: bool)
    ensures Streak(o, x) <= |o|
    ensures forall i :: |o| - Streak(o, x) <= i < |o| ==> o[i] == x
    ensures Streak(o, x) < |o| ==> o[|o| - 1 - Streak(o, x)] != x
  {
    if o == [] {
    } else {
      StreakMeans(o[..|o| - 1], x);
    }
  }

  /** The last n outcomes are all successes. */
  ghost predicate LastSucceeded(o: seq<bool>, n: int)
  {
    0 <= n <= |o| && forall i :: |o| - n <= i < |o| ==> !o[i]
  }

  lemma LastSucceededIff(o: seq<bool>, n: nat)
    ensures LastSucceeded(o, n) <==> Streak(o, false) >= n
  {
    StreakMeans(o, false);
    var k := Streak(o, false);
    if k < |o| { assert o[|o| - 1 - k]; }
  }

  /** Too many of the window's outcomes are failures: by count, or as a share of enough. */
  ghost predicate TooManyFailed(c: Config, o: seq<bool>)
  {
    if c.failureRatio > 0.0 then
      |o| >= c.minRequests && CountOf(o, true) as real >= c.failureRatio * |o| as real
    else
      CountOf(o, true) >= c.tripThreshold
  }

  lemma TooManyFailedIff(c: Config, b: Breaker, o: seq<bool>)
    requires Counts(b, o) && o != []
    ensures ShouldTrip(c, b) <==> TooManyFailed(c, o)
  {
    RatioAsProduct(CountOf(o, true) as real, |o| as real, c.failureRatio);
  }

  /** When the state changes, over every run of overlapping calls.  On a completion a half-open
      breaker closes exactly when the last maxRequests outcomes of the counter window are all
      successes, a closed breaker opens exactly when too many of them are failures, and nothing
      else changes. */
  lemma WhenStateChanges(c: Config, rs: seq<Run>, es: seq<Event>, k: nat)
    requires IsRun(c, rs, es) && Starts(c, rs[0]) && k < |es| && es[k].Complete? && c.maxRequests >= 0
    ensures rs[k + 1].b.state ==
            match rs[k].b.state
            case Open => Open
            case HalfOpen => if LastSucceeded(rs[k + 1].outcomes, c.maxRequests) then Closed else HalfOpen
            case Closed => if TooManyFailed(c, rs[k + 1].outcomes) then Open else Closed
    ensures rs[k + 1].b.resetCountersAt == rs[k].b.resetCountersAt && rs[k + 1].b.resetStateAt == rs[k].b.resetStateAt
  {
    RunInvariant(c, rs, es, k);
    assert Step(c, rs[k], es[k], rs[k + 1]);
    CompletionState(c, rs[k], es[k], rs[k + 1]);
  }

  /** What an arrival is told and leaves behind, over every run.  It is refused as tripped
      exactly when the breaker is open and its deadline not past, and as one too many exactly
      when the breaker is then half-open and the counter window, which starts over past its own
      deadline, has maxRequests outcomes; otherwise it is admitted.  An open breaker past its
      deadline becomes half-open, and only a deadline that is past is renewed. */
  lemma WhatArrivalsMeet(c: Config, rs: seq<Run>, es: seq<Event>, k: nat)
    requires IsRun(c, rs, es) && Starts(c, rs[0]) && k < |es| && es[k].Arrive?
    ensures var now, r, r' := es[k].at, rs[k], rs[k + 1];
            var v := Preflight(c, r.b, now).1;
            && r'.outcomes == (if now > r.b.resetCountersAt then [] else r.outcomes)
            && r'.b.state == (if r.b.state == Open && now > r.b.resetStateAt then HalfOpen else r.b.state)
            && (v == ErrTripped <==> r.b.state == Open && now <= r.b.resetStateAt)
            && (v == ErrTooManyRequests <==> r'.b.state == HalfOpen && |r'.outcomes| >= c.maxRequests)
            && r'.inFlight == (if v == Admitted then r.inFlight + 1 else r.inFlight)
            && r'.b.resetCountersAt
               == (if now > r.b.resetCountersAt then now + c.cyclicPeriod else r.b.resetCountersAt)
            && r'.b.resetStateAt
               == (if r.b.state == Open && now > r.b.resetStateAt then now + c.timeout else r.b.resetStateAt)
  {
    RunInvariant(c, rs, es, k);
    RunInvariant(c, rs, es, k + 1);
    assert Step(c, rs[k], es[k], rs[k + 1]);
  }

  lemma CompletionState(c: Config, r: Run, e: Event, r': Run)
    requires Step(c, r, e, r') && e.Complete? && Counts(r.b, r.outcomes) && c.maxRequests >= 0
    ensures r'.b.state ==
            match r.b.state
            case Open => Open
            case HalfOpen => if LastSucceeded(r'.outcomes, c.maxRequests) then Closed else HalfOpen
            case Closed => if TooManyFailed(c, r'.outcomes) then Open else Closed
  {
    var b1 := Count(r.b, e.failed);
    CountsOneMore(r.b, r.outcomes, e.failed);
    LastSucceededIff(r'.outcomes, c.maxRequests);
    TooManyFailedIff(c, b1, r'.outcomes);
  }

  lemma RatioAsProduct(x: real, n: real, q: real)
    requires n > 0.0
    ensures x / n >= q <==> x >= q * n
  {
    assert x == (x / n) * n;
    if x / n >= q { assert (x / n - q) * n >= 0.0; } else { assert (q - x / n) * n > 0.0; }
  }

  /** In any run, overlapping or not, a call that arrives more than `timeout` after the
      latest trip is not answered ErrTripped. */
  lemma NeverTrippedLate(c: Config, rs: seq<Run>, es: seq<Event>, k: nat, now: int)
    requires IsRun(c, rs, es) && Starts(c, rs[0]) && k < |rs|
    requires now >= rs[k].clock && now > rs[k].trippedAt + c.timeout
    ensures Preflight(c, rs[k].b, now).1 != ErrTripped
  {
    RunInvariant(c, rs, es, k);
  }

  // ---------- At most k overlapping calls ----------

  /** The run never has more than `k` calls in flight. */
  ghost predicate Overlap(rs: seq<Run>, k: nat)
  {
    forall i :: 0 <= i < |rs| ==> rs[i].inFlight <= k
  }

  /** A run that begins with an arrival past the counter deadline and stays half-open from
      there, never with more than `k` calls in flight. */
  ghost predicate Probes(c: Config, rs: seq<Run>, es: seq<Event>, k: nat)
  {
    && IsRun(c, rs, es) && Overlap(rs, k)
    && |es| >= 1 && es[0].Arrive? && es[0].at > rs[0].b.resetCountersAt
    && forall i :: 1 <= i < |rs| ==> rs[i].b.state == HalfOpen
  }

  /** Once the counters have reset in a half-open breaker, the recorded requests together
      with the calls still in flight stay within maxRequests + k - 1 for as long as the
      breaker stays half-open. */
  lemma {:induction false} ProbeBound(c: Config, rs: seq<Run>, es: seq<Event>, k: nat)
    requires Probes(c, rs, es, k) && k >= 1 && c.maxRequests >= 1
    ensures forall i :: 1 <= i < |rs| ==> rs[i].b.requests + rs[i].inFlight <= c.maxRequests + k - 1
    decreases |es|
  {
    if |es| == 1 {
      assert Step(c, rs[0], es[0], rs[1]);
      assert rs[1].inFlight <= k;
    } else {
      var n := |es| - 1;
      ProbeBound(c, rs[..n + 1], es[..n], k);
      assert rs[n] == rs[..n + 1][n];
      assert Step(c, rs[n], es[n], rs[n + 1]);
      assert rs[n + 1].inFlight <= k;
    }
  }

  // ---------- The bound is reached ----------

  ghost predicate Possible(r: Run, e: Event)
  {
    e.at >= r.clock && (e.Complete? ==> r.inFlight > 0)
  }

  ghost function Next(c: Config, r: Run, e: Event): (r': Run)
    requires Possible(r, e)
    ensures Step(c, r, e, r')
  {
    match e
    case Arrive(now) =>
      var (b', v) := Preflight(c, r.b, now);
      Run(b', r.inFlight + (if v == Admitted then 1 else 0), now, r.trippedAt,
          if now > r.b.resetCountersAt then [] else r.outcomes)
    case Complete(now, failed) =>
      var b' := Postflight(c, r.b, failed);
      Run(b', r.inFlight - 1, now, if r.b.state != Open && b'.state == Open then now else r.trippedAt,
          r.outcomes + [failed])
  }

  lemma Extend(c: Config, rs: seq<Run>, es: seq<Event>, e: Event) returns (rs': seq<Run>, es': seq<Event>)
    requires IsRun(c, rs, es) && Possible(rs[|es|], e)
    ensures IsRun(c, rs', es') && rs' == rs + [Next(c, rs[|es|], e)] && es' == es + [e]
  {
    rs', es' := rs + [Next(c, rs[|es|], e)], es + [e];
  }

  /** A new breaker after up to `n` failed calls at time 0: open, or closed with `n` failures
      that are not too many. */
  lemma {:induction false} Failing(c: Config, n: nat) returns (rs: seq<Run>, es: seq<Event>)
    requires c.cyclicPeriod >= 0
    ensures IsRun(c, rs, es) && Starts(c, rs[0]) && rs[|es|].clock == 0 && rs[|es|].inFlight == 0 && Overlap(rs, 1)
    ensures rs[|es|].b.resetCountersAt == c.cyclicPeriod && rs[|es|].b.resetStateAt == c.timeout
    ensures var b := rs[|es|].b;
            b.state == Open || (b.state == Closed && b.requests == b.failures == n && (n > 0 ==> !ShouldTrip(c, b)))
  {
    if n == 0 {
      rs, es := [Run(Fresh(c, 0, 0), 0, 0, 0, [])], [];
    } else {
      rs, es := Failing(c, n - 1);
      if rs[|es|].b.state == Closed {
        rs, es := Extend(c, rs, es, Arrive(0));
        rs, es := Extend(c, rs, es, Complete(0, true));
      }
    }
  }

  /** Every breaker can be tripped. */
  lemma Tripping(c: Config) returns (rs: seq<Run>, es: seq<Event>)
    requires c.cyclicPeriod >= 0 && c.failureRatio <= 1.0
    ensures IsRun(c, rs, es) && Starts(c, rs[0]) && rs[|es|].b.state == Open
    ensures rs[|es|].clock == 0 && rs[|es|].inFlight == 0 && Overlap(rs, 1)
    ensures rs[|es|].b.resetCountersAt == c.cyclicPeriod && rs[|es|].b.resetStateAt == c.timeout
  {
    var need := if c.failureRatio > 0.0 then c.minRequests else c.tripThreshold;
    var n := if need < 1 then 1 else need;
    rs, es := Failing(c, n);
    assert n as real / n as real == 1.0;
  }

  /** The first probe of a tripped breaker and `j` successes, one after the other. */
  lemma {:induction false} Probing(c: Config, r: Run, t: int, j: nat) returns (rs: seq<Run>, es: seq<Event>)
    requires r.b.state == Open && r.inFlight == 0 && c.cyclicPeriod >= 0 && j < c.maxRequests
    requires t >= r.clock && t > r.b.resetCountersAt && t > r.b.resetStateAt
    ensures Probes(c, rs, es, 1) && rs[0] == r && rs[|es|].clock == t && rs[|es|].inFlight == 1
    ensures rs[|es|].b == Breaker(HalfOpen, t + c.cyclicPeriod, t + c.timeout, j, j, 0, j, 0)
  {
    if j == 0 {
      rs, es := Extend(c, [r], [], Arrive(t));
    } else {
      rs, es := Probing(c, r, t, j - 1);
      rs, es := Extend(c, rs, es, Complete(t, false));
      rs, es := Extend(c, rs, es, Arrive(t));
    }
  }

  /** With one probe left, `k` calls that overlap are all admitted. */
  lemma {:induction false} Crowding(c: Config, r: Run, t: int, k: nat) returns (rs: seq<Run>, es: seq<Event>)
    requires r.b.state == Open && r.inFlight == 0 && c.cyclicPeriod >= 0 && c.maxRequests >= 1 && k >= 1
    requires t >= r.clock && t > r.b.resetCountersAt && t > r.b.resetStateAt
    ensures Probes(c, rs, es, k) && rs[0] == r && rs[|es|].clock == t && rs[|es|].inFlight == k
    ensures rs[|es|].b.requests == c.maxRequests - 1 && rs[|es|].b.resetCountersAt >= t
  {
    if k == 1 {
      rs, es := Probing(c, r, t, c.maxRequests - 1);
    } else {
      rs, es := Crowding(c, r, t, k - 1);
      rs, es := Extend(c, rs, es, Arrive(t));
    }
  }

  /** Probes count on completion, so the bound of ProbeBound is reached, for every number of
      overlapping calls: some run of a new breaker leads to one that probes and has
      maxRequests + k - 1 requests recorded or in flight. */
  lemma ProbeBoundReached(c: Config, k: nat)
    returns (before: seq<Run>, trip: seq<Event>, rs: seq<Run>, es: seq<Event>)
    requires c.maxRequests >= 1 && c.cyclicPeriod >= 0 && c.failureRatio <= 1.0 && k >= 1
    ensures IsRun(c, before, trip) && Starts(c, before[0])
    ensures Probes(c, rs, es, k) && rs[0] == before[|trip|]
    ensures rs[|es|].b.requests + rs[|es|].inFlight == c.maxRequests + k - 1
  {
    before, trip := Tripping(c);
    var t := 1 + if c.cyclicPeriod < c.timeout then c.timeout else c.cyclicPeriod;
    rs, es := Crowding(c, before[|trip|], t, k);
  }

  // ---------- A failed probe, with and without overlap ----------

  ghost predicate FailedProbe(rs: seq<Run>, es: seq<Event>, a: nat)
  {
    a < |es| && a < |rs| && es[a].Complete? && es[a].failed && rs[a].b.state == HalfOpen
  }

  /** The counters are not reset between events `a` and `b`. */
  ghost predicate SameWindow(rs: seq<Run>, es: seq<Event>, a: nat, b: nat)
  {
    forall j :: a < j < b && j < |es| && j < |rs| && es[j].Arrive? ==> es[j].at <= rs[j].b.resetCountersAt
  }

  /** A run with at most `k` calls in flight in which event `a` is a failed probe and the
      counters have not been reset when state `b` is reached. */
  ghost predicate FailsWithin(c: Config, k: nat, rs: seq<Run>, es: seq<Event>, a: nat, b: nat)
  {
    && IsRun(c, rs, es) && Starts(c, rs[0]) && Overlap(rs, k)
    && FailedProbe(rs, es, a) && SameWindow(rs, es, a, b) && a < b < |rs|
  }

  /** In every run with at most `k` calls in flight, a failed probe keeps the breaker half-open
      until the counters reset. */
  ghost predicate FailureBlocks(c: Config, k: nat)
  {
    forall rs: seq<Run>, es: seq<Event>, a: nat, b: nat ::
      FailsWithin(c, k, rs, es, a, b) ==> rs[b].b.state == HalfOpen
  }

  /** Where calls do not overlap: none is in flight while the breaker is open, and a probe in
      flight was within the limit. */
  ghost predicate Alone(c: Config, r: Run)
  {
    && r.inFlight <= 1
    && (r.b.state == Open ==> r.inFlight == 0)
    && (r.b.state == HalfOpen && r.inFlight == 1 ==> r.b.requests < c.maxRequests)
  }

  lemma AloneStep(c: Config, r: Run, e: Event, r': Run)
    requires Step(c, r, e, r') && Alone(c, r) && Consistent(r.b) && r'.inFlight <= 1 && c.maxRequests >= 1
    ensures Alone(c, r') && Consistent(r'.b)
  {
    if e.Complete? { OnlyStateChanges(c, r.b, e.failed); }
  }

  lemma {:induction false} AloneRun(c: Config, rs: seq<Run>, es: seq<Event>, n: nat)
    requires IsRun(c, rs, es) && Starts(c, rs[0]) && Overlap(rs, 1) && n < |rs| && c.maxRequests >= 1
    ensures Alone(c, rs[n]) && Consistent(rs[n].b)
  {
    if n == 0 {
    } else {
      AloneRun(c, rs, es, n - 1);
      AloneStep(c, rs[n - 1], es[n - 1], rs[n]);
    }
  }

  /** A failure is counted and no more requests than the limit. */
  ghost predicate Blocked(c: Config, r: Run)
  {
    r.b.state == HalfOpen && r.b.failures >= 1 && r.b.requests <= c.maxRequests
  }

  lemma BlockedStep(c: Config, r: Run, e: Event, r': Run)
    requires Step(c, r, e, r') && Alone(c, r) && Consistent(r.b) && c.maxRequests >= 1
    requires e.Arrive? ==> Blocked(c, r) && e.at <= r.b.resetCountersAt
    requires e.Complete? ==> Blocked(c, r) || (r.b.state == HalfOpen && e.failed)
    ensures Blocked(c, r')
  {
  }

  lemma {:induction false} BlockedRun(c: Config, rs: seq<Run>, es: seq<Event>, a: nat, b: nat)
    requires FailsWithin(c, 1, rs, es, a, b) && c.maxRequests >= 1
    ensures Blocked(c, rs[b])
    decreases b
  {
    AloneRun(c, rs, es, b - 1);
    assert Step(c, rs[b - 1], es[b - 1], rs[b]);
    if b == a + 1 {
      BlockedStep(c, rs[a], es[a], rs[b]);
    } else {
      BlockedRun(c, rs, es, a, b - 1);
      BlockedStep(c, rs[b - 1], es[b - 1], rs[b]);
    }
  }

  /** From two overlapping probes, of which one fails, and `j` successes after it. */
  lemma {:induction false} TwoProbes(c: Config, t: int, j: nat) returns (rs: seq<Run>, es: seq<Event>, a: nat)
    requires c.cyclicPeriod >= 0 && c.failureRatio <= 1.0 && j < c.maxRequests
    requires t > c.cyclicPeriod && t > c.timeout
    ensures FailsWithin(c, 2, rs, es, a, |es|)
    ensures rs[|es|].clock == t && rs[|es|].inFlight == 1
    ensures rs[|es|].b == Breaker(HalfOpen, t + c.cyclicPeriod, t + c.timeout, j + 1, j, 1, j, if j == 0 then 1 else 0)
  {
    if j == 0 {
      rs, es := Tripping(c);
      rs, es := Extend(c, rs, es, Arrive(t));
      rs, es := Extend(c, rs, es, Arrive(t));
      a := |es|;
      rs, es := Extend(c, rs, es, Complete(t, true));
    } else {
      rs, es, a := TwoProbes(c, t, j - 1);
      rs, es := Extend(c, rs, es, Arrive(t));
      rs, es := Extend(c, rs, es, Complete(t, false));
    }
  }

  /** The second one succeeds last and closes the breaker, failure or not. */
  lemma OverlapCloses(c: Config) returns (rs: seq<Run>, es: seq<Event>, a: nat)
    requires c.maxRequests >= 1 && c.cyclicPeriod >= 0 && c.failureRatio <= 1.0
    ensures FailsWithin(c, 2, rs, es, a, |es|)
    ensures rs[|es|].b.state == Closed && rs[|es|].b.failures == 1
  {
    var t := 1 + if c.cyclicPeriod < c.timeout then c.timeout else c.cyclicPeriod;
    rs, es, a := TwoProbes(c, t, c.maxRequests - 1);
    rs, es := Extend(c, rs, es, Complete(t, false));
  }

  /** With at most k calls in flight, a failed probe blocks closing for the rest of the counter
      window if and only if k is at most 1. */
  lemma FailureBlocksIff(c: Config, k: nat)
    requires c.maxRequests >= 1 && c.cyclicPeriod >= 0 && c.failureRatio <= 1.0
    ensures FailureBlocks(c, k) <==> k <= 1
  {
    if k <= 1 {
      forall rs: seq<Run>, es: seq<Event>, a: nat, b: nat | FailsWithin(c, k, rs, es, a, b)
        ensures rs[b].b.state == HalfOpen
      {
        BlockedRun(c, rs, es, a, b);
      }
    } else {
      var rs, es, a := OverlapCloses(c);
      assert FailsWithin(c, k, rs, es, a, |es|);
    }
  }

  // ---------- Runs of calls one after the other ----------

  /** The breaker after a list of calls (clock reading, outcome). */
  function Calls(c: Config, b: Breaker, calls: seq<(int, bool)>): Breaker
    decreases |calls|
  {
    if calls == [] then b else Calls(c, Call(c, b, calls[0].0, calls[0].1), calls[1..])
  }

  ghost predicate Sequential(c: Config, b: Breaker)
  {
    && Consistent(b)
    && (c.failureRatio <= 0.0 && b.state == Closed ==> b.failures < c.tripThreshold)
  }

  lemma CallInvariant(c: Config, b: Breaker, now: int, failed: bool)
    requires Sequential(c, b) && c.maxRequests >= 1 && c.tripThreshold >= 1
    ensures Sequential(c, Call(c, b, now, failed))
  {
  }

  lemma {:induction false} CallsInvariant(c: Config, b: Breaker, calls: seq<(int, bool)>)
    requires Sequential(c, b) && c.maxRequests >= 1 && c.tripThreshold >= 1
    ensures Sequential(c, Calls(c, b, calls))
    decreases |calls|
  {
    if calls == [] {
    } else {
      CallInvariant(c, b, calls[0].0, calls[0].1);
      CallsInvariant(c, Call(c, b, calls[0].0, calls[0].1), calls[1..]);
    }
  }

  /** Over every run of non-overlapping calls from a new breaker: a half-open breaker
      closes only when this call is the maxRequests-th of a counter window without a
      single failure, and in count mode a successful call never opens the breaker. */
  lemma SequentialTransitions(c: Config, t: int, t': int, calls: seq<(int, bool)>, now: int, failed: bool)
    requires c.maxRequests >= 1 && c.tripThreshold >= 1
    ensures var b := Calls(c, Fresh(c, t, t'), calls);
            var before := Preflight(c, b, now).0;
            var after := Call(c, b, now, failed);
            && (before.state == HalfOpen && after.state == Closed ==>
                  !failed && after.requests == c.maxRequests && after.failures == 0)
            && (c.failureRatio <= 0.0 && after.state == Closed ==> after.failures < c.tripThreshold)
            && (c.failureRatio <= 0.0 && before.state != Open && !failed ==> after.state != Open)
  {
    CallsInvariant(c, Fresh(c, t, t'), calls);
    CallInvariant(c, Calls(c, Fresh(c, t, t'), calls), now, failed);
  }

  /** One failed probe keeps the breaker half-open until the counters reset, whatever the
      later calls of that window do. */
  lemma {:induction false} FailedProbeBlocksClosing(c: Config, b: Breaker, calls: seq<(int, bool)>)
    requires c.maxRequests >= 1 && Consistent(b)
    requires b.state == HalfOpen && b.failures > 0
    requires forall i :: 0 <= i < |calls| ==> calls[i].0 <= b.resetCountersAt
    ensures Calls(c, b, calls).state == HalfOpen && Calls(c, b, calls).failures > 0
    decreases |calls|
  {
    if calls == [] {
    } else {
      var b' := Call(c, b, calls[0].0, calls[0].1);
      assert calls[0].0 <= b.resetCountersAt;
      assert forall i :: 0 <= i < |calls[1..]| ==> calls[1..][i] == calls[i + 1];
      FailedProbeBlocksClosing(c, b', calls[1..]);
    }
  }

  /** Recovery: whatever state an idle breaker past both deadlines is in, maxRequests
      successes within one cyclic period leave it closed. */
  lemma Recovery(c: Config, b: Breaker, calls: seq<(int, bool)>)
    requires c.maxRequests >= 1 && c.tripThreshold >= 1 && |calls| == c.maxRequests
    requires calls[0].0 > b.resetCountersAt && calls[0].0 > b.resetStateAt
    requires forall i :: 0 <= i < |calls| ==> !calls[i].1 && calls[i].0 <= calls[0].0 + c.cyclicPeriod
    ensures Calls(c, b, calls).state == Closed
  {
    var b1 := Call(c, b, calls[0].0, calls[0].1);
    assert !calls[0].1 && b1.resetCountersAt == calls[0].0 + c.cyclicPeriod;
    forall i | 0 <= i < |calls[1..]| ensures !calls[1..][i].1 && calls[1..][i].0 <= b1.resetCountersAt {
      assert calls[1..][i] == calls[i + 1];
    }
    SuccessesClose(c, b1, calls[1..]);
  }

  lemma {:induction false} SuccessesClose(c: Config, b: Breaker, calls: seq<(int, bool)>)
    requires c.maxRequests >= 1 && c.tripThreshold >= 1
    requires b.failures == 0 && b.requests == b.consecutiveSuccesses > 0
    requires b.state == Closed || (b.state == HalfOpen && b.requests < c.maxRequests)
    requires b.state == HalfOpen ==> b.requests + |calls| >= c.maxRequests
    requires forall i :: 0 <= i < |calls| ==> !calls[i].1 && calls[i].0 <= b.resetCountersAt
    ensures Calls(c, b, calls).state == Closed
    decreases |calls|
  {
    if calls == [] {
    } else {
      assert !calls[0].1 && calls[0].0 <= b.resetCountersAt;
      var b' := Call(c, b, calls[0].0, calls[0].1);
      assert forall i :: 0 <= i < |calls[1..]| ==> calls[1..][i] == calls[i + 1];
      SuccessesClose(c, b', calls[1..]);
    }
  }

  // ---------- Where the comments promise more than the code does ----------

  /** "Stays open for `timeout`" is not what the code does, since a trip does not renew the
      state deadline: a breaker created at 0 that trips at 59 admits a call at 61. */
  lemma NoMinimumOpenTime()
    ensures var c := Config(2, 100, 60, 1, 0.0, 0);
            var b := Call(c, Fresh(c, 0, 0), 59, true);
            b.state == Open && Preflight(c, b, 61).1 == Admitted
  {
  }

  /** Exactly when an open breaker does reject every call for `timeout` after its trip: the
      deadline was set at the very time of the trip. */
  lemma MinimumOpenTime(c: Config, rs: seq<Run>, es: seq<Event>, k: nat)
    requires IsRun(c, rs, es) && Starts(c, rs[0]) && k < |rs|
    requires rs[k].b.state == Open && c.timeout >= 0
    ensures var T := rs[k].trippedAt;
            (forall now :: T <= now <= T + c.timeout ==> Preflight(c, rs[k].b, now).1 == ErrTripped)
            <==> rs[k].b.resetStateAt == T + c.timeout
  {
    RunInvariant(c, rs, es, k);
    var T := rs[k].trippedAt;
    if rs[k].b.resetStateAt < T + c.timeout {
      assert Preflight(c, rs[k].b, T + c.timeout).1 != ErrTripped;
    }
  }

  /** No outcome whatever takes a half-open breaker back to open. */
  lemma FailedProbeNeverReopens(c: Config, b: Breaker, failed: bool)
    requires b.state == HalfOpen
    ensures Postflight(c, b, failed).state != Open
    ensures failed && c.maxRequests >= 1 ==> Postflight(c, b, failed).state == HalfOpen
  {
  }
}

/** The breaker object itself: the fields the source updates under its lock. */
module CircuitBreaker {
  import opened BreakerModel
  import M = BreakerModel

  class CB {
    const config: Config
    var state: State
    var resetCountersAt: int
    var resetStateAt: int
    var requests: nat
    var successes: nat
    var failures: nat
    var consecutiveSuccesses: nat
    var consecutiveFailures: nat

    function View(): Breaker
      reads this
    {
      Breaker(state, resetCountersAt, resetStateAt, requests, successes, failures,
              consecutiveSuccesses, consecutiveFailures)
    }

    /** `now` and `now'` are the constructor's two clock readings. */
    constructor (c: Config, now: int, now': int)
      ensures config == c && View() == Fresh(c, now, now')
    {
      config := c;
      state := Closed;
      resetCountersAt := now + c.cyclicPeriod;
      resetStateAt := now' + c.timeout;
      requests, successes, failures := 0, 0, 0;
      consecutiveSuccesses, consecutiveFailures := 0, 0;
    }

    method Preflight(now: int) returns (v: Verdict)
      modifies this
      ensures (View(), v) == M.Preflight(config, old(View()), now)
    {
      if now > resetCountersAt {
        requests, successes, failures := 0, 0, 0;
        consecutiveSuccesses, consecutiveFailures := 0, 0;
        resetCountersAt := now + config.cyclicPeriod;
      }
      if state == Open && now > resetStateAt {
        state := HalfOpen;
        resetStateAt := now + config.timeout;
      }
      if state == Open {
        return ErrTripped;
      }
      if state == HalfOpen && requests >= config.maxRequests {
        return ErrTooManyRequests;
      }
      return Admitted;
    }

    method Postflight(failed: bool)
      modifies this
      ensures View() == M.Postflight(config, old(View()), failed)
    {
      requests := requests + 1;
      if failed {
        failures := failures + 1;
        consecutiveFailures := consecutiveFailures + 1;
        consecutiveSuccesses := 0;
      } else {
        successes := successes + 1;
        consecutiveSuccesses := consecutiveSuccesses + 1;
        consecutiveFailures := 0;
      }
      match state {
        case Closed =>
          var trip := ShouldTrip();
          if trip { state := Open; }
        case HalfOpen =>
          if consecutiveSuccesses >= config.maxRequests { state := Closed; }
        case Open =>
      }
    }

    method ShouldTrip() returns (trip: bool)
      requires requests > 0
      ensures trip == M.ShouldTrip(config, View())
    {
      if config.failureRatio > 0.0 {
        if requests < config.minRequests {
          return false;
        }
        return failures as real / requests as real >= config.failureRatio;
      }
      return failures >= config.tripThreshold;
    }

    /** The steps that other calls take. */
    method TakeTurns(others: seq<Event>)
      modifies this
      ensures View() == Turns(config, old(View()), others)
    {
      for i := 0 to |others|
        invariant View() == Turns(config, old(View()), others[..i])
      {
        TurnsOneMore(config, old(View()), others[..i], others[i]);
        assert others[..i + 1] == others[..i] + [others[i]];
        match others[i] {
          case Arrive(at) => var _ := Preflight(at);
          case Complete(_, failed) => Postflight(failed);
        }
      }
      assert others[..|others|] == others;
    }

    /** A whole call.  While its function runs, other calls take the steps `others`; the
        function ends at time `done`, and `failed` says whether its error counts. */
    method Do(now: int, others: seq<Event>, done: int, failed: bool) returns (v: Verdict)
      modifies this
      ensures v == M.Preflight(config, old(View()), now).1
      ensures View() == Turns(config, old(View()),
                              [Arrive(now)] + if v == Admitted then others + [Complete(done, failed)] else [])
      ensures others == [] ==> View() == Call(config, old(View()), now, failed)
    {
      TurnsOfCall(config, View(), now, others, done, failed);
      assert [Arrive(now)] + [] == [Arrive(now)];
      v := Preflight(now);
      if v == Admitted {
        TakeTurns(others);
        Postflight(failed);
      }
    }
  }
}
