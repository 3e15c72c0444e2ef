/** The gate every provider call passes: account limiter, then provider
    governor, then the call, retried within the budget. The clock, cancellation
    and the provider's answers are arbitrary. */
module Gating {
  import opened Pacing
  import opened Slots
  import Backoff

  /** A clock that never runs back; waiting lets at least that long pass. */
  class Clock {
    var now: int

    constructor (start: nat)
      ensures now == start
    {
      now := start;
    }

    method Read() returns (t: int)
      modifies this
      ensures t == now && now >= old(now)
    {
      var elapsed: int := *;
      now := now + if elapsed > 0 then elapsed else 0;
      return now;
    }

    method Sleep(wait: int)
      requires wait >= 0
      modifies this
      ensures now >= old(now) + wait
    {
      var extra: int := *;
      now := now + wait + if extra > 0 then extra else 0;
    }
  }

  datatype Response = Succeeded | Failed | Interrupted

  /** One provider call: when it started, what it answered, and when it ended. */
  datatype Call = Call(start: int, response: Response, ended: int)

  datatype Result = Done | Degraded(position: nat) | GaveUp | CallInterrupted | Exhausted

  /** The caller's context. It is done in the end, after finitely many waits. */
  class Context {
    var done: bool
    var patience: nat

    constructor (patience: nat)
      ensures !done && this.patience == patience
    {
      done, this.patience := false, patience;
    }

    /** Whether the context was done before a wait was over. */
    method Expires() returns (expired: bool)
      modifies this
      ensures expired ==> done
      ensures !expired ==> done == old(done) && patience < old(patience)
    {
      var early: bool := *;
      if patience == 0 || early {
        done := true;
        return true;
      }
      patience := patience - 1;
      return false;
    }
  }

  /** The other callers of a limiter. `net` counts what they put in flight less
      what they gave back; alone, there are none. */
  class Others {
    const alone: bool
    ghost var net: int

    constructor (alone: bool)
      ensures this.alone == alone && net == 0
    {
      this.alone, net := alone, 0;
    }

    /** What they may do while one caller waits: finish requests of their own,
        start or park more, and wake. `held` is how many requests that caller
        has in flight, which nobody else finishes. */
    method Act(l: Limiter, clock: Clock, held: nat)
      requires l.Valid() && clock.now >= 0 && held <= l.inflight
      modifies this, l, clock
      ensures l.Valid() && clock.now >= old(clock.now) && held <= l.inflight
      ensures l.inflight - net == old(l.inflight - net)
      ensures alone ==> net == old(net)
      ensures old(l.arrivals) <= l.arrivals
    {
      var steps: int := *;
      while !alone && steps > 0
        invariant l.Valid() && clock.now >= old(clock.now) && held <= l.inflight
        invariant l.inflight - net == old(l.inflight - net)
        invariant alone ==> net == old(net)
        invariant old(l.arrivals) <= l.arrivals
      {
        ghost var before := l.inflight;
        ActOnce(l, clock, held);
        net := net + l.inflight - before;
        steps := steps - 1;
      }
    }

    method ActOnce(l: Limiter, clock: Clock, held: nat)
      requires l.Valid() && clock.now >= 0 && held <= l.inflight
      modifies l, clock
      ensures l.Valid() && clock.now >= old(clock.now) && held <= l.inflight
      ensures old(l.arrivals) <= l.arrivals
    {
      var choice: int := *;
      if choice == 0 && l.inflight > held {
        l.Release();
      } else if choice == 1 {
        l.Wake();
      } else {
        var now := clock.Read();
        var answer := l.Ask(now);
      }
    }
  }

  /** The provider behind the gate. It writes down every call it receives. */
  class Provider {
    var log: seq<Call>

    constructor ()
      ensures log == []
    {
      log := [];
    }

    /** Serves one call of a caller that holds a place in the limiter. */
    method Serve(l: Limiter, others: Others, clock: Clock) returns (response: Response)
      requires l.Valid() && clock.now >= 0 && l.inflight > 0
      modifies this, l, others, clock
      ensures l.Valid() && l.inflight > 0 && clock.now >= old(clock.now)
      ensures l.inflight - others.net == old(l.inflight - others.net)
      ensures others.alone ==> others.net == old(others.net)
      ensures log == old(log) + [Call(old(clock.now), response, clock.now)]
    {
      var start := clock.now;
      response := *;
      others.Act(l, clock, 1);
      log := log + [Call(start, response, clock.now)];
    }
  }

  /** Consecutive calls keep at least the governor's delay between the end of a
      failed one and the next start; `failures` counts those noted before. */
  ghost predicate Spaced(calls: seq<Call>, base: int, max: int, failures: nat)
  {
    forall k :: 0 <= k < |calls| - 1 ==>
      && calls[k].response == Failed
      && calls[k + 1].start >= calls[k].ended + Backoff.Delay(base, max, failures + k + 1)
  }

  lemma SpacedOneMore(calls: seq<Call>, c: Call, base: int, max: int, failures: nat)
    requires Spaced(calls, base, max, failures)
    requires calls != [] ==>
      && calls[|calls| - 1].response == Failed
      && c.start >= calls[|calls| - 1].ended + Backoff.Delay(base, max, failures + |calls|)
    ensures Spaced(calls + [c], base, max, failures)
  {
  }

  /** How long a caller sleeps before it asks a full limiter again. */
  const POLL := 10_000_000

  /** Waits for the account limiter: asks a full one again and again until a
      place frees or the context is done, and then waits for its slot. */
  method PassLimiter(l: Limiter, others: Others, ctx: Context, clock: Clock) returns (admitted: bool)
    requires l.Valid() && clock.now >= 0
    modifies l, others, ctx, clock
    ensures l.Valid() && clock.now >= old(clock.now)
    ensures l.inflight - others.net == old(l.inflight - others.net) + (if admitted then 1 else 0)
    ensures others.alone ==> others.net == old(others.net)
    ensures admitted ==> l.inflight > 0
    ensures !admitted ==> ctx.done
    ensures old(ctx.done) ==> ctx.done
    ensures admitted && Interval(l.budget).Some? ==>
      exists k :: |old(l.arrivals)| <= k < |l.arrivals| && clock.now >= Slot(l.arrivals, Interval(l.budget).value, k)
  {
    while true
      invariant l.Valid() && clock.now >= old(clock.now)
      invariant l.inflight - others.net == old(l.inflight - others.net)
      invariant others.alone ==> others.net == old(others.net)
      invariant old(l.arrivals) <= l.arrivals && (old(ctx.done) ==> ctx.done)
      decreases ctx.patience
    {
      var now := clock.Read();
      ghost var asked := l.arrivals;
      var answer := l.Ask(now);
      if answer.Go? {
        assert Interval(l.budget).Some? ==> l.arrivals == asked + [now];
        return true;
      }
      var expired := ctx.Expires();
      if expired {
        return false;
      }
      clock.Sleep(if answer.Park? then answer.wait else POLL);
      ghost var reserved := l.arrivals;
      others.Act(l, clock, 0);
      if answer.Park? {
        l.Wake();
        KeepsSlot(l, asked, reserved, now, clock.now);
        return true;
      }
    }
  }

  /** A reserved slot is the same whoever reserves after it. */
  lemma KeepsSlot(l: Limiter, asked: seq<int>, reserved: seq<int>, now: int, later: int)
    requires reserved <= l.arrivals
    requires Interval(l.budget).Some? ==>
      && reserved == asked + [now]
      && later >= Slot(reserved, Interval(l.budget).value, |asked|)
    ensures Interval(l.budget).Some? ==>
      |asked| < |l.arrivals| && later >= Slot(l.arrivals, Interval(l.budget).value, |asked|)
  {
    if Interval(l.budget).Some? {
      assert l.arrivals == reserved + l.arrivals[|reserved|..];
      SlotOfPrefix(reserved, l.arrivals[|reserved|..], Interval(l.budget).value, |asked|);
    }
  }

  /** Waits for the provider governor, or is refused while it backs off. */
  method PassGovernor(g: Governor, ctx: Context, clock: Clock) returns (refusal: Result)
    requires g.Valid() && clock.now >= 0
    modifies g, ctx, clock
    ensures g.Valid() && clock.now >= old(clock.now)
    ensures g.fails == old(g.fails) && g.backoffUntil == old(g.backoffUntil) && g.waiters == old(g.waiters)
    ensures refusal in {Done, GaveUp} || refusal.Degraded?
    ensures refusal.Done? ==> clock.now >= g.backoffUntil
    ensures refusal.GaveUp? ==> ctx.done
    ensures refusal.Degraded? ==> refusal.position == old(g.waiters) && old(clock.now) < g.backoffUntil
    ensures old(ctx.done) ==> ctx.done
  {
    var now := clock.Read();
    var answer, position := g.Ask(now);
    match answer {
      case Busy => return Degraded(position);
      case Go => return Done;
      case Park(wait) =>
        var expired := ctx.Expires();
        if !expired {
          clock.Sleep(wait);
        }
        g.Leave();
        return if expired then GaveUp else Done;
    }
  }

  /** One attempt: both pacers, then the call, whose place is given back on every
      way out. The provider hears of it exactly when both pacers let it pass. */
  method Attempt(l: Limiter, g: Governor, others: Others, p: Provider, ctx: Context, clock: Clock)
    returns (pass: Result, response: Response)
    requires l.Valid() && g.Valid() && clock.now >= 0
    modifies l, g, others, p, ctx, clock
    ensures l.Valid() && g.Valid() && clock.now >= old(clock.now)
    ensures l.inflight - others.net == old(l.inflight - others.net)
    ensures others.alone ==> others.net == old(others.net)
    ensures g.fails == old(g.fails) && g.backoffUntil == old(g.backoffUntil) && g.waiters == old(g.waiters)
    ensures pass in {Done, GaveUp} || pass.Degraded?
    ensures !pass.Done? ==> p.log == old(p.log)
    ensures pass.Done? ==>
      && |p.log| == |old(p.log)| + 1 && p.log[..|old(p.log)|] == old(p.log)
      && var c := p.log[|old(p.log)|];
         c.start >= g.backoffUntil && c.response == response && old(clock.now) <= c.start <= c.ended <= clock.now
    ensures pass.GaveUp? ==> ctx.done
    ensures pass.Degraded? ==> pass.position == old(g.waiters) && old(clock.now) < g.backoffUntil
    ensures old(ctx.done) ==> ctx.done
  {
    response := Interrupted;
    var admitted := PassLimiter(l, others, ctx, clock);
    if !admitted {
      return GaveUp, response;
    }
    pass := PassGovernor(g, ctx, clock);
    if pass.Done? {
      response := p.Serve(l, others, clock);
    }
    l.Release();
  }

  /** The calls one gate made, with the governor as they left it. */
  ghost predicate Paced(calls: seq<Call>, g: Governor, failures: nat, until: int, waiters: nat)
    reads g
  {
    && Spaced(calls, g.base, g.max, failures)
    && g.fails == failures + |calls| && g.waiters == waiters
    && (calls == [] ==> g.backoffUntil == until)
    && (calls != [] ==>
          var last := calls[|calls| - 1];
          && calls[0].start >= until && last.response == Failed
          && g.backoffUntil >= last.ended + Backoff.Delay(g.base, g.max, g.fails))
  }

  /** The places in flight that are not the others'. */
  ghost function Own(l: Limiter, others: Others): int
    reads l, others
  {
    l.inflight - others.net
  }

  /** What a finished gate leaves: its calls, and the verdict they add up to. */
  ghost predicate Concluded(result: Result, calls: seq<Call>, g: Governor, failures: nat, until: int, waiters: nat)
    reads g
  {
    && Spaced(calls, g.base, g.max, failures) && g.waiters == waiters
    && (calls != [] ==> calls[0].start >= until)
    && (result.Done? <==> calls != [] && calls[|calls| - 1].response == Succeeded)
    && (result.CallInterrupted? <==> calls != [] && calls[|calls| - 1].response == Interrupted)
    && g.fails == (if result.Done? then 0 else failures + |calls|)
    && (calls == [] ==> g.backoffUntil == until)
    && (result.Done? ==> g.backoffUntil == 0)
    && (calls != [] && !result.Done? ==>
          g.backoffUntil >= calls[|calls| - 1].ended + Backoff.Delay(g.base, g.max, g.fails))
  }

  /** One more attempt on top of the calls so far; the caller goes on after a
      failure that was not an interruption. */
  method Round(l: Limiter, g: Governor, others: Others, p: Provider, ctx: Context, clock: Clock,
               ghost start: seq<Call>, ghost failures: nat, ghost until: int, ghost waiters: nat)
    returns (again: bool, result: Result)
    requires l.Valid() && g.Valid() && clock.now >= 0
    requires start <= p.log && Paced(p.log[|start|..], g, failures, until, waiters)
    modifies l, g, others, p, ctx, clock
    ensures l.Valid() && g.Valid() && clock.now >= old(clock.now)
    ensures Own(l, others) == old(Own(l, others))
    ensures others.alone ==> others.net == old(others.net)
    ensures start <= p.log
    ensures again || result.Done? || result.CallInterrupted? ==> |p.log| == |old(p.log)| + 1
    ensures !again && !result.Done? && !result.CallInterrupted? ==> p.log == old(p.log)
    ensures again ==> Paced(p.log[|start|..], g, failures, until, waiters)
    ensures !again ==> Concluded(result, p.log[|start|..], g, failures, until, waiters)
    ensures !again ==> !result.Exhausted? && (result.GaveUp? ==> ctx.done)
    ensures !again && result.Degraded? ==> result.position == waiters && old(clock.now) < g.backoffUntil
  {
    ghost var before := p.log;
    var pass, response := Attempt(l, g, others, p, ctx, clock);
    if !pass.Done? {
      return false, pass;
    }
    LogGrows(start, before, p.log);
    SpacedOneMore(before[|start|..], p.log[|before|], g.base, g.max, failures);
    if response.Succeeded? {
      g.NoteSuccess();
      return false, Done;
    }
    var now := clock.Read();
    g.NoteError(now);
    return response.Failed?, CallInterrupted;
  }

  /** Runs one request through both pacers with bounded retries. Whatever
      happens, the caller's place is given back and the governor's queue is as it
      began; what the provider hears is spaced by the backoff and bounded. */
  method Gate(l: Limiter, g: Governor, b: Budget, others: Others, p: Provider, ctx: Context, clock: Clock)
    returns (result: Result)
    requires l.Valid() && g.Valid() && clock.now >= 0
    modifies l, g, others, p, ctx, clock
    ensures l.Valid() && g.Valid() && clock.now >= old(clock.now)
    ensures Own(l, others) == old(Own(l, others))
    ensures others.alone ==> l.inflight == old(l.inflight)
    ensures old(p.log) <= p.log
    ensures Concluded(result, p.log[|old(p.log)|..], g, old(g.fails), old(g.backoffUntil), old(g.waiters))
    ensures |p.log| - |old(p.log)| <= if b.maxRetries >= 0 then b.maxRetries + 1 else 0
    ensures result.Exhausted? ==> |p.log| - |old(p.log)| == if b.maxRetries >= 0 then b.maxRetries + 1 else 0
    ensures result.GaveUp? ==> ctx.done
    ensures result.Degraded? ==> result.position == old(g.waiters) && old(clock.now) < g.backoffUntil
  {
    var attempt := 0;
    while attempt <= b.maxRetries
      invariant l.Valid() && g.Valid() && clock.now >= old(clock.now)
      invariant Own(l, others) == old(Own(l, others))
      invariant others.alone ==> others.net == old(others.net)
      invariant old(p.log) <= p.log && |p.log| == |old(p.log)| + attempt && attempt <= Most(b)
      invariant Paced(p.log[|old(p.log)|..], g, old(g.fails), old(g.backoffUntil), old(g.waiters))
    {
      var again;
      again, result := Round(l, g, others, p, ctx, clock, old(p.log), old(g.fails), old(g.backoffUntil), old(g.waiters));
      if !again {
        return;
      }
      attempt := attempt + 1;
    }
    return Exhausted;
  }

  /** How many attempts a budget allows. */
  function Most(b: Budget): nat
  {
    if b.maxRetries >= 0 then b.maxRetries + 1 else 0
  }

  lemma LogGrows(start: seq<Call>, before: seq<Call>, after: seq<Call>)
    requires start <= before && |after| == |before| + 1 && after[..|before|] == before
    ensures start <= after && after[|start|..] == before[|start|..] + [after[|before|]]
  {
  }

  // --- any number of requests through one gate

  /** How many calls in a row have failed at the end of a log, counting on from
      those that had failed before it. */
  function Streak(calls: seq<Call>, failures: nat): nat
  {
    if calls == [] then failures
    else if calls[|calls| - 1].response == Succeeded then 0
    else Streak(calls[..|calls| - 1], failures) + 1
  }

  /** If the k-th call did not succeed, the next one keeps the delay the streak
      up to there asks for. */
  ghost predicate Distant(calls: seq<Call>, k: nat, base: int, max: int, failures: nat)
    requires k + 1 < |calls|
  {
    calls[k].response != Succeeded ==>
      calls[k + 1].start >= calls[k].ended + Backoff.Delay(base, max, Streak(calls[..k + 1], failures))
  }

  ghost predicate SpacedThroughout(calls: seq<Call>, base: int, max: int, failures: nat)
  {
    forall k :: 0 <= k < |calls| - 1 ==> Distant(calls, k, base, max, failures)
  }

  lemma {:induction false} StreakConcat(a: seq<Call>, b: seq<Call>, failures: nat)
    ensures Streak(a + b, failures) == Streak(b, Streak(a, failures))
  {
    if b == [] {
      assert a + b == a;
    } else {
      assert (a + b)[..|a + b| - 1] == a + b[..|b| - 1];
      StreakConcat(a, b[..|b| - 1], failures);
    }
  }

  lemma {:induction false} StreakOfFailures(calls: seq<Call>, failures: nat)
    requires forall k :: 0 <= k < |calls| ==> calls[k].response != Succeeded
    ensures Streak(calls, failures) == failures + |calls|
  {
    if calls != [] {
      StreakOfFailures(calls[..|calls| - 1], failures);
    }
  }

  /** One gate's spacing is the spacing of its part of the log. */
  lemma SpacedWithin(calls: seq<Call>, base: int, max: int, failures: nat)
    requires Spaced(calls, base, max, failures)
    ensures SpacedThroughout(calls, base, max, failures)
  {
    forall k | 0 <= k < |calls| - 1 ensures Distant(calls, k, base, max, failures) {
      StreakOfFailures(calls[..k + 1], failures);
    }
  }

  lemma DistantInFront(a: seq<Call>, b: seq<Call>, k: nat, base: int, max: int, failures: nat)
    requires k + 1 < |a| && Distant(a, k, base, max, failures)
    ensures Distant(a + b, k, base, max, failures)
  {
    assert (a + b)[..k + 1] == a[..k + 1];
  }

  lemma DistantInBack(a: seq<Call>, b: seq<Call>, k: nat, base: int, max: int, failures: nat)
    requires k + 1 < |b| && Distant(b, k, base, max, Streak(a, failures))
    ensures Distant(a + b, |a| + k, base, max, failures)
  {
    assert (a + b)[..|a| + k + 1] == a + b[..k + 1];
    StreakConcat(a, b[..k + 1], failures);
  }

  lemma DistantAtSeam(a: seq<Call>, b: seq<Call>, base: int, max: int, failures: nat)
    requires a != [] && b != []
    requires a[|a| - 1].response != Succeeded ==>
      b[0].start >= a[|a| - 1].ended + Backoff.Delay(base, max, Streak(a, failures))
    ensures Distant(a + b, |a| - 1, base, max, failures)
  {
    assert (a + b)[..|a|] == a;
  }

  lemma DistantConcat(a: seq<Call>, b: seq<Call>, k: nat, base: int, max: int, failures: nat)
    requires k + 1 < |a + b|
    requires k + 1 < |a| ==> Distant(a, k, base, max, failures)
    requires k + 1 == |a| ==> Distant(a + b, k, base, max, failures)
    requires k >= |a| ==> Distant(b, k - |a|, base, max, Streak(a, failures))
    ensures Distant(a + b, k, base, max, failures)
  {
    if k + 1 < |a| {
      DistantInFront(a, b, k, base, max, failures);
    } else if k >= |a| {
      DistantInBack(a, b, k - |a|, base, max, failures);
    }
  }

  lemma SpacedConcat(a: seq<Call>, b: seq<Call>, base: int, max: int, failures: nat)
    requires SpacedThroughout(a, base, max, failures) && SpacedThroughout(b, base, max, Streak(a, failures))
    requires a != [] && b != [] ==> Distant(a + b, |a| - 1, base, max, failures)
    ensures SpacedThroughout(a + b, base, max, failures)
  {
    forall k | 0 <= k < |a + b| - 1 ensures Distant(a + b, k, base, max, failures) {
      DistantConcat(a, b, k, base, max, failures);
    }
  }

  /** The governor agrees with the log. */
  ghost predicate InStep(calls: seq<Call>, g: Governor, failures: nat, until: int)
    reads g
  {
    && SpacedThroughout(calls, g.base, g.max, failures) && g.fails == Streak(calls, failures)
    && (calls == [] ==> g.backoffUntil == until)
    && (calls != [] ==> calls[0].start >= until)
    && (calls != [] && calls[|calls| - 1].response != Succeeded ==>
          g.fails >= 1 && g.backoffUntil >= calls[|calls| - 1].ended + Backoff.Delay(g.base, g.max, g.fails))
  }

  lemma StaysInStep(before: seq<Call>, more: seq<Call>, result: Result, g: Governor, failures: nat, until: int,
                    fails: nat, backoff: int, waiters: nat)
    requires Concluded(result, more, g, fails, backoff, waiters)
    requires SpacedThroughout(before, g.base, g.max, failures) && fails == Streak(before, failures)
    requires before == [] ==> backoff == until
    requires before != [] ==> before[0].start >= until
    requires before != [] && before[|before| - 1].response != Succeeded ==>
      fails >= 1 && backoff >= before[|before| - 1].ended + Backoff.Delay(g.base, g.max, fails)
    ensures InStep(before + more, g, failures, until)
  {
    SpacedWithin(more, g.base, g.max, fails);
    if before != [] && more != [] {
      DistantAtSeam(before, more, g.base, g.max, failures);
    }
    SpacedConcat(before, more, g.base, g.max, failures);
    StreakConcat(before, more, failures);
    ConcludedStreak(result, more, g, fails, backoff, waiters);
    if more == [] {
      assert before + more == before;
    }
  }

  lemma ConcludedStreak(result: Result, calls: seq<Call>, g: Governor, failures: nat, until: int, waiters: nat)
    requires Concluded(result, calls, g, failures, until, waiters)
    ensures g.fails == Streak(calls, failures)
  {
    if calls != [] {
      StreakOfFailures(calls[..|calls| - 1], failures);
    }
  }

  /** One more request on top of those before it. */
  method GateNext(l: Limiter, g: Governor, b: Budget, others: Others, p: Provider, ctx: Context, clock: Clock,
                  ghost start: seq<Call>, ghost failures: nat, ghost until: int)
    returns (result: Result)
    requires l.Valid() && g.Valid() && clock.now >= 0
    requires start <= p.log && InStep(p.log[|start|..], g, failures, until)
    modifies l, g, others, p, ctx, clock
    ensures l.Valid() && g.Valid() && clock.now >= 0 && g.waiters == old(g.waiters)
    ensures Own(l, others) == old(Own(l, others))
    ensures others.alone ==> l.inflight == old(l.inflight)
    ensures start <= p.log && InStep(p.log[|start|..], g, failures, until)
  {
    ghost var log, fails, backoff, waiters := p.log, g.fails, g.backoffUntil, g.waiters;
    result := Gate(l, g, b, others, p, ctx, clock);
    StaysInStep(log[|start|..], p.log[|log|..], result, g, failures, until, fails, backoff, waiters);
    assert p.log[|start|..] == log[|start|..] + p.log[|log|..];
  }

  /** Any requests, one after the other, each with its own budget and context:
      the provider hears the whole run spaced by the backoff, from the one in
      force at the start on, and every place is given back. */
  method GateAll(l: Limiter, g: Governor, budgets: seq<Budget>, others: Others, p: Provider, contexts: seq<Context>, clock: Clock)
    requires l.Valid() && g.Valid() && clock.now >= 0 && |contexts| == |budgets|
    modifies l, g, others, p, clock, contexts
    ensures l.Valid() && g.Valid() && g.waiters == old(g.waiters)
    ensures Own(l, others) == old(Own(l, others))
    ensures others.alone ==> l.inflight == old(l.inflight)
    ensures old(p.log) <= p.log
    ensures InStep(p.log[|old(p.log)|..], g, old(g.fails), old(g.backoffUntil))
  {
    ghost var start := p.log;
    for k := 0 to |budgets|
      invariant l.Valid() && g.Valid() && clock.now >= 0 && g.waiters == old(g.waiters)
      invariant Own(l, others) == old(Own(l, others))
      invariant others.alone ==> l.inflight == old(l.inflight)
      invariant start <= p.log && InStep(p.log[|start|..], g, old(g.fails), old(g.backoffUntil))
    {
      var result := GateNext(l, g, budgets[k], others, p, contexts[k], clock, start, old(g.fails), old(g.backoffUntil));
    }
  }
}
