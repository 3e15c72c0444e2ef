/** Per-account limiters and the per-provider governor. */
module Pacing {
  import opened Optional
  import opened Slots
  import Backoff

  /** One account's allowance; zero means no limit on that axis. */
  datatype Budget = Budget(requestsPerSec: real, maxConcurrent: int, minSpacing: int, maxRetries: int)

  function RateInterval(requestsPerSec: real): nat
    requires requestsPerSec > 0.0
  {
    (1_000_000_000.0 / requestsPerSec).Floor
  }

  /** The interval is what the rate leaves per request, in whole nanoseconds. */
  lemma RateMeaning(rate: real)
    requires rate > 0.0
    ensures RateInterval(rate) as real * rate <= 1_000_000_000.0
    ensures 1_000_000_000.0 < (RateInterval(rate) as real + 1.0) * rate
  {
    var total := 1_000_000_000.0;
    Quotient(total, rate);
    Floored(total / rate, RateInterval(rate), rate, total);
  }

  lemma Quotient(total: real, rate: real)
    requires rate > 0.0
    ensures (total / rate) * rate == total
  {
  }

  lemma Floored(share: real, whole: int, rate: real, total: real)
    requires rate > 0.0 && whole == share.Floor && share * rate == total
    ensures whole as real * rate <= total
    ensures total < (whole as real + 1.0) * rate
  {
    Between(whole as real, share, whole as real + 1.0, rate, total);
  }

  lemma Between(low: real, share: real, high: real, rate: real, total: real)
    requires rate > 0.0 && low <= share < high && share * rate == total
    ensures low * rate <= total
    ensures total < high * rate
  {
    Scaled(low, share, rate);
    Scaled(share, high, rate);
  }

  lemma Scaled(a: real, b: real, rate: real)
    requires rate > 0.0
    ensures a <= b ==> a * rate <= b * rate
    ensures a < b ==> a * rate < b * rate
  {
    if a < b {
      assert (b - a) * rate > 0.0;
      assert (b - a) * rate == b * rate - a * rate;
    }
  }

  /** So many requests in so long keep the rate per second, to within a nanosecond
      for each of them. */
  predicate KeepsRate(requests: int, span: int, rate: real)
  {
    (span + requests) as real * rate > requests as real * 1_000_000_000.0
  }

  /** Paced at a rate, any two requests lie as far apart as those from one to the
      other need at that rate. */
  lemma RateKept(arrivals: seq<int>, rate: real, i: nat, k: nat)
    requires rate > 0.0 && Timely(arrivals) && i < k < |arrivals|
    ensures KeepsRate(k - i, Slot(arrivals, RateInterval(rate), k) - Slot(arrivals, RateInterval(rate), i), rate)
  {
    var interval := RateInterval(rate);
    SlotsSpaced(arrivals, interval, i, k);
    SpanOfRate(Slot(arrivals, interval, k) - Slot(arrivals, interval, i), k - i, rate);
  }

  lemma SpanOfRate(span: int, m: nat, rate: real)
    requires rate > 0.0 && m > 0 && span >= m * RateInterval(rate)
    ensures KeepsRate(m, span, rate)
  {
    RateMeaning(rate);
    SpanOf(span, m, RateInterval(rate), rate);
  }

  lemma SpanOf(span: int, m: nat, interval: nat, rate: real)
    requires rate > 0.0 && m > 0 && span >= m * interval && 1_000_000_000.0 < (interval as real + 1.0) * rate
    ensures KeepsRate(m, span, rate)
  {
    ProductCast(m, interval);
    Scaled(m as real * interval as real + m as real, (span + m) as real, rate);
    Distributed(m as real, interval as real, rate);
    Scaled(1_000_000_000.0, (interval as real + 1.0) * rate, m as real);
  }

  lemma Distributed(m: real, n: real, rate: real)
    ensures (m * n + m) * rate == ((n + 1.0) * rate) * m
  {
  }

  lemma ProductCast(m: int, n: int)
    ensures (m * n) as real == m as real * n as real
  {
  }

  /** The reservation interval in force, if the budget has a rate axis. */
  function Interval(b: Budget): Option<nat>
  {
    if b.requestsPerSec > 0.0 then Some(RateInterval(b.requestsPerSec))
    else if b.minSpacing > 0 then Some(b.minSpacing)
    else None
  }

  datatype Answer = Busy | Go | Park(wait: int)

  /** Reserving one slot: what the request is told, and the next free instant. */
  function Reserve(nextOK: int, interval: nat, now: int): (Answer, int)
  {
    if now < nextOK then (Park(nextOK - now), nextOK + interval) else (Go, now + interval)
  }

  predicate Full(b: Budget, inflight: nat)
  {
    b.maxConcurrent > 0 && inflight >= b.maxConcurrent
  }

  datatype Pacer = Pacer(inflight: nat, nextOK: int)

  /** One pass of a limiter's admission under its lock. */
  function Asked(b: Budget, p: Pacer, now: int): (Answer, Pacer)
  {
    if Full(b, p.inflight) then (Busy, p)
    else match Interval(b)
      case None => (Go, p.(inflight := p.inflight + 1))
      case Some(interval) =>
        var (answer, nextOK) := Reserve(p.nextOK, interval, now);
        (answer, Pacer(if answer.Go? then p.inflight + 1 else p.inflight, nextOK))
  }

  /** Reserving keeps pace with the closed form: the answer sends the request
      off exactly at its slot in the whole arrival history. */
  lemma ReserveIsSlot(arrivals: seq<int>, interval: nat, now: int)
    requires Timely(arrivals) && now >= 0
    ensures var (answer, nextOK) := Reserve(NextFree(arrivals, interval), interval, now);
      var slot := Slot(arrivals + [now], interval, |arrivals|);
      && nextOK == NextFree(arrivals + [now], interval)
      && answer == (if slot == now then Go else Park(slot - now))
      && slot >= now
  {
    if arrivals != [] {
      SlotOfPrefix(arrivals, [now], interval, |arrivals| - 1);
    }
  }

  class Limiter {
    const budget: Budget
    var inflight: nat
    var nextOK: int
    /** The clock readings of every request that reserved a slot. */
    ghost var arrivals: seq<int>

    ghost predicate Valid()
      reads this
    {
      Timely(arrivals) && match Interval(budget)
        case None => arrivals == [] && nextOK == 0
        case Some(interval) => nextOK == NextFree(arrivals, interval)
    }

    constructor (b: Budget)
      ensures Valid() && budget == b && inflight == 0 && arrivals == []
    {
      budget, inflight, nextOK, arrivals := b, 0, 0, [];
    }

    function View(): Pacer
      reads this
    {
      Pacer(inflight, nextOK)
    }

    /** One pass of Allow under the lock. A reserved slot stays reserved even
        when the caller gives up waiting for it. */
    method Ask(now: int) returns (answer: Answer)
      requires Valid() && now >= 0
      modifies this
      ensures Valid() && (answer, View()) == Asked(budget, old(View()), now)
      ensures answer.Busy? || Interval(budget).None? ==> arrivals == old(arrivals)
      ensures !answer.Busy? && Interval(budget).Some? ==>
        && arrivals == old(arrivals) + [now]
        && var slot := Slot(arrivals, Interval(budget).value, |old(arrivals)|);
           answer == if slot == now then Go else Park(slot - now)
      ensures answer.Busy? <==> budget.maxConcurrent > 0 && old(inflight) >= budget.maxConcurrent
      ensures inflight == old(inflight) + if answer.Go? then 1 else 0
      ensures !answer.Busy? && (budget.requestsPerSec > 0.0 || budget.minSpacing > 0) ==>
        && arrivals == old(arrivals) + [now]
        && var interval := if budget.requestsPerSec > 0.0 then RateInterval(budget.requestsPerSec) else budget.minSpacing;
           var slot := Slot(arrivals, interval, |old(arrivals)|);
           answer == if slot == now then Go else Park(slot - now)
      ensures answer.Busy? || (budget.requestsPerSec <= 0.0 && budget.minSpacing <= 0) ==> arrivals == old(arrivals)
    {
      if budget.maxConcurrent > 0 && inflight >= budget.maxConcurrent {
        return Busy;
      }
      var interval := if budget.requestsPerSec > 0.0 then RateInterval(budget.requestsPerSec)
                      else if budget.minSpacing > 0 then budget.minSpacing else -1;
      var wait := 0;
      if interval >= 0 {
        ReserveIsSlot(arrivals, interval, now);
        arrivals := arrivals + [now];
        if now < nextOK {
          wait := nextOK - now;
          nextOK := nextOK + interval;
        } else {
          nextOK := now + interval;
        }
      }
      if wait <= 0 {
        inflight := inflight + 1;
        return Go;
      }
      return Park(wait);
    }

    /** The parked caller's wait is over. */
    method Wake()
      requires Valid()
      modifies this
      ensures Valid() && View() == old(View()).(inflight := old(inflight) + 1) && arrivals == old(arrivals)
    {
      inflight := inflight + 1;
    }

    method Release()
      requires Valid()
      modifies this
      ensures Valid() && arrivals == old(arrivals) && nextOK == old(nextOK)
      ensures inflight == if old(inflight) > 0 then old(inflight) - 1 else 0
    {
      if inflight > 0 {
        inflight := inflight - 1;
      }
    }
  }

  class Governor {
    const requestsPerSec: real
    const base: int
    const max: int
    var nextOK: int
    var fails: nat
    var backoffUntil: int
    var waiters: nat
    ghost var arrivals: seq<int>

    ghost predicate Valid()
      reads this
    {
      Timely(arrivals) &&
      (if requestsPerSec > 0.0 then nextOK == NextFree(arrivals, RateInterval(requestsPerSec))
       else arrivals == [] && nextOK == 0)
    }

    constructor (requestsPerSec: real, base: int, max: int)
      ensures Valid() && this.requestsPerSec == requestsPerSec && this.base == base && this.max == max
      ensures fails == 0 && backoffUntil == 0 && waiters == 0 && arrivals == []
    {
      this.requestsPerSec, this.base, this.max := requestsPerSec, base, max;
      nextOK, fails, backoffUntil, waiters, arrivals := 0, 0, 0, 0, [];
    }

    /** Admission under the aggregate cap: refused while the provider backs off,
        otherwise sent off exactly at its slot. A refusal reports the parked. */
    method Ask(now: int) returns (answer: Answer, position: nat)
      requires Valid() && now >= 0
      modifies this
      ensures Valid() && fails == old(fails) && backoffUntil == old(backoffUntil)
      ensures answer.Busy? <==> now < backoffUntil
      ensures answer.Busy? ==> position == old(waiters) && arrivals == old(arrivals)
      ensures waiters == old(waiters) + (if answer.Park? then 1 else 0)
      ensures !answer.Busy? && requestsPerSec > 0.0 ==>
        && arrivals == old(arrivals) + [now]
        && var slot := Slot(arrivals, RateInterval(requestsPerSec), |old(arrivals)|);
           answer == if slot == now then Go else Park(slot - now)
      ensures !answer.Busy? && requestsPerSec <= 0.0 ==> answer.Go? && arrivals == old(arrivals)
      ensures answer.Park? ==> answer.wait > 0
    {
      position := 0;
      if now < backoffUntil {
        return Busy, waiters;
      }
      var wait := 0;
      if requestsPerSec > 0.0 {
        var interval := RateInterval(requestsPerSec);
        ReserveIsSlot(arrivals, interval, now);
        arrivals := arrivals + [now];
        if now < nextOK {
          wait := nextOK - now;
          nextOK := nextOK + interval;
        } else {
          nextOK := now + interval;
        }
      }
      if wait <= 0 {
        return Go, 0;
      }
      waiters := waiters + 1;
      return Park(wait), 0;
    }

    /** A parked caller leaves the queue, admitted or cancelled. */
    method Leave()
      requires Valid() && waiters > 0
      modifies this
      ensures Valid() && waiters == old(waiters) - 1
      ensures fails == old(fails) && backoffUntil == old(backoffUntil) && arrivals == old(arrivals)
    {
      waiters := waiters - 1;
    }

    method NoteError(now: int)
      requires Valid()
      modifies this
      ensures Valid() && fails == old(fails) + 1
      ensures backoffUntil == now + Backoff.Delay(base, max, fails)
      ensures waiters == old(waiters) && arrivals == old(arrivals)
    {
      fails := fails + 1;
      var d := Backoff.Shift(base, fails - 1);
      if d > max || d <= 0 {
        d := max;
      }
      backoffUntil := now + d;
    }

    method NoteSuccess()
      requires Valid()
      modifies this
      ensures Valid() && fails == 0 && backoffUntil == 0
      ensures waiters == old(waiters) && arrivals == old(arrivals)
    {
      fails, backoffUntil := 0, 0;
    }
  }

  // --- the concurrency bound

  /** A limiter together with its parked callers' slots and the last clock
      reading: everything its future depends on. */
  datatype Scene = Scene(pacer: Pacer, parked: seq<int>, clock: int)

  datatype Step = Ask(now: int) | Wake(caller: nat, now: int) | Cancel(caller: nat) | Release

  const START := Scene(Pacer(0, 0), [], 0)

  function Without(parked: seq<int>, i: nat): seq<int>
    requires i < |parked|
  {
    parked[..i] + parked[i + 1..]
  }

  /** The clock never runs back, a caller wakes no earlier than its slot, and a
      release follows an admission. */
  predicate Possible(s: Scene, step: Step)
  {
    match step
    case Ask(now) => now >= s.clock
    case Wake(i, now) => i < |s.parked| && now >= s.clock && now >= s.parked[i]
    case Cancel(i) => i < |s.parked|
    case Release => s.pacer.inflight > 0
  }

  function Play(b: Budget, s: Scene, step: Step): Scene
    requires Possible(s, step)
  {
    match step
    case Ask(now) =>
      var (answer, pacer) := Asked(b, s.pacer, now);
      Scene(pacer, if answer.Park? then s.parked + [now + answer.wait] else s.parked, now)
    case Wake(i, now) => Scene(s.pacer.(inflight := s.pacer.inflight + 1), Without(s.parked, i), now)
    case Cancel(i) => s.(parked := Without(s.parked, i))
    case Release => s.(pacer := s.pacer.(inflight := s.pacer.inflight - 1))
  }

  /** Where a run of steps leads, if each was possible when taken. */
  function RunsTo(b: Budget, steps: seq<Step>): Option<Scene>
  {
    if steps == [] then Some(START)
    else match RunsTo(b, steps[..|steps| - 1])
      case None => None
      case Some(before) =>
        var last := steps[|steps| - 1];
        if Possible(before, last) then Some(Play(b, before, last)) else None
  }

  ghost predicate Reached(b: Budget, steps: seq<Step>, s: Scene)
  {
    RunsTo(b, steps) == Some(s)
  }

  lemma ReachedStep(b: Budget, steps: seq<Step>, s: Scene, step: Step)
    requires Reached(b, steps, s) && Possible(s, step)
    ensures Reached(b, steps + [step], Play(b, s, step))
  {
    assert (steps + [step])[..|steps|] == steps;
  }

  /** No reachable scene holds more requests than the concurrency limit. */
  ghost predicate Bounded(b: Budget)
  {
    forall steps, s :: Reached(b, steps, s) ==> s.pacer.inflight <= b.maxConcurrent
  }

  /** Without a positive interval nobody is ever parked, so every admission
      passes the concurrency check. */
  lemma {:induction false} NeverParked(b: Budget, steps: seq<Step>, s: Scene)
    requires b.maxConcurrent > 0 && (Interval(b).None? || Interval(b).value == 0)
    requires Reached(b, steps, s)
    ensures s.pacer.inflight <= b.maxConcurrent && s.parked == [] && s.pacer.nextOK <= s.clock
  {
    if steps != [] {
      NeverParked(b, steps[..|steps| - 1], RunsTo(b, steps[..|steps| - 1]).value);
    }
  }

  lemma OneParked(b: Budget, s: Scene)
    requires b.maxConcurrent > 0 && Interval(b).Some? && s.pacer.inflight == 0 && s.clock == 0 < s.pacer.nextOK
    ensures Play(b, s, Ask(0))
         == Scene(Pacer(0, s.pacer.nextOK + Interval(b).value), s.parked + [s.pacer.nextOK], 0)
  {
  }

  /** n callers can be parked at time zero while nothing is in flight. */
  lemma {:induction false} ManyParked(b: Budget, n: nat) returns (steps: seq<Step>, s: Scene)
    requires b.maxConcurrent > 0 && Interval(b).Some? && Interval(b).value > 0
    ensures Reached(b, steps, s)
    ensures s.pacer == Pacer(0, (n + 1) * Interval(b).value) && |s.parked| == n && s.clock == 0
    ensures forall i :: 0 <= i < n ==> s.parked[i] <= n * Interval(b).value
  {
    var interval := Interval(b).value;
    if n == 0 {
      ReachedStep(b, [], START, Ask(0));
      var admitted := Play(b, START, Ask(0));
      ReachedStep(b, [] + [Ask(0)], admitted, Release);
      steps, s := [] + [Ask(0)] + [Release], Play(b, admitted, Release);
    } else {
      var front, before := ManyParked(b, n - 1);
      assert n * interval >= interval by { ProductMonotone(1, n, interval); }
      ReachedStep(b, front, before, Ask(0));
      OneParked(b, before);
      steps, s := front + [Ask(0)], Play(b, before, Ask(0));
      assert (n + 1) * interval == n * interval + interval;
      assert n * interval == (n - 1) * interval + interval;
    }
  }

  /** Parked callers wake without passing the concurrency check again. */
  lemma {:induction false} ManyWoken(b: Budget, n: nat, k: nat) returns (steps: seq<Step>, s: Scene)
    requires b.maxConcurrent > 0 && Interval(b).Some? && Interval(b).value > 0 && k <= n
    ensures Reached(b, steps, s)
    ensures s.pacer.inflight == k && |s.parked| == n - k && s.clock <= n * Interval(b).value
    ensures forall i :: 0 <= i < n - k ==> s.parked[i] <= n * Interval(b).value
  {
    if k == 0 {
      steps, s := ManyParked(b, n);
      assert n * Interval(b).value >= 0;
    } else {
      var front, before := ManyWoken(b, n, k - 1);
      var wake := Wake(0, n * Interval(b).value);
      ReachedStep(b, front, before, wake);
      steps, s := front + [wake], Play(b, before, wake);
    }
  }

  /** A limiter with a concurrency limit keeps it in every run exactly when its
      budget imposes no positive interval: callers parked for a rate slot are
      not checked against the limit again when they wake. */
  lemma ConcurrencyBoundIff(b: Budget)
    requires b.maxConcurrent > 0
    ensures Bounded(b) <==> Interval(b).None? || Interval(b).value == 0
  {
    if Interval(b).None? || Interval(b).value == 0 {
      forall steps, s | Reached(b, steps, s) ensures s.pacer.inflight <= b.maxConcurrent {
        NeverParked(b, steps, s);
      }
    } else {
      var n := b.maxConcurrent + 1;
      var steps, s := ManyWoken(b, n, n);
    }
  }
}
