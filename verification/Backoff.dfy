/** Exponential waits computed by shifting a 64-bit duration, as the provider
    governor and the job scheduler do, and why overflow never shows. */
module Backoff {

  const TWO63 := 0x8000_0000_0000_0000
  const TWO64 := 0x1_0000_0000_0000_0000

  /** Nanoseconds. */
  const SECOND := 1_000_000_000
  const MINUTE := 60 * SECOND

  /** The shipped governor constants. */
  const GOVERNOR_BASE := SECOND
  const GOVERNOR_MAX := 30 * SECOND

  /** The shipped scheduler constants. */
  const BACKOFF_BASE := MINUTE
  const BACKOFF_MAX := 24 * 60 * MINUTE
  const MIN_WAIT := SECOND

  function Pow2(n: nat): (r: nat)
    ensures r >= 1
  {
    if n == 0 then 1 else 2 * Pow2(n - 1)
  }

  /** The signed 64-bit integer with the same low bits. */
  function Wrap(n: int): (r: int)
    ensures -TWO63 <= r < TWO63
  {
    (n + TWO63) % TWO64 - TWO63
  }

  /** A left shift of an int64; shifting everything out leaves zero. */
  function Shift(base: int, count: nat): int
  {
    Wrap(base * Pow2(count))
  }

  /** The governor's delay after the n-th consecutive failure. */
  function Delay(base: int, max: int, failures: nat): int
    requires failures >= 1
  {
    var d := Shift(base, failures - 1);
    if d > max || d <= 0 then max else d
  }

  function Min(a: int, b: int): int { if a < b then a else b }

  // --- arithmetic

  lemma {:induction false} Pow2Sum(a: nat, b: nat)
    ensures Pow2(a + b) == Pow2(a) * Pow2(b)
  {
    if a > 0 {
      Pow2Sum(a - 1, b);
      Doubled(Pow2(a - 1), Pow2(b));
    }
  }

  lemma Doubled(m: int, n: int)
    ensures (2 * m) * n == 2 * (m * n)
  {
  }

  lemma Pow2Of32()
    ensures Pow2(8) == 0x100 && Pow2(16) == 0x1_0000 && Pow2(32) == 0x1_0000_0000
  {
    assert Pow2(4) == 16;
    Pow2Sum(4, 4);
    Pow2Sum(8, 8);
    Pow2Sum(16, 16);
  }

  lemma Pow2Of64()
    ensures Pow2(64) == TWO64
  {
    Pow2Of32();
    Pow2Sum(32, 32);
  }

  lemma WrapInRange(n: int)
    requires -TWO63 <= n < TWO63
    ensures Wrap(n) == n
  {
  }

  lemma WrapDiffers(n: int) returns (k: int)
    ensures Wrap(n) == n - k * TWO64
  {
    k := (n + TWO63) / TWO64;
  }

  lemma MultipleMinus(m: int, x: int, k: int, y: int, z: int)
    requires z == y * m
    ensures x * m - k * z == (x - k * y) * m
  {
    assert k * z == (k * y) * m;
  }

  lemma PositiveMultiple(m: int, p: int)
    requires p > 0 && m * p > 0
    ensures m * p >= p
  {
    assert m >= 1;
    if m >= 1 {
      assert (m - 1) * p >= 0;
    }
  }

  lemma WrappedLowMultiple(q: nat, e: nat)
    requires e <= 64
    ensures Wrap(q * Pow2(e)) > 0 ==> Wrap(q * Pow2(e)) >= Pow2(e)
  {
    Pow2Of64();
    Pow2Sum(64 - e, e);
    var k := WrapDiffers(q * Pow2(e));
    MultipleMinus(Pow2(e), q, k, Pow2(64 - e), TWO64);
    if Wrap(q * Pow2(e)) > 0 {
      PositiveMultiple(q - k * Pow2(64 - e), Pow2(e));
    }
  }

  lemma ProductAssociates(a: int, b: int, c: int)
    ensures a * (b * c) == (a * b) * c
  {
  }

  lemma WrapOfMultiple(c: int)
    ensures Wrap(c * TWO64) == 0
  {
    var k := WrapDiffers(c * TWO64);
    assert Wrap(c * TWO64) == (c - k) * TWO64;
  }

  lemma WrappedHighMultiple(q: nat, e: nat)
    requires e >= 64
    ensures Wrap(q * Pow2(e)) == 0
  {
    Pow2Of64();
    Pow2Sum(e - 64, 64);
    ProductAssociates(q, Pow2(e - 64), TWO64);
    WrapOfMultiple(q * Pow2(e - 64));
  }

  /** The bits shifted in are zeros: a positive result is at least 2^e when the
      unshifted product is a multiple of 2^e. */
  lemma WrappedMultiple(q: nat, e: nat)
    ensures Wrap(q * Pow2(e)) > 0 ==> Wrap(q * Pow2(e)) >= Pow2(e)
  {
    if e <= 64 {
      WrappedLowMultiple(q, e);
    } else {
      WrappedHighMultiple(q, e);
    }
  }

  // --- the governor

  /** What the n-th delay is meant to be. */
  predicate Exact(base: int, max: int, failures: nat)
    requires failures >= 1
  {
    Delay(base, max, failures) == Min(base * Pow2(failures - 1), max)
  }

  /** Shifting this far shows no overflow: there is none, or its wrapped result
      is one the cap replaces. */
  predicate Hidden(base: int, max: int, count: nat)
  {
    base * Pow2(count) < TWO63 || !(0 < Shift(base, count) < max)
  }

  /** One delay is the capped doubling exactly when its shift shows no overflow. */
  lemma DelayExactIff(base: int, max: int, failures: nat)
    requires base >= 1 && failures >= 1 && 0 < max < TWO63
    ensures Exact(base, max, failures) <==> Hidden(base, max, failures - 1)
  {
    PositiveProduct(base, Pow2(failures - 1));
    if base * Pow2(failures - 1) < TWO63 {
      WrapInRange(base * Pow2(failures - 1));
    }
  }

  /** Every delay of a governor is the capped doubling exactly when its first 64
      shifts show no overflow: a check on base and cap alone. */
  lemma AlwaysExactIff(base: int, max: int)
    requires base >= 1 && 0 < max < TWO63
    ensures (forall n: nat :: n >= 1 ==> Exact(base, max, n)) <==> (forall s: nat :: s < 64 ==> Hidden(base, max, s))
  {
    forall n: nat | n >= 1 ensures Exact(base, max, n) <==> Hidden(base, max, n - 1) {
      DelayExactIff(base, max, n);
    }
    forall s: nat ensures s >= 64 ==> Hidden(base, max, s) {
      if s >= 64 {
        WrappedHighMultiple(base, s);
      }
    }
    if forall n: nat :: n >= 1 ==> Exact(base, max, n) {
      forall s: nat | s < 64 ensures Hidden(base, max, s) {
        assert Exact(base, max, s + 1);
      }
    }
  }

  /** One way to meet it: the cap times the factor q of the base left beside its
      power of two fits an int64. */
  lemma DelayExact(q: nat, v: nat, max: int, failures: nat)
    requires q >= 1 && failures >= 1 && 0 < max && q * max < TWO63
    ensures Delay(q * Pow2(v), max, failures) == Min(q * Pow2(v) * Pow2(failures - 1), max)
  {
    var s := failures - 1;
    var base, e := q * Pow2(v), v + s;
    Pow2Sum(v, s);
    assert base * Pow2(s) == q * Pow2(e);
    PositiveProduct(q, Pow2(v));
    Dominates(q, max);
    DelayExactIff(base, max, failures);
    WrappedMultiple(q, e);
    if 0 < Shift(base, s) < max {
      MonotoneProduct(q, Pow2(e), max);
    }
  }

  lemma PositiveProduct(a: int, b: int)
    requires a >= 1 && b >= 1
    ensures a * b >= 1
  {
  }

  lemma Dominates(a: int, b: int)
    requires a >= 1 && b > 0
    ensures b <= a * b
  {
    assert (a - 1) * b >= 0;
  }

  lemma MonotoneProduct(a: int, b: int, c: int)
    requires a >= 0 && b <= c
    ensures a * b <= a * c
  {
    assert a * (c - b) >= 0;
  }

  /** With the shipped constants the delay after n failures is exactly
      min(1s * 2^(n-1), 30s), for every n. */
  lemma GovernorDelayExact(failures: nat)
    requires failures >= 1
    ensures GOVERNOR_BASE == 1_000_000_000 && GOVERNOR_MAX == 30_000_000_000
    ensures Delay(GOVERNOR_BASE, GOVERNOR_MAX, failures) == Min(GOVERNOR_BASE * Pow2(failures - 1), GOVERNOR_MAX)
  {
    assert Pow2(9) == 512;
    DelayExact(1_953_125, 9, GOVERNOR_MAX, failures);
  }

  /** Other constants can expose the wrap: five units doubled 62 times wrap to
      a positive value far below a large cap. */
  lemma DelayInexactInGeneral()
    ensures var max := TWO63 - 1;
      Delay(5, max, 63) < Min(5 * Pow2(62), max)
  {
    Pow2Of32();
    assert Pow2(32) == 2 * Pow2(31);
    Pow2Sum(31, 31);
    assert 5 * Pow2(62) == 0x1_4000_0000_0000_0000;
    DelayExactIff(5, TWO63 - 1, 63);
  }

  // --- the scheduler

  /** Uniform jitter of a tenth either way; the draw is the random number. */
  function Spread(d: int): int
  {
    (d as real * 0.10).Floor
  }

  function Jittered(d: int, draw: nat): int
  {
    if Spread(d) <= 0 then d else d - Spread(d) + draw
  }

  /** The wait before retrying a job that failed this many times in a row. */
  function Wait(failures: nat, draw: nat): int
    requires failures >= 1
  {
    var d := Shift(BACKOFF_BASE, failures - 1);
    if d > BACKOFF_MAX || d <= 0 then BACKOFF_MAX
    else if d < MIN_WAIT then MIN_WAIT
    else Jittered(d, draw)
  }

  /** A draw the jitter can make, when the wait is jittered at all. */
  predicate Drawable(failures: nat, draw: nat)
    requires failures >= 1
  {
    var d := Shift(BACKOFF_BASE, failures - 1);
    MIN_WAIT <= d <= BACKOFF_MAX ==> draw <= 2 * Spread(d)
  }

  lemma {:induction false} Pow2Monotone(a: nat, b: nat)
    requires a <= b
    ensures Pow2(a) <= Pow2(b)
  {
    if a < b {
      Pow2Monotone(a, b - 1);
    }
  }

  lemma PowersFrom28()
    ensures Pow2(28) == 0x1000_0000 && Pow2(29) == 0x2000_0000 && Pow2(30) == 0x4000_0000
    ensures Pow2(31) == 0x8000_0000 && Pow2(32) == 0x1_0000_0000 && Pow2(33) == 0x2_0000_0000
    ensures Pow2(34) == 0x4_0000_0000 && Pow2(35) == 0x8_0000_0000
  {
    Pow2Of32();
    assert Pow2(32) == 2 * Pow2(31);
    assert Pow2(31) == 2 * Pow2(30);
    assert Pow2(30) == 2 * Pow2(29);
    assert Pow2(29) == 2 * Pow2(28);
  }

  /** From the twelfth failure on, every shift result is out of range: too big,
      wrapped negative, or shifted out altogether. */
  lemma LateShiftsOutOfRange(s: nat)
    requires s >= 11
    ensures Shift(BACKOFF_BASE, s) > BACKOFF_MAX || Shift(BACKOFF_BASE, s) <= 0
  {
    if s <= 27 {
      UnwrappedShifts(s);
    } else if s <= 35 {
      WrappingShifts(s);
    } else {
      VeryLateShifts(s);
    }
  }

  lemma UnwrappedShifts(s: nat)
    requires 11 <= s <= 27
    ensures Shift(BACKOFF_BASE, s) > BACKOFF_MAX
  {
    PowerBetween(s);
    MinutesFit(Pow2(s));
  }

  lemma PowerBetween(s: nat)
    requires 11 <= s <= 27
    ensures 2048 <= Pow2(s) <= 0x800_0000
  {
    PowersFrom28();
    assert Pow2(11) == 2048;
    assert Pow2(28) == 2 * Pow2(27);
    Pow2Monotone(11, s);
    Pow2Monotone(s, 27);
  }

  lemma MinutesFit(p: nat)
    requires 1 <= p <= 0x800_0000
    ensures Wrap(BACKOFF_BASE * p) == BACKOFF_BASE * p
  {
  }

  lemma WrappingShifts(s: nat)
    requires 28 <= s <= 35
    ensures Shift(BACKOFF_BASE, s) > BACKOFF_MAX || Shift(BACKOFF_BASE, s) <= 0
  {
    PowersFrom28();
    assert s == 28 || s == 29 || s == 30 || s == 31 || s == 32 || s == 33 || s == 34 || s == 35;
  }

  lemma VeryLateShifts(s: nat)
    requires s >= 36
    ensures Shift(BACKOFF_BASE, s) > BACKOFF_MAX || Shift(BACKOFF_BASE, s) <= 0
  {
    assert Pow2(11) == 2048;
    Pow2Sum(11, s);
    assert BACKOFF_BASE * Pow2(s) == 29_296_875 * Pow2(11 + s);
    WrappedMultiple(29_296_875, 11 + s);
    Pow2Of32();
    assert Pow2(15) == 0x8000 by { assert Pow2(16) == 2 * Pow2(15); }
    Pow2Sum(32, 15);
    Pow2Monotone(47, 11 + s);
  }

  lemma JitterWithinTenth(d: int, draw: nat)
    requires d > 0 && draw <= 2 * Spread(d)
    ensures 9 * d <= 10 * Jittered(d, draw) <= 11 * d
  {
    assert Spread(d) as real <= d as real * 0.10;
  }

  lemma EarlyWait(failures: nat, draw: nat)
    requires 1 <= failures <= 11
    ensures var d := BACKOFF_BASE * Pow2(failures - 1);
      && Shift(BACKOFF_BASE, failures - 1) == d && MINUTE <= d <= 1024 * MINUTE
      && Wait(failures, draw) == Jittered(d, draw)
  {
    Pow2Monotone(failures - 1, 10);
    assert Pow2(10) == 1024;
    MinutesFit(Pow2(failures - 1));
  }

  /** Every wait is the capped doubling within a tenth, whatever the draw, and
      stays between the floor and the ceiling; within the tenth every wait can be
      drawn, in nanoseconds and with nothing favoured. */
  lemma SchedulerWaitBounds(failures: nat, draw: nat)
    requires failures >= 1 && Drawable(failures, draw)
    ensures 1_000_000_000 <= Wait(failures, draw) <= 86_400_000_000_000
    ensures failures >= 12 ==> Wait(failures, draw) == 86_400_000_000_000
    ensures failures <= 11 ==>
      var d := 60_000_000_000 * Pow2(failures - 1);
      9 * d <= 10 * Wait(failures, draw) <= 11 * d && 10 * (Wait(failures, draw) - draw) == 9 * d
  {
    if failures >= 12 {
      LateShiftsOutOfRange(failures - 1);
    } else {
      EarlyWait(failures, draw);
      WholeTenth(6_000_000_000 * Pow2(failures - 1));
      JitterWithinTenth(BACKOFF_BASE * Pow2(failures - 1), draw);
    }
  }

  lemma WholeTenth(tenth: nat)
    ensures Spread(10 * tenth) == tenth
  {
    assert (10 * tenth) as real * 0.10 == tenth as real;
  }
}
