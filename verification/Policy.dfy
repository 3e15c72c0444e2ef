/** Usage policy: how limit sets overlay each other and what concurrent-stream
    ceiling results. */
module Policy {
  import opened Optional
  import Decimal

  type Limits = map<string, string>

  const STREAMS := "concurrentStreams"

  /** A copy of `base` with `overlay` on top. */
  function With(base: Limits, overlay: Limits): Limits
  {
    base + overlay
  }

  method Overlay(base: Limits, overlay: Limits) returns (out: Limits)
    ensures out == With(base, overlay)
  {
    out := base;
    var rest := overlay.Keys;
    while rest != {}
      invariant rest <= overlay.Keys
      invariant out == base + (overlay - rest)
      decreases rest
    {
      var k :| k in rest;
      out := out[k := overlay[k]];
      rest := rest - {k};
    }
  }

  /** The declared stream ceiling; None when the key is absent. */
  function Streams(s: Limits): Option<int>
  {
    if STREAMS in s then Some(Decimal.Atoi(s[STREAMS])) else None
  }

  function EffectiveAccountLimit(policy: Limits, cap: Limits): int
  {
    match (Streams(policy), Streams(cap))
    case (None, None) => 0
    case (None, Some(c)) => c
    case (Some(l), None) => l
    case (Some(l), Some(c)) => if c < l then c else l
  }

  /** What parsing at the configuration boundary guarantees of a set: a declared
      ceiling is a positive integer. */
  predicate Validated(s: Limits)
  {
    Streams(s).Some? ==> Streams(s).value >= 1
  }

  /** The effective limit admits a further session exactly when every declared
      ceiling does, with no declaration at all admitting nothing; overlaying
      validated sets never produces a negative limit. */
  lemma EffectiveLimitMeaning(base: Limits, overlay: Limits, cap: Limits, active: nat)
    requires Validated(base) && Validated(overlay) && Validated(cap)
    ensures var policy, limit := With(base, overlay), EffectiveAccountLimit(With(base, overlay), cap);
      && limit >= 0
      && Streams(policy) == (if Streams(overlay).Some? then Streams(overlay) else Streams(base))
      && (active < limit <==>
            && (Streams(policy).Some? || Streams(cap).Some?)
            && (Streams(policy).Some? ==> active < Streams(policy).value)
            && (Streams(cap).Some? ==> active < Streams(cap).value))
  {
  }

  /** The set names no stream ceiling, or names this one in decimal. */
  predicate Declares(s: Limits, ceiling: Option<nat>)
  {
    match ceiling
    case None => "concurrentStreams" !in s
    case Some(n) => 1 <= n <= Decimal.MAX_INT && "concurrentStreams" in s && s["concurrentStreams"] == Decimal.Itoa(n)
  }

  /** What the sets' own texts come to: an override replaces the default, and a
      further session fits exactly below every ceiling left, there being one. */
  lemma LimitFromText(base: Limits, overlay: Limits, cap: Limits, b: Option<nat>, o: Option<nat>, c: Option<nat>, active: nat)
    requires Declares(base, b) && Declares(overlay, o) && Declares(cap, c)
    ensures Validated(base) && Validated(overlay) && Validated(cap)
    ensures var policy := if o.Some? then o else b;
      active < EffectiveAccountLimit(With(base, overlay), cap) <==>
        && (policy.Some? || c.Some?)
        && (policy.Some? ==> active < policy.value) && (c.Some? ==> active < c.value)
  {
    DeclaredStreams(base, b);
    DeclaredStreams(overlay, o);
    DeclaredStreams(cap, c);
    EffectiveLimitMeaning(base, overlay, cap, active);
  }

  lemma DeclaredStreams(s: Limits, ceiling: Option<nat>)
    requires Declares(s, ceiling)
    ensures Streams(s) == ceiling
  {
    if ceiling.Some? {
      Decimal.AtoiOfItoa(ceiling.value);
    }
  }
}
