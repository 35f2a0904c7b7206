/** Counter ticks and durations (src/kernel/time.rs). */
module Ticks {
  import opened Arithmetic
  import opened Bits

  const NANOS_PER_SEC: nat := 1_000_000_000

  /** `core::time::Duration`: the nanoseconds stay below a second. */
  datatype Duration = Duration(secs: u64, nanos: nat)

  predicate ValidDuration(d: Duration)
  {
    d.nanos < NANOS_PER_SEC
  }

  function Total(d: Duration): nat
  {
    d.secs * NANOS_PER_SEC + d.nanos
  }

  /** Every timer frequency the kernel meets: up to one tick per nanosecond. */
  predicate Frequency(f: nat)
  {
    1 <= f <= NANOS_PER_SEC
  }

  /** `convert_duration_to_ticks`, before the cast to 64 bits. */
  function WideTicks(f: nat, d: Duration): nat
  {
    d.secs * f + d.nanos * f / NANOS_PER_SEC
  }

  function DurationToTicks(f: nat, d: Duration): u64
  {
    WideTicks(f, d) % U64_LIMIT
  }

  /** What does not fit 64 bits is cut off above. */
  lemma TicksCut(f: nat, d: Duration)
    ensures exists k: nat :: d.secs * f + d.nanos * f / 1_000_000_000 == DurationToTicks(f, d) + k * 0x1_0000_0000_0000_0000
  {
    var w := WideTicks(f, d);
    assert w == w % U64_LIMIT + w / U64_LIMIT * 0x1_0000_0000_0000_0000;
  }

  function TicksToDuration(f: nat, t: u64): (d: Duration)
    requires f > 0
  {
    QuotientFits(t, f);
    Duration(t / f, t % f * NANOS_PER_SEC / f)
  }

  lemma QuotientFits(t: nat, f: nat)
    requires f > 0
    ensures t / f <= t
  {
    DivBounds(t, f);
    if t / f > t { MulLe(t + 1, t / f, f); MulLe(1, f, t); }
  }

  /** `calc_resolution`. */
  function Resolution(f: nat): nat
    requires f > 0
  {
    if NANOS_PER_SEC / f >= 1 then NANOS_PER_SEC / f else 1
  }

  // ----- ticks to a duration and back -----

  /** The nanosecond field never reaches a second. */
  lemma NanosFit(f: nat, t: u64)
    requires f > 0
    ensures ValidDuration(TicksToDuration(f, t))
  {
    var r := t % f;
    DivBounds(r * NANOS_PER_SEC, f);
    MulLe(r + 1, f, NANOS_PER_SEC);
    assert (r + 1) * NANOS_PER_SEC == r * NANOS_PER_SEC + NANOS_PER_SEC;
    var q := r * NANOS_PER_SEC / f;
    assert q * f < NANOS_PER_SEC * f;
    MulCancel(q, NANOS_PER_SEC, f);
  }

  /** The part of a second below one: back to the same ticks if its nanoseconds are whole. */
  lemma BackWithinSecond(f: nat, r: nat)
    requires Frequency(f) && r < f
    ensures r * NANOS_PER_SEC % f == 0 ==> r * NANOS_PER_SEC / f * f / NANOS_PER_SEC == r
    ensures r * NANOS_PER_SEC % f != 0 ==> r > 0 && r * NANOS_PER_SEC / f * f / NANOS_PER_SEC == r - 1
  {
    var e, whole := r * NANOS_PER_SEC % f, r * NANOS_PER_SEC / f * f;
    Remainder(r * NANOS_PER_SEC, f);
    assert whole == r * NANOS_PER_SEC - e;
    if e == 0 {
      DivIs(whole, NANOS_PER_SEC, r);
    } else {
      DivIs(whole, NANOS_PER_SEC, r - 1);
    }
  }

  /** Back from a duration: the tick count itself exactly when its nanoseconds are whole, otherwise one tick less. */
  lemma RoundTrip(f: nat, t: u64)
    requires Frequency(f)
    ensures DurationToTicks(f, TicksToDuration(f, t)) == if t % f * NANOS_PER_SEC % f == 0 then t else t - 1
  {
    var r, s := t % f, t / f;
    Remainder(t, f);
    BackWithinSecond(f, r);
    var wide := s * f + r * NANOS_PER_SEC / f * f / NANOS_PER_SEC;
    assert WideTicks(f, TicksToDuration(f, t)) == wide;
    Small(wide);
  }

  lemma Small(x: nat)
    ensures x < U64_LIMIT ==> x % U64_LIMIT == x
  {
  }

  // ----- a duration to ticks and back -----

  lemma LossWithinSecond(f: nat, nanos: nat)
    requires Frequency(f) && nanos < NANOS_PER_SEC
    ensures var q := nanos * f / NANOS_PER_SEC;
      var back := q * NANOS_PER_SEC / f;
      q < f && back <= nanos && (nanos - back) * f < NANOS_PER_SEC + f
  {
    var a := nanos * f;
    var q := a / NANOS_PER_SEC;
    DivBounds(a, NANOS_PER_SEC);
    Below(nanos, f);
    MulCancel(q, f, NANOS_PER_SEC);
    var back := q * NANOS_PER_SEC / f;
    DivBounds(q * NANOS_PER_SEC, f);
    assert back * f <= a;
    Succ(nanos, f);
    MulCancel(back, nanos + 1, f);
    Differ(nanos, back, f);
  }

  lemma Below(nanos: nat, f: nat)
    requires nanos < NANOS_PER_SEC && f > 0
    ensures nanos * f < f * NANOS_PER_SEC
  {
    MulLe(nanos + 1, NANOS_PER_SEC, f);
    Succ(nanos, f);
  }

  lemma Differ(a: nat, b: nat, f: nat)
    requires b <= a
    ensures (a - b) * f == a * f - b * f
  {
  }

  /** Short of overflow, less than one tick and one nanosecond are lost, and nothing is gained. */
  lemma LossBound(f: nat, d: Duration)
    requires Frequency(f) && ValidDuration(d) && WideTicks(f, d) < U64_LIMIT
    ensures var d' := TicksToDuration(f, DurationToTicks(f, d));
      Total(d') <= Total(d) && (Total(d) - Total(d')) * f < NANOS_PER_SEC + f
  {
    var q := d.nanos * f / NANOS_PER_SEC;
    LossWithinSecond(f, d.nanos);
    Small(WideTicks(f, d));
    DivIs(d.secs * f + q, f, d.secs);
    assert TicksToDuration(f, DurationToTicks(f, d)) == Duration(d.secs, q * NANOS_PER_SEC / f);
  }

  // ----- monotone -----

  lemma TicksMonotone(f: nat, t: u64, u: u64)
    requires f > 0 && t <= u
    ensures Total(TicksToDuration(f, t)) <= Total(TicksToDuration(f, u))
  {
    DivMonotone(t, u, f);
    NanosFit(f, t);
    if t / f == u / f {
      assert t % f <= u % f;
      MulLe(t % f, u % f, NANOS_PER_SEC);
      DivMonotone(t % f * NANOS_PER_SEC, u % f * NANOS_PER_SEC, f);
    }
  }

  lemma DurationMonotone(f: nat, d: Duration, e: Duration)
    requires Frequency(f) && ValidDuration(d) && ValidDuration(e) && Total(d) <= Total(e) && WideTicks(f, e) < U64_LIMIT
    ensures DurationToTicks(f, d) <= DurationToTicks(f, e)
  {
    var p, q := d.nanos * f, e.nanos * f;
    if d.secs == e.secs {
      MulLe(d.nanos, e.nanos, f);
      DivMonotone(p, q, NANOS_PER_SEC);
    } else {
      LossWithinSecond(f, d.nanos);
      MulLe(d.secs + 1, e.secs, f);
      Succ(d.secs, f);
    }
    assert WideTicks(f, d) <= WideTicks(f, e);
    Small(WideTicks(f, d));
    Small(WideTicks(f, e));
  }

  /** One tick lasts at least the resolution and less than a nanosecond more. */
  lemma ResolutionBound(f: nat)
    requires Frequency(f)
    ensures Resolution(f) * f <= NANOS_PER_SEC < (Resolution(f) + 1) * f
  {
    DivBounds(NANOS_PER_SEC, f);
    if NANOS_PER_SEC / f == 0 { assert false; }
    assert (Resolution(f) + 1) * f == Resolution(f) * f + f;
  }
}
