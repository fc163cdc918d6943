/** Frequencies of src/freq.rs: a rational number of periods `count` per
    `cycle` nanoseconds, kept reduced. Durations are measured in "elements",
    nanoseconds multiplied by `count`, so that one period is exactly `cycle`
    elements long and tick positions need no rounding. */
module Freq {
  import opened Ints
  import opened Wrappers
  import opened DivMod
  import opened Euclid
  import opened Span
  import opened Stamp
  import opened Step

  datatype Frequency = Frequency(count: u64, cycle: NonZeroU64)
  {
    /** `Frequency::new`: `count / cycle` divided through by their gcd. The
        result is the same rational, reduced, with a non-zero cycle. */
    static function New(count: u64, cycle: NonZeroTimeSpan): (r: Frequency)
      ensures r.count * cycle.nanos == count * r.cycle
      ensures Gcd(r.count, r.cycle) == 1
      ensures r.count <= count && r.cycle <= cycle.nanos
    {
      var g := Gcd(count, cycle.nanos);
      GcdQuotients(count, cycle.nanos);
      ReductionFacts(count, cycle.nanos, g, count / g, cycle.nanos / g);
      Frequency(count / g, cycle.nanos / g)
    }

    /** `Frequency::try_new`: `None` exactly for a zero cycle. */
    static function TryNew(count: u64, cycle: TimeSpan): (r: Option<Frequency>)
      ensures r.None? <==> cycle.nanos == 0
      ensures r.Some? ==> r.value == New(count, NonZeroTimeSpan(cycle.nanos))
    {
      match NonZeroTimeSpan.TryFrom(cycle)
      case None => None
      case Some(c) => Some(New(count, c))
    }

    /** `value` periods per second. */
    static function FromHz(value: u64): (r: Frequency)
      ensures r.count * TimeSpan.SECOND.nanos == value * r.cycle
      ensures Gcd(r.count, r.cycle) == 1
    {
      New(value, NonZeroTimeSpan.SECOND)
    }

    /** `value` periods per millisecond. */
    static function FromKhz(value: u64): (r: Frequency)
      ensures r.count * TimeSpan.MILLISECOND.nanos == value * r.cycle
      ensures Gcd(r.count, r.cycle) == 1
    {
      New(value, NonZeroTimeSpan.MILLISECOND)
    }

    /** `value` periods per microsecond. */
    static function FromMhz(value: u64): (r: Frequency)
      ensures r.count * TimeSpan.MICROSECOND.nanos == value * r.cycle
      ensures Gcd(r.count, r.cycle) == 1
    {
      New(value, NonZeroTimeSpan.MICROSECOND)
    }

    /** `value` periods per nanosecond. */
    static function FromGhz(value: u64): (r: Frequency)
      ensures r.count == value && r.cycle == 1
    {
      New(value, NonZeroTimeSpan.NANOSECOND)
    }

    /** Elements in a span; the source multiplies without a check. For a
        non-zero count the shortest span holding them is the span itself;
        for a zero count there are none. */
    function Elements(span: TimeSpan): (r: u64)
      requires span.nanos * count <= U64_MAX
      ensures count > 0 ==> SpanFittingElements(r) == Some(span)
      ensures count == 0 ==> r == 0
    {
      if count > 0 then
        CeilDivShift(span.nanos, 0, count);
        span.nanos * count
      else
        0
    }

    /** Whole periods in a span: the floor of `span * count / cycle`. */
    function PeriodsInSpan(span: TimeSpan): (r: u64)
      requires span.nanos * count <= U64_MAX
      ensures r * cycle <= span.nanos * count < (r + 1) * cycle
    {
      PeriodsInElements(Elements(span)).0
    }

    /** The elements of one period: one whole period, nothing left over. */
    function PeriodElements(): (r: u64)
      ensures PeriodsInElements(r) == (1, 0)
    {
      MulDivExact(1, cycle);
      cycle
    }

    /** The elements of `periods` periods, exactly that many whole periods;
        the source multiplies without a check. */
    function PeriodsElements(periods: u64): (r: u64)
      requires cycle * periods <= U64_MAX
      ensures PeriodsInElements(r) == (periods, 0)
    {
      MulDivExact(periods, cycle);
      cycle * periods
    }

    /** Whole periods in `elements`, and the elements left over. */
    function PeriodsInElements(elements: u64): (r: (u64, u64))
      ensures r.0 * cycle + r.1 == elements && r.1 < cycle
    {
      (elements / cycle, elements % cycle)
    }

    /** Elements from `elements` to the next period boundary strictly after it. */
    function UntilNext(elements: u64): (r: u64)
      ensures 1 <= r <= cycle
      ensures (elements + r) % cycle == 0
    {
      MulDivExact(elements / cycle + 1, cycle);
      assert elements + (cycle - elements % cycle) == (elements / cycle + 1) * cycle;
      cycle - elements % cycle
    }

    /** The shortest span holding at least `elements` elements; `None` when
        elements are infinitely long (`count == 0`) and some are asked for. */
    function SpanFittingElements(elements: u64): (r: Option<TimeSpan>)
      ensures r.None? <==> count == 0 && elements > 0
      ensures r.Some? ==> r.value.nanos * count >= elements
      ensures r.Some? && r.value.nanos > 0 ==> (r.value.nanos - 1) * count < elements
    {
      if elements == 0 && count == 0 then Some(TimeSpan.ZERO)
      else if count == 0 then None
      else Some(TimeSpan(CeilDiv(elements, count)))
    }

    /** `Frequency::ticker`: a ticker with this frequency starting at `start`. */
    method Ticker(start: TimeStamp) returns (t: FrequencyTicker)
      ensures fresh(t) && t.Valid()
      ensures t.freq == this && t.now == start && t.untilNext == cycle
    {
      t := new FrequencyTicker.New(this, start);
    }
  }

  lemma ReductionFacts(count: nat, cycle: nat, g: nat, x: nat, y: nat)
    requires g >= 1 && cycle >= 1 && count == x * g && cycle == y * g
    ensures x * cycle == count * y
    ensures 1 <= y <= cycle && x <= count
  {
    assert x * cycle == x * y * g;
    MulAtLeast(g, y);
    MulAtLeast(g, x);
  }

  /** Two frequencies built by `Frequency::new` are identical exactly when
      their arguments describe the same rational. */
  lemma NewCanonical(a: u64, b: NonZeroTimeSpan, c: u64, d: NonZeroTimeSpan)
    ensures Frequency.New(a, b) == Frequency.New(c, d) <==> a * d.nanos == c * b.nanos
  {
    var r1, r2 := Frequency.New(a, b), Frequency.New(c, d);
    if a * d.nanos == c * b.nanos {
      SameRationalCross(r1.count, r1.cycle, a, b.nanos, r2.count, r2.cycle, c, d.nanos);
      ReducedFractionUnique(r1.count, r1.cycle, r2.count, r2.cycle);
    }
    if r1 == r2 {
      SameReducedCross(r1.count, r1.cycle, a, b.nanos, c, d.nanos);
    }
  }

  /** `p/q == a/b`, `s/t == c/d`, `a/b == c/d` give `p/q == s/t`. */
  lemma SameRationalCross(p: nat, q: nat, a: nat, b: nat, s: nat, t: nat, c: nat, d: nat)
    requires b >= 1 && d >= 1
    requires p * b == a * q && s * d == c * t && a * d == c * b
    ensures p * t == s * q
  {
    var bd := b * d;
    calc {
      (p * t) * bd;
      { Swap(p, t, b, d); }
      (p * b) * (t * d);
      (a * q) * (t * d);
      { Swap(a, q, t, d); Swap(q, t, a, d); }
      (q * t) * (a * d);
      (q * t) * (c * b);
      { Swap(q, t, c, b); Swap(q, b, c, t); }
      (q * b) * (c * t);
      (q * b) * (s * d);
      { Swap(q, b, s, d); Swap(s, q, b, d); }
      (s * q) * bd;
    }
    MulAtLeast(b, d);
    assert (p * t) * bd == bd * (p * t) && (s * q) * bd == bd * (s * q);
    MulCancel(bd, p * t, s * q);
  }

  /** Regrouping a product of four factors. */
  lemma Swap(w: int, x: int, y: int, z: int)
    ensures (w * x) * (y * z) == (w * y) * (x * z)
  {
  }

  /** `p/q == a/b` and `p/q == c/d` give `a/b == c/d`. */
  lemma SameReducedCross(p: nat, q: nat, a: nat, b: nat, c: nat, d: nat)
    requires q >= 1
    requires p * b == a * q && p * d == c * q
    ensures a * d == c * b
  {
    calc {
      q * (a * d);
      (a * q) * d;
      (p * b) * d;
      (p * d) * b;
      (c * q) * b;
      q * (c * b);
    }
    MulCancel(q, a * d, c * b);
  }

  /** Ticks lie `u`, `u + c`, `u + 2c`, ... elements ahead. `TicksIn` is how
      many of them fall within the next `e` elements. */
  function TicksIn(u: nat, c: nat, e: nat): nat
    requires c > 0
  {
    if e < u then 0 else 1 + (e - u) / c
  }

  /** The distance, after `e` elements, to the first tick not yet reached. */
  function NextAfter(u: nat, c: nat, e: nat): nat
    requires c > 0
  {
    if e < u then u - e else c - (e - u) % c
  }

  /** `TicksIn` counts exactly the tick positions within `e`, and
      `NextAfter` is the distance from `e` to the first position past it. */
  lemma TicksInBounds(u: nat, c: nat, e: nat)
    requires c > 0 && u >= 1
    ensures TicksIn(u, c, e) == 0 <==> e < u
    ensures TicksIn(u, c, e) > 0 ==> u + (TicksIn(u, c, e) - 1) * c <= e
    ensures e < u + TicksIn(u, c, e) * c
    ensures NextAfter(u, c, e) == u + TicksIn(u, c, e) * c - e >= 1
  {
    if e >= u {
      var q, m := (e - u) / c, (e - u) % c;
      assert e - u == q * c + m;
      assert (1 + q) * c == q * c + c;
    }
  }

  /** The count of tick positions within `e` determines `TicksIn`. */
  lemma TicksInUnique(u: nat, c: nat, e: nat, k: nat)
    requires c > 0
    requires k == 0 ==> e < u
    requires k > 0 ==> u + (k - 1) * c <= e
    requires e < u + k * c
    ensures TicksIn(u, c, e) == k
  {
    if k > 0 {
      assert k * c == (k - 1) * c + c;
      DivModUnique(e - u, c, k - 1, e - u - (k - 1) * c);
    }
  }

  /** Ticking never drifts: ticking `e1` elements and then `e2` more gives
      the ticks and the remainder of ticking `e1 + e2` in one go. */
  lemma TicksCompose(u: nat, c: nat, e1: nat, e2: nat)
    requires c > 0 && u >= 1
    ensures NextAfter(u, c, e1) >= 1
    ensures TicksIn(u, c, e1) + TicksIn(NextAfter(u, c, e1), c, e2) == TicksIn(u, c, e1 + e2)
    ensures NextAfter(NextAfter(u, c, e1), c, e2) == NextAfter(u, c, e1 + e2)
  {
    TicksInBounds(u, c, e1);
    var k1 := TicksIn(u, c, e1);
    var u1 := NextAfter(u, c, e1);
    TicksInBounds(u1, c, e2);
    var k2 := TicksIn(u1, c, e2);
    ComposeCounts(u, c, e1, e2, k1, k2, u1);
    TicksInUnique(u, c, e1 + e2, k1 + k2);
    TicksInBounds(u, c, e1 + e2);
  }

  /** The arithmetic of `TicksCompose`: `k1` positions within `e1`, then
      `k2` positions of the shifted sequence within `e2`, are `k1 + k2`
      positions within `e1 + e2`, the next one as far away. */
  lemma ComposeCounts(u: nat, c: nat, e1: nat, e2: nat, k1: nat, k2: nat, u1: nat)
    requires c > 0 && u >= 1
    requires k1 == 0 <==> e1 < u
    requires k1 > 0 ==> u + (k1 - 1) * c <= e1
    requires e1 < u + k1 * c && u1 == u + k1 * c - e1
    requires k2 == 0 <==> e2 < u1
    requires k2 > 0 ==> u1 + (k2 - 1) * c <= e2
    requires e2 < u1 + k2 * c
    ensures k1 + k2 == 0 ==> e1 + e2 < u
    ensures k1 + k2 > 0 ==> u + (k1 + k2 - 1) * c <= e1 + e2
    ensures e1 + e2 < u + (k1 + k2) * c
    ensures u1 + k2 * c - e2 == u + (k1 + k2) * c - (e1 + e2)
  {
    assert (k1 + k2) * c == k1 * c + k2 * c;
    assert k2 > 0 ==> (k2 - 1) * c == k2 * c - c;
    assert k1 > 0 ==> (k1 - 1) * c == k1 * c - c;
    assert k1 + k2 > 0 ==> (k1 + k2 - 1) * c == (k1 + k2) * c - c;
  }

  /** A fraction already in lowest terms is kept as it is by `new`. */
  lemma NewReduced(count: u64, cycle: NonZeroTimeSpan)
    requires Gcd(count, cycle.nanos) == 1
    ensures Frequency.New(count, cycle) == Frequency(count, cycle.nanos)
  {
  }

  /** `next_tick` predicts `tick_count`: a step of `s` nanoseconds yields a
      tick exactly when it reaches the predicted nanosecond, and a step
      that yields none leaves the predicted stamp where it was. */
  lemma NextTickFires(u: nat, c: nat, n: nat, s: nat)
    requires c > 0 && n > 0 && u >= 1
    ensures TicksIn(u, c, s * n) > 0 <==> CeilDiv(u, n) <= s
    ensures TicksIn(u, c, s * n) == 0 ==> s + CeilDiv(NextAfter(u, c, s * n), n) == CeilDiv(u, n)
  {
    var t := CeilDiv(u, n);
    if s * n >= u && t > s {
      MulMono(s, t - 1, n);
    }
    if t <= s {
      MulMono(t, s, n);
    }
    if s * n < u {
      CeilDivShift(s, u - s * n, n);
    }
  }

  /** The instant of tick `k`, in whole nanoseconds after the start of a
      step: the first nanosecond boundary at or past its element position
      `u0 + k * c`. */
  function TickOffset(u0: nat, c: nat, count: nat, k: nat): nat
    requires count > 0
  {
    (u0 + k * c + count - 1) / count
  }

  /** The offset is the ceiling of the element position over `count`. */
  lemma TickOffsetIsCeil(u0: nat, c: nat, count: nat, k: nat)
    requires count > 0
    ensures TickOffset(u0, c, count, k) == CeilDiv(u0 + k * c, count)
  {
    var p := u0 + k * c;
    var q, m := p / count, p % count;
    if m == 0 {
      DivModUnique(p + count - 1, count, q, count - 1);
    } else {
      DivModUnique(p + count - 1, count, q + 1, m - 1);
    }
  }

  /** `TicksIn(u, c, e)` never exceeds `e` when `u >= 1`, so it fits the
      `u64` the source returns. */
  lemma TicksInAtMost(u: nat, c: nat, e: nat)
    requires c > 0 && u >= 1
    ensures TicksIn(u, c, e) <= e
  {
    if e >= u {
      var q := (e - u) / c;
      DivMulBound(e - u, c);
      MulAtLeast(c, q);
      assert c * q == q * c;
    }
  }

  /** `FrequencyTicker`: a frequency, the elements left until the next
      tick, and the stamp of the last advancement. */
  class FrequencyTicker {
    var freq: Frequency
    var untilNext: u64
    var now: TimeStamp

    /** A tick is always at least one element ahead. */
    ghost predicate Valid()
      reads this
    {
      untilNext >= 1
    }

    /** `FrequencyTicker::new`: `with_delay` with no delay, the first tick
        one period after `now`. */
    constructor New(freq: Frequency, now: TimeStamp)
      ensures Valid()
      ensures this.freq == freq && this.now == now && untilNext == freq.cycle
    {
      this.freq := freq;
      this.untilNext := freq.PeriodsElements(1 + 0);
      this.now := now;
    }

    /** `FrequencyTicker::with_delay`: the first tick `1 + periods` periods
        after `now`. */
    constructor WithDelay(freq: Frequency, periods: u64, now: TimeStamp)
      requires freq.cycle * (1 + periods) <= U64_MAX
      ensures Valid()
      ensures this.freq == freq && this.now == now && untilNext == freq.cycle * (1 + periods)
    {
      MulAtLeast(1 + periods, freq.cycle);
      this.freq := freq;
      this.untilNext := freq.PeriodsElements(1 + periods);
      this.now := now;
    }

    /** The stamp of the next tick: `now` plus the shortest span holding
        `until_next` elements; `None` when the frequency is zero. */
    function NextTick(): (r: Option<TimeStamp>)
      reads this
      requires Valid()
      requires freq.count > 0 ==> now.NanosSinceStart() + CeilDiv(untilNext, freq.count) <= MAX_ELAPSED
      ensures r.None? <==> freq.count == 0
      ensures r.Some? ==> r.value.NanosSinceStart() == now.NanosSinceStart() + CeilDiv(untilNext, freq.count)
    {
      match freq.SpanFittingElements(untilNext)
      case None => None
      case Some(span) =>
        CeilDivUnique(untilNext, freq.count, span.nanos);
        Some(now.AddOp(span))
    }

    /** `FrequencyTicker::ticks`: advances the ticker by `step` and returns
        the iterator over the ticks within it. */
    method Ticks(step: TimeSpan) returns (iter: TickerIter)
      requires Valid()
      requires step.nanos * freq.count <= U64_MAX
      requires now.NanosSinceStart() + step.nanos <= MAX_ELAPSED
      modifies this
      ensures Valid() && freq == old(freq)
      ensures untilNext == NextAfter(old(untilNext), freq.cycle, step.nanos * freq.count)
      ensures now == old(now).AddOp(step)
      ensures fresh(iter) && iter.Valid()
      ensures iter.freq == freq && iter.start == old(now) && iter.firstUntil == old(untilNext)
      ensures iter.stepNanos == step.nanos && iter.emitted == 0 && iter.accumulated == 0
      ensures iter.Remaining() == TicksIn(old(untilNext), freq.cycle, step.nanos * freq.count)
    {
      var span := freq.Elements(step);
      iter := new TickerIter(span, freq, untilNext, now, step.nanos);
      if span >= untilNext {
        untilNext := freq.UntilNext(span - untilNext);
      } else {
        untilNext := untilNext - span;
      }
      now := now.AddOp(step);
    }

    /** `FrequencyTicker::tick_count`: advances by `step` and returns how
        many ticks fell within it. */
    method TickCount(step: TimeSpan) returns (n: u64)
      requires Valid()
      requires step.nanos * freq.count <= U64_MAX
      requires now.NanosSinceStart() + step.nanos <= MAX_ELAPSED
      modifies this
      ensures Valid() && freq == old(freq)
      ensures untilNext == NextAfter(old(untilNext), freq.cycle, step.nanos * freq.count)
      ensures now == old(now).AddOp(step)
      ensures n == TicksIn(old(untilNext), freq.cycle, step.nanos * freq.count)
    {
      var iter := Ticks(step);
      n := iter.Ticks();
    }

    /** `FrequencyTicker::set_frequency`: with `clip_period` the elements
        until the next tick are cut to one new period; otherwise they are
        kept as they are. They were counted at the old frequency, and
        `NextTick` divides them by the new count, so the next tick moves
        whenever the count changes (`FreqScenarios.SetFrequencyMovesTick`). */
    method SetFrequency(f: Frequency, clipPeriod: bool)
      requires Valid()
      modifies this
      ensures Valid() && freq == f && now == old(now)
      ensures untilNext == if clipPeriod && old(untilNext) > f.cycle then f.cycle else old(untilNext)
    {
      freq := f;
      if clipPeriod {
        var period := f.PeriodElements();
        if untilNext > period {
          untilNext := period;
        }
      }
    }

    /** `set_frequency` as its documentation describes it: the elements
        until the next tick are first converted to the new frequency, so
        that without `clip_period` the next tick stays where it was. */
    method SetFrequencyKeepingTick(f: Frequency, clipPeriod: bool)
      requires Valid()
      requires RescaleFits(untilNext, freq, f)
      modifies this
      ensures Valid() && freq == f && now == old(now)
      ensures var u := Rescaled(old(untilNext), old(freq), f);
        untilNext == if clipPeriod && u > f.cycle then f.cycle else u
      ensures !clipPeriod && old(freq.count) > 0 && f.count > 0
          && now.NanosSinceStart() + CeilDiv(old(untilNext), old(freq.count)) <= MAX_ELAPSED
          ==> NextTick() == old(NextTick())
    {
      untilNext := Rescaled(untilNext, freq, f);
      freq := f;
      if clipPeriod {
        var period := f.PeriodElements();
        if untilNext > period {
          untilNext := period;
        }
      }
    }
  }

  /** The least element count at frequency `to` that still needs as many
      nanoseconds as `u` elements at frequency `from` fits in `u64`. */
  predicate RescaleFits(u: u64, from: Frequency, to: Frequency) {
    from.count > 0 && to.count > 0 ==> (CeilDiv(u, from.count) - 1) * to.count + 1 <= U64_MAX
  }

  /** `u` elements at frequency `from` converted to frequency `to`: the
      least count whose shortest span is the same; kept as is when either
      count is zero, since then there are no nanoseconds to keep. */
  function Rescaled(u: u64, from: Frequency, to: Frequency): (r: u64)
    requires u >= 1 && RescaleFits(u, from, to)
    ensures r >= 1
    ensures from.count > 0 && to.count > 0 ==> CeilDiv(r, to.count) == CeilDiv(u, from.count)
    ensures from.count > 0 && to.count > 0 ==> forall v: nat {:trigger CeilDiv(v, to.count)} ::
      CeilDiv(v, to.count) == CeilDiv(u, from.count) ==> r <= v
  {
    if from.count > 0 && to.count > 0 then
      var t := CeilDiv(u, from.count);
      RescaledFacts(t, to.count);
      (t - 1) * to.count + 1
    else
      u
  }

  /** `(t - 1) * c + 1` is the least count `v` with `CeilDiv(v, c) == t`. */
  lemma RescaledFacts(t: nat, c: nat)
    requires t >= 1 && c > 0
    ensures (t - 1) * c + 1 >= 1
    ensures CeilDiv((t - 1) * c + 1, c) == t
    ensures forall v: nat {:trigger CeilDiv(v, c)} :: CeilDiv(v, c) == t ==> (t - 1) * c + 1 <= v
  {
    MulMono(0, t - 1, c);
    CeilDivShift(t - 1, 1, c);
    forall v: nat | CeilDiv(v, c) == t
      ensures (t - 1) * c + 1 <= v
    {
    }
  }

  /** The bookkeeping of a ticker iterator, on plain numbers: ticks are at
      element positions `u0 + j * c` from the start of a step of `S`
      nanoseconds; `k` ticks are handed out, `acc` more sit on the current
      nanosecond `e`, the next one is `u` elements ahead and `span` elements
      of the step are left. */
  ghost predicate IterInv(u0: int, c: int, n: int, S: int, k: int, e: int, u: int, acc: int, span: int)
  {
    && u0 >= 1 && c >= 1 && n >= 0 && k >= 0 && acc >= 0 && u >= 1
    && 0 <= e <= S
    && span == (S - e) * n
    && u0 + (k + acc) * c == e * n + u
    && (acc > 0 ==> u <= c && k > 0 && u0 + k * c + n > e * n)
    && (k > 0 ==> n > 0 && e == TickOffset(u0, c, n, k - 1))
    && (k == 0 ==> e == 0)
  }

  /** Handing out an accumulated tick: it lands on the current nanosecond,
      as did the one before it. */
  lemma AccumulatedStep(u0: int, c: int, n: int, S: int, k: int, e: int, u: int, acc: int, span: int)
    requires IterInv(u0, c, n, S, k, e, u, acc, span) && acc > 0
    ensures n > 0 && k > 0 && TickOffset(u0, c, n, k) == e && TickOffset(u0, c, n, k - 1) == e
    ensures IterInv(u0, c, n, S, k + 1, e, u, acc - 1, span)
  {
    var p := u0 + k * c;
    assert p + acc * c == e * n + u;
    MulAtLeast(acc, c);
    assert (e - 1) * n == e * n - n;
    CeilDivUnique(p, n, e);
    TickOffsetIsCeil(u0, c, n, k);
    assert u0 + (k + 1) * c == p + c;
  }

  /** The crossing step of `next`: the shortest whole-nanosecond span `t`
      holding `u` elements fits in what is left of the step. */
  lemma CrossingBounds(u0: int, c: int, n: int, S: int, k: int, e: int, u: int, span: int, t: nat)
    requires IterInv(u0, c, n, S, k, e, u, 0, span) && span >= u
    requires t * n >= u && (t == 0 || (t - 1) * n < u)
    ensures n > 0 && 1 <= t <= S - e && u <= t * n <= span
  {
    if t > S - e {
      MulMono(S - e, t - 1, n);
    }
    MulMono(t, S - e, n);
  }

  /** Advancing by the crossing span `t`: `periods` more ticks land on the
      same nanosecond, the next one is `c - rem` elements ahead, one tick
      is handed out, and no tick is lost or invented. */
  lemma CrossingStep(u0: int, c: int, n: int, S: int, k: int, e: int, u: int, span: int,
                     t: nat, periods: nat, rem: nat, e2: int, u2: int, span2: int)
    requires IterInv(u0, c, n, S, k, e, u, 0, span) && span >= u
    requires t * n >= u && (t == 0 || (t - 1) * n < u)
    requires t * n - u == periods * c + rem && rem < c
    requires e2 == e + t && u2 == c - rem && span2 == span - t * n
    ensures n > 0 && 1 <= t <= S - e && u <= t * n <= span
    ensures TickOffset(u0, c, n, k) == e2
    ensures IterInv(u0, c, n, S, k + 1, e2, u2, periods, span2)
    ensures 1 + periods + TicksIn(u2, c, span2) == TicksIn(u, c, span)
  {
    CrossingBounds(u0, c, n, S, k, e, u, span, t);
    CrossingPositions(u0, c, n, k, e, u, t, periods, rem);
    CrossingSpan(S, e, n, t, span);
    CeilDivShift(e, u, n);
    CeilDivUnique(u, n, t);
    TickOffsetIsCeil(u0, c, n, k);
    CrossingTicks(u, c, t * n, span - t * n, periods, rem);
  }

  /** The tick-position equation and the same-nanosecond bound after a
      crossing step. */
  lemma CrossingPositions(u0: int, c: int, n: int, k: int, e: int, u: int, t: int, periods: int, rem: int)
    requires c > 0 && n > 0
    requires u0 + k * c == e * n + u
    requires (t - 1) * n < u
    requires t * n - u == periods * c + rem
    ensures u0 + (k + 1 + periods) * c == (e + t) * n + (c - rem)
    ensures u0 + (k + 1) * c + n > (e + t) * n
  {
    assert (k + 1 + periods) * c == k * c + c + periods * c;
    assert (e + t) * n == e * n + t * n;
    assert (k + 1) * c == k * c + c;
    assert (t - 1) * n == t * n - n;
  }

  /** The elements left after advancing `t` nanoseconds. */
  lemma CrossingSpan(S: int, e: int, n: int, t: int, span: int)
    requires span == (S - e) * n
    ensures span - t * n == (S - (e + t)) * n
  {
    assert (S - e) * n == (S - e - t) * n + t * n;
  }

  /** Splitting the elements left at the crossing point `a`: the ticks up
      to it are the crossing one and `periods` more. */
  lemma CrossingTicks(u: nat, c: nat, a: nat, b: nat, periods: nat, rem: nat)
    requires c > 0 && u >= 1 && a >= u
    requires a - u == periods * c + rem && rem < c
    ensures 1 + periods + TicksIn(c - rem, c, b) == TicksIn(u, c, a + b)
  {
    DivModUnique(a - u, c, periods, rem);
    TicksCompose(u, c, a, b);
  }

  /** `s` is tick `k` of a step that started at `start` with its first
      tick `u0` elements ahead: it is stamped with the tick's offset and
      its step is the span since the tick before it (since the start of
      the step for the first). */
  ghost predicate IsTick(s: ClockStep, start: TimeStamp, u0: nat, freq: Frequency, k: nat)
  {
    && freq.count > 0
    && s.now.NanosSinceStart() == start.NanosSinceStart() + TickOffset(u0, freq.cycle, freq.count, k)
    && s.step.nanos == TickOffset(u0, freq.cycle, freq.count, k)
                       - (if k == 0 then 0 else TickOffset(u0, freq.cycle, freq.count, k - 1))
  }

  /** `FrequencyTickerIter`: the ticks of one step, handed out one by one
      as `ClockStep`s at whole nanoseconds. Ticks that land on the same
      nanosecond are `accumulated` and handed out with a zero step. */
  class TickerIter {
    var span: u64
    var freq: Frequency
    var untilNext: u64
    var accumulated: u64
    var now: TimeStamp

    /** The stamp, the elements until the first tick and the length of the
        step the iterator was created for, and the ticks handed out so far. */
    ghost var start: TimeStamp
    ghost var firstUntil: nat
    ghost var stepNanos: nat
    ghost var emitted: nat

    /** Nanoseconds from the start of the step to `now`. */
    ghost function Elapsed(): int
      reads this
    {
      now.NanosSinceStart() - start.NanosSinceStart()
    }

    ghost predicate Valid()
      reads this
    {
      && start.NanosSinceStart() + stepNanos <= MAX_ELAPSED
      && IterInv(firstUntil, freq.cycle, freq.count, stepNanos, emitted, Elapsed(), untilNext, accumulated, span)
    }

    /** The ticks still to be handed out. */
    ghost function Remaining(): nat
      reads this
      requires Valid()
    {
      accumulated + TicksIn(untilNext, freq.cycle, span)
    }

    constructor (span: u64, freq: Frequency, untilNext: u64, now: TimeStamp, ghost stepNanos: nat)
      requires untilNext >= 1 && span == stepNanos * freq.count
      requires now.NanosSinceStart() + stepNanos <= MAX_ELAPSED
      ensures Valid()
      ensures this.freq == freq && start == now && firstUntil == untilNext
      ensures this.stepNanos == stepNanos && emitted == 0 && accumulated == 0
      ensures Remaining() == TicksIn(untilNext, freq.cycle, span)
    {
      this.span := span;
      this.freq := freq;
      this.untilNext := untilNext;
      this.accumulated := 0;
      this.now := now;
      this.start := now;
      this.firstUntil := untilNext;
      this.stepNanos := stepNanos;
      this.emitted := 0;
    }

    /** `FrequencyTickerIter::ticks`: the ticks within the elements still
        ahead; with the accumulated ones, all the iterator will yield. */
    function Ticks(): (r: u64)
      reads this
      requires Valid()
      ensures r + accumulated == Remaining()
    {
      TicksInAtMost(untilNext, freq.cycle, span);
      if span < untilNext then 0
      else 1 + freq.PeriodsInElements(span - untilNext).0
    }

    /** `Iterator::next`: the next tick, or `None` once all are handed out. */
    method Next() returns (r: Option<ClockStep>)
      requires Valid()
      modifies this
      ensures Valid()
      ensures freq == old(freq) && start == old(start)
      ensures firstUntil == old(firstUntil) && stepNanos == old(stepNanos)
      ensures r.None? <==> old(Remaining()) == 0
      ensures r.None? ==> emitted == old(emitted) && Remaining() == 0
      ensures r.Some? ==> emitted == old(emitted) + 1 && Remaining() == old(Remaining()) - 1
      ensures r.Some? ==> r.value.now == now && IsTick(r.value, start, firstUntil, freq, old(emitted))
    {
      if accumulated > 0 {
        AccumulatedStep(firstUntil, freq.cycle, freq.count, stepNanos, emitted, Elapsed(), untilNext, accumulated, span);
        accumulated := accumulated - 1;
        emitted := emitted + 1;
        return Some(ClockStep(now, TimeSpan.ZERO));
      }

      if span < untilNext {
        assert Remaining() == 0;
        return None;
      }

      ghost var e, u, k := Elapsed(), untilNext, emitted;

      var next := match freq.SpanFittingElements(untilNext)
        case Some(t) => t
        case None => TimeSpan.ZERO;
      CrossingBounds(firstUntil, freq.cycle, freq.count, stepNanos, k, e, u, span, next.nanos);
      var advance := freq.Elements(next);

      assert advance <= span;
      assert advance >= untilNext;

      var (periods, remaining) := freq.PeriodsInElements(advance - untilNext);
      var newUntil := freq.PeriodElements() - remaining;
      var newSpan := span - advance;
      ghost var e2 := e + next.nanos;
      CrossingStep(firstUntil, freq.cycle, freq.count, stepNanos, k, e, u, span,
                   next.nanos, periods, remaining, e2, newUntil, newSpan);
      accumulated := periods;
      untilNext := newUntil;
      span := newSpan;
      now := now.AddOp(next);
      emitted := emitted + 1;
      assert Elapsed() == e2;
      r := Some(ClockStep(now, next));
    }

    /** Drains the iterator, as `with_ticks` and the source's tests do, and
        returns the ticks it hands out. */
    method Collect() returns (steps: seq<ClockStep>)
      requires Valid()
      modifies this
      ensures Valid() && Remaining() == 0
      ensures freq == old(freq) && start == old(start) && firstUntil == old(firstUntil)
      ensures |steps| == old(Remaining())
      ensures forall i :: 0 <= i < |steps| ==> IsTick(steps[i], old(start), old(firstUntil), old(freq), old(emitted) + i)
    {
      steps := [];
      var r := Next();
      while r.Some?
        invariant Valid()
        invariant freq == old(freq) && start == old(start)
        invariant firstUntil == old(firstUntil) && stepNanos == old(stepNanos)
        invariant r.Some? ==> emitted == old(emitted) + |steps| + 1 && IsTick(r.value, old(start), old(firstUntil), old(freq), old(emitted) + |steps|)
        invariant r.Some? ==> |steps| + 1 + Remaining() == old(Remaining())
        invariant r.None? ==> |steps| == old(Remaining()) && Remaining() == 0
        invariant forall i :: 0 <= i < |steps| ==> IsTick(steps[i], old(start), old(firstUntil), old(freq), old(emitted) + i)
        decreases Remaining() + (if r.Some? then 1 else 0)
      {
        ghost var k := old(emitted) + |steps|;
        assert IsTick(r.value, old(start), old(firstUntil), old(freq), k);
        steps := steps + [r.value];
        assert forall i :: 0 <= i < |steps| ==> IsTick(steps[i], old(start), old(firstUntil), old(freq), old(emitted) + i);
        r := Next();
      }
    }
  }
}
