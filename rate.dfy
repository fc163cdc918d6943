/** The rate-controlled clock of src/rate.rs. Real nanoseconds are
    multiplied by `nom` and the clock advances one nanosecond for every
    `denom` of these units; `untilNext` counts the units left until the
    clock's next nanosecond. */
module Rate {
  import opened Ints
  import opened DivMod
  import opened Euclid
  import opened Span
  import opened Stamp
  import opened Step
  import opened Freq

  /** Clock nanoseconds of a step of `e` units as `step` computes them:
      none while the next nanosecond is not reached, otherwise the whole
      `denom`s past it, leaving out the nanosecond just reached. */
  function StepNanosAsWritten(u: nat, d: nat, e: nat): nat
    requires d > 0
  {
    if u > e then 0 else (e - u) / d
  }

  /** The units until the next clock nanosecond as `step` tracks them; a
      fresh or reset clock holds zero, meaning a whole `denom` is left. */
  function Pending(u: nat, d: nat): nat
    requires d > 0
  {
    if u == 0 then d else u
  }

  /** Clock nanoseconds of a step of `e` units, counting the nanosecond
      reached as well. */
  function StepNanos(u: nat, d: nat, e: nat): nat
    requires d > 0
  {
    TicksIn(Pending(u, d), d, e)
  }

  /** Units left until the clock's next nanosecond after a step of `e`
      units; `step` computes the same on both of its branches. */
  function StepNext(u: nat, d: nat, e: nat): nat
    requires d > 0
  {
    NextAfter(Pending(u, d), d, e)
  }

  /** The as-written step and the corrected one move `untilNext` alike; on
      a fresh clock they also advance alike, and after that the as-written
      step loses one nanosecond on every step that reaches one. */
  lemma StepAsWrittenAgainstCorrected(u: nat, d: nat, e: nat)
    requires d > 0
    ensures u > 0 ==> StepNext(u, d, e) == NextAfter(u, d, e)
    ensures u == 0 ==> StepNanosAsWritten(u, d, e) == StepNanos(u, d, e) == e / d
    ensures u == 0 ==> StepNext(u, d, e) == d - e % d
    ensures u > 0 && e >= u ==> StepNanosAsWritten(u, d, e) + 1 == StepNanos(u, d, e)
    ensures u > 0 && e < u ==> StepNanosAsWritten(u, d, e) == StepNanos(u, d, e) == 0
  {
    if u == 0 {
      var q, m := e / d, e % d;
      if e >= d {
        assert e - d == (q - 1) * d + m;
        DivModUnique(e - d, d, q - 1, m);
      } else {
        DivModUnique(e, d, 0, e);
      }
    }
  }

  /** No drift: at a constant rate, two steps advance the clock as much as
      one step of their total, and leave the same units pending. */
  lemma StepNoDrift(u: nat, d: nat, a: nat, b: nat)
    requires d > 0
    ensures StepNext(u, d, a) >= 1
    ensures StepNanos(u, d, a) + StepNanos(StepNext(u, d, a), d, b) == StepNanos(u, d, a + b)
    ensures StepNext(StepNext(u, d, a), d, b) == StepNext(u, d, a + b)
  {
    TicksCompose(Pending(u, d), d, a, b);
  }

  /** From a fresh clock the clock shows exactly the whole `denom`s in all
      the units so far. */
  lemma FreshClockExact(d: nat, e: nat)
    requires d > 0
    ensures StepNanos(0, d, e) == e / d
  {
    StepAsWrittenAgainstCorrected(0, d, e);
  }

  /** At rate 1/1 two steps of 10 ns advance the clock by 10 and then only
      9 nanoseconds as written; the corrected step gives 10 both times. */
  lemma UnitRateLosesNanosecond()
    ensures StepNanosAsWritten(0, 1, 10) == 10 && NextAfter(0, 1, 10) == 1
    ensures StepNanosAsWritten(1, 1, 10) == 9
    ensures StepNanos(0, 1, 10) == 10 && StepNext(0, 1, 10) == 1
    ensures StepNanos(1, 1, 10) == 10
  {
  }

  /** A paused clock does not advance, whatever is pending. */
  lemma PausedStandsStill(u: nat, d: nat, nanos: nat)
    requires d > 0
    ensures StepNanosAsWritten(u, d, nanos * 0) == 0 && StepNanos(u, d, nanos * 0) == 0
    ensures u > 0 ==> StepNext(u, d, nanos * 0) == u
  {
  }

  /** The frequency `ticker` builds, as long as its products fit in `u64`. */
  ghost predicate TickerFits(nom: u64, denom: NonZeroU64, freq: Frequency)
  {
    var g1, g2 := Gcd(nom, freq.cycle), Gcd(freq.count, denom);
    && g1 >= 1 && g2 >= 1
    && (nom / g1) * (freq.count / g2) <= U64_MAX
    && (denom / g2) * (freq.cycle / g1) <= U64_MAX
  }

  /** `freq` scaled by the rate `nom / denom`, with the common factors of
      `nom` and the period and of the count and `denom` cancelled first:
      the same rational `count * nom / (cycle * denom)`, and in lowest
      terms when both `freq` and the rate are. */
  function TickerFrequency(nom: u64, denom: NonZeroU64, freq: Frequency): (r: Frequency)
    requires TickerFits(nom, denom, freq)
    ensures r.count * (freq.cycle * denom) == (freq.count * nom) * r.cycle
    ensures Gcd(freq.count, freq.cycle) == 1 && Gcd(nom, denom) == 1 ==> Gcd(r.count, r.cycle) == 1
  {
    var g1, g2 := Gcd(nom, freq.cycle), Gcd(freq.count, denom);
    GcdQuotients(nom, freq.cycle);
    GcdQuotients(freq.count, denom);
    DivMod.DivAtMost(nom, g1);
    DivMod.DivAtMost(freq.cycle, g1);
    DivMod.DivAtMost(freq.count, g2);
    DivMod.DivAtMost(denom, g2);
    var a, p, b, c := nom / g1, freq.cycle / g1, freq.count / g2, denom / g2;
    ScaledRational(a, b, c, p, g1, g2);
    ScaledReduced(nom, denom, freq.count, freq.cycle, a, b, c, p, g1, g2);
    ProductSigns(a, b, c, p, g1, g2, freq.cycle, denom);
    Frequency(a * b, c * p)
  }

  /** The reduced count is a natural number and the reduced period positive. */
  lemma ProductSigns(a: nat, b: nat, c: nat, p: nat, g1: nat, g2: nat, cycle: nat, denom: nat)
    requires cycle == p * g1 && denom == c * g2 && cycle >= 1 && denom >= 1
    ensures a * b >= 0 && c * p >= 1
  {
    assert p >= 1 && c >= 1;
    MulMono(1, c, p);
  }

  /** Cancelling common factors keeps the product rational. */
  lemma ScaledRational(a: nat, b: nat, c: nat, p: nat, g1: nat, g2: nat)
    ensures (a * b) * ((p * g1) * (c * g2)) == ((b * g2) * (a * g1)) * (c * p)
  {
    assert (a * b) * ((p * g1) * (c * g2)) == (a * b) * (c * p) * (g1 * g2);
    assert ((b * g2) * (a * g1)) * (c * p) == (a * b) * (c * p) * (g1 * g2);
  }

  /** `x` divides `x * g`. */
  lemma QuotientDivides(x: nat, g: nat)
    ensures Divides(x, x * g)
  {
    DividesMultiple(x, g);
    assert g * x == x * g;
  }

  /** A divisor of one of two coprime numbers is coprime to a divisor of
      the other. */
  lemma DivisorsCoprime(x: nat, y: nat, dx: nat, dy: nat)
    requires y > 0 && Gcd(x, y) == 1 && Divides(dx, x) && Divides(dy, y)
    ensures Gcd(dx, dy) == 1
  {
    if x == 0 {
      GcdZero(0, y);
      DivisorAtMost(dy, 1);
      assert Gcd(dx, 1) == Gcd(1, 0) == 1;
    } else {
      DivisorCoprime(x, dx, y);
      GcdCommutes(dx, y);
      DivisorCoprime(y, dy, dx);
      GcdCommutes(dy, dx);
    }
  }

  /** The scaled frequency of two reduced fractions is reduced. */
  lemma ScaledReduced(nom: nat, denom: nat, count: nat, cycle: nat,
                      a: nat, b: nat, c: nat, p: nat, g1: nat, g2: nat)
    requires denom > 0 && cycle > 0
    requires nom == a * g1 && cycle == p * g1 && count == b * g2 && denom == c * g2
    requires Gcd(a, p) == 1 && Gcd(b, c) == 1
    ensures Gcd(count, cycle) == 1 && Gcd(nom, denom) == 1 ==> Gcd(a * b, c * p) == 1
  {
    if Gcd(count, cycle) != 1 || Gcd(nom, denom) != 1 {
      return;
    }
    QuotientDivides(a, g1);
    QuotientDivides(p, g1);
    QuotientDivides(b, g2);
    QuotientDivides(c, g2);
    DivisorsCoprime(nom, denom, a, c);
    DivisorsCoprime(count, cycle, b, p);
    CoprimeFactors(a, b, c, p);
  }

  /** Pairwise coprime factors give coprime products. */
  lemma CoprimeFactors(a: nat, b: nat, c: nat, p: nat)
    requires Gcd(a, p) == 1 && Gcd(b, c) == 1 && Gcd(a, c) == 1 && Gcd(b, p) == 1
    ensures Gcd(a * b, c * p) == 1
  {
    CoprimeProduct(a, c, p);
    GcdCommutes(b, c);
    CoprimeProduct(b, c, p);
    GcdCommutes(a, c * p);
    GcdCommutes(b, c * p);
    CoprimeProduct(c * p, a, b);
    GcdCommutes(c * p, a * b);
  }

  /** `ClockRate`: the stamp of the last step, the rate `nom / denom`, and
      the units until the clock's next nanosecond. */
  class ClockRate {
    var now: TimeStamp
    var nom: u64
    var denom: NonZeroU64
    var untilNext: u64

    /** `ClockRate::new`: at the start, at rate 1/1, nothing pending. */
    constructor New()
      ensures now == TimeStamp.Start() && nom == 1 && denom == 1 && untilNext == 0
    {
      now := TimeStamp.Start();
      nom := 1;
      denom := 1;
      untilNext := 0;
    }

    /** `reset`: back to the start, keeping the rate. */
    method Reset()
      modifies this
      ensures now == TimeStamp.Start() && untilNext == 0
      ensures nom == old(nom) && denom == old(denom)
    {
      now := TimeStamp.Start();
      untilNext := 0;
    }

    /** `set_now`: moves the clock to `t`, nothing else changes. */
    method SetNow(t: TimeStamp)
      modifies this
      ensures now == t
      ensures nom == old(nom) && denom == old(denom) && untilNext == old(untilNext)
    {
      now := t;
    }

    /** `set_rate_ratio`: the rate becomes `n / d`, nothing else changes. */
    method SetRateRatio(n: u64, d: NonZeroU64)
      modifies this
      ensures nom == n && denom == d
      ensures now == old(now) && untilNext == old(untilNext)
    {
      nom := n;
      denom := d;
    }

    /** `rate_ratio`: the rate as set, with a non-zero denominator. */
    method RateRatio() returns (n: u64, d: NonZeroU64)
      ensures n == nom && d == denom && d >= 1
    {
      n, d := nom, denom;
    }

    /** `pause`: the rate becomes zero; the denominator and the pending
        units are kept, so resuming with `set_rate_ratio` continues. */
    method Pause()
      modifies this
      ensures nom == 0 && denom == old(denom)
      ensures now == old(now) && untilNext == old(untilNext)
    {
      nom := 0;
    }

    /** `step` as written. The product `nanos * nom` and the stamp
        addition panic on overflow in the source. */
    method StepAsWritten(span: TimeSpan) returns (r: ClockStep)
      requires span.nanos * nom <= U64_MAX
      requires now.NanosSinceStart() + StepNanosAsWritten(untilNext, denom, span.nanos * nom) <= MAX_ELAPSED
      modifies this
      ensures nom == old(nom) && denom == old(denom)
      ensures r.step.nanos == StepNanosAsWritten(old(untilNext), denom, span.nanos * nom)
      ensures r.now == now && now.NanosSinceStart() == old(now.NanosSinceStart()) + r.step.nanos
      ensures untilNext == NextAfter(old(untilNext), denom, span.nanos * nom)
    {
      var nanos := span.nanos;
      MulMono(0, nanos, nom);
      var nomNanos := nanos * nom;

      if untilNext > nomNanos {
        untilNext := untilNext - nomNanos;
        return ClockStep(now, TimeSpan.ZERO);
      }

      var clockNanos := (nomNanos - untilNext) / denom;
      var nomNanosLeft := (nomNanos - untilNext) % denom;
      untilNext := denom - nomNanosLeft;

      var clockSpan := TimeSpan(clockNanos);
      now := now.AddOp(clockSpan);
      r := ClockStep(now, clockSpan);
    }

    /** `step` with the nanosecond reached counted: the clock advances by
        the nanoseconds the step's units reach, so that steps add up (see
        `StepNoDrift`). */
    method Step(span: TimeSpan) returns (r: ClockStep)
      requires span.nanos * nom <= U64_MAX
      requires now.NanosSinceStart() + StepNanos(untilNext, denom, span.nanos * nom) <= MAX_ELAPSED
      modifies this
      ensures nom == old(nom) && denom == old(denom)
      ensures r.step.nanos == StepNanos(old(untilNext), denom, span.nanos * nom)
      ensures r.now == now && now.NanosSinceStart() == old(now.NanosSinceStart()) + r.step.nanos
      ensures untilNext == StepNext(old(untilNext), denom, span.nanos * nom)
    {
      var nanos := span.nanos;
      MulMono(0, nanos, nom);
      var nomNanos := nanos * nom;
      var pending := if untilNext == 0 then denom else untilNext;

      if pending > nomNanos {
        untilNext := pending - nomNanos;
        return ClockStep(now, TimeSpan.ZERO);
      }

      TicksInAtMost(pending, denom, nomNanos);
      var clockNanos := 1 + (nomNanos - pending) / denom;
      var nomNanosLeft := (nomNanos - pending) % denom;
      untilNext := denom - nomNanosLeft;

      var clockSpan := TimeSpan(clockNanos);
      now := now.AddOp(clockSpan);
      r := ClockStep(now, clockSpan);
    }

    /** `ticker`: a frequency ticker starting now, whose frequency is
        `freq` as seen on this clock at its current rate. */
    method Ticker(freq: Frequency) returns (t: FrequencyTicker)
      requires TickerFits(nom, denom, freq)
      ensures fresh(t) && t.Valid()
      ensures t.freq == TickerFrequency(nom, denom, freq)
      ensures t.now == now && t.untilNext == t.freq.cycle
    {
      var gcd1 := ComputeGcd(nom, freq.cycle);
      var n := nom / gcd1;
      var period := freq.cycle / gcd1;

      var gcd2 := ComputeGcd(freq.count, denom);
      var count := freq.count / gcd2;
      var d := denom / gcd2;

      ghost var r := TickerFrequency(nom, denom, freq);
      GcdQuotients(nom, freq.cycle);
      GcdQuotients(freq.count, denom);
      t := new FrequencyTicker.New(Frequency(n * count, d * period), now);
    }
  }
}
