/** The scenarios of the tests in src/freq.rs, proved for every run: a
    ticker of 3 ticks per 10 ns stepped one nanosecond at a time, with and
    without a delay, its `next_tick` predictions, and 3 Hz over a second. */
module FreqScenarios {
  import opened Ints
  import opened Wrappers
  import opened DivMod
  import opened Euclid
  import opened Span
  import opened Stamp
  import opened Step
  import opened Freq

  /** Elements until the next tick before each one-nanosecond step of a
      `3 / 10ns` ticker, repeating every ten steps. */
  const PHASES: seq<nat> := [10, 7, 4, 1, 8, 5, 2, 9, 6, 3]

  /** Ticks yielded by each of those steps. */
  const PATTERN: seq<nat> := [0, 0, 0, 1, 0, 0, 1, 0, 0, 1]

  /** Nanoseconds from each phase to the predicted next tick. */
  const NEXT_IN: seq<nat> := [4, 3, 2, 1, 3, 2, 1, 3, 2, 1]

  /** A one-nanosecond step is 3 elements: from phase `j` it yields
      `PATTERN[j]` ticks and moves on to the next phase. */
  lemma PatternStep(j: nat)
    requires j < 10
    ensures TicksIn(PHASES[j], 10, 3) == PATTERN[j]
    ensures NextAfter(PHASES[j], 10, 3) == PHASES[(j + 1) % 10]
    ensures PATTERN[j] > 0 ==> CeilDiv(PHASES[j], 3) == 1
    ensures PATTERN[j] == 0 ==> 1 + CeilDiv(PHASES[(j + 1) % 10], 3) == CeilDiv(PHASES[j], 3)
    ensures CeilDiv(PHASES[j], 3) == NEXT_IN[j]
  {
    NextTickFires(PHASES[j], 10, 3, 1);
  }

  /** 3 / 10ns is in lowest terms. */
  lemma ThreePerTen()
    ensures Frequency.New(3, NonZeroTimeSpan(10)) == Frequency(3, 10)
  {
    assert Gcd(3, 10) == Gcd(10, 3) == Gcd(3, 1) == Gcd(1, 0) == 1;
    NewReduced(3, NonZeroTimeSpan(10));
  }

  /** 3 Hz is 3 periods per second, in lowest terms. */
  lemma ThreeHz()
    ensures Frequency.FromHz(3) == Frequency(3, 1_000_000_000)
  {
    assert Gcd(3, 1_000_000_000) == Gcd(1_000_000_000, 3) == Gcd(3, 1) == Gcd(1, 0) == 1;
    NewReduced(3, NonZeroTimeSpan.SECOND);
  }

  lemma ModTen(round: nat, j: nat)
    requires j < 10
    ensures (10 * round + j) % 10 == j
  {
    DivModUnique(10 * round + j, 10, round, j);
  }

  /** Appending the count of phase `j` keeps the counts following the pattern. */
  lemma AppendPattern(prev: seq<u64>, tick: u64, round: nat, j: nat)
    requires j < 10 && |prev| == 10 * round + j && tick == PATTERN[j]
    requires forall i :: 0 <= i < |prev| ==> prev[i] == PATTERN[i % 10]
    ensures forall i :: 0 <= i < |prev| + 1 ==> (prev + [tick])[i] == PATTERN[i % 10]
  {
    ModTen(round, j);
    assert forall i :: 0 <= i < |prev| ==> (prev + [tick])[i] == prev[i];
  }

  /** Ten one-nanosecond steps from phase 0 of `ticker`, appending each
      step's tick count to `counts`. */
  method TenSteps(ticker: FrequencyTicker, counts: seq<u64>, ghost round: nat) returns (counts': seq<u64>)
    requires ticker.Valid() && ticker.freq == Frequency(3, 10) && ticker.untilNext == PHASES[0]
    requires ticker.now.NanosSinceStart() + 10 <= MAX_ELAPSED
    requires |counts| == 10 * round
    requires forall i :: 0 <= i < |counts| ==> counts[i] == PATTERN[i % 10]
    modifies ticker
    ensures ticker.Valid() && ticker.freq == Frequency(3, 10) && ticker.untilNext == PHASES[0]
    ensures ticker.now.NanosSinceStart() == old(ticker.now.NanosSinceStart()) + 10
    ensures |counts'| == |counts| + 10
    ensures forall i :: 0 <= i < |counts'| ==> counts'[i] == PATTERN[i % 10]
  {
    counts' := counts;
    for j := 0 to 10
      invariant ticker.Valid() && ticker.freq == Frequency(3, 10) && ticker.untilNext == PHASES[j % 10]
      invariant ticker.now.NanosSinceStart() == old(ticker.now.NanosSinceStart()) + j
      invariant |counts'| == |counts| + j
      invariant forall i :: 0 <= i < |counts'| ==> counts'[i] == PATTERN[i % 10]
    {
      ModTen(0, j);
      var n := PatternedStep(ticker, j);
      AppendPattern(counts', n, round, j);
      counts' := counts' + [n];
    }
  }

  /** One one-nanosecond step from phase `j`. */
  method PatternedStep(ticker: FrequencyTicker, j: nat) returns (tick: u64)
    requires j < 10
    requires ticker.Valid() && ticker.freq == Frequency(3, 10) && ticker.untilNext == PHASES[j]
    requires ticker.now.NanosSinceStart() + 1 <= MAX_ELAPSED
    modifies ticker
    ensures ticker.Valid() && ticker.freq == Frequency(3, 10) && ticker.untilNext == PHASES[(j + 1) % 10]
    ensures ticker.now.NanosSinceStart() == old(ticker.now.NanosSinceStart()) + 1
    ensures tick == PATTERN[j]
  {
    PatternStep(j);
    tick := ticker.TickCount(TimeSpan.NANOSECOND);
  }

  /** `test_freq_ticker`: ten nanoseconds yield 3 ticks, then every ten
      one-nanosecond steps yield `PATTERN`. */
  method TestFreqTicker() returns (first: u64, counts: seq<u64>)
    ensures first == 3
    ensures |counts| == 100
    ensures forall i :: 0 <= i < |counts| ==> counts[i] == PATTERN[i % 10]
  {
    ThreePerTen();
    var ticker := Frequency.New(3, NonZeroTimeSpan(10)).Ticker(TimeStamp.Start());
    first := ticker.TickCount(TimeSpan.NANOSECOND.MulOp(10));
    counts := [];
    for round := 0 to 10
      invariant ticker.Valid() && ticker.freq == Frequency(3, 10) && ticker.untilNext == PHASES[0]
      invariant ticker.now.NanosSinceStart() == 10 + 10 * round
      invariant |counts| == 10 * round
      invariant forall i :: 0 <= i < |counts| ==> counts[i] == PATTERN[i % 10]
    {
      counts := TenSteps(ticker, counts, round);
    }
  }

  /** `test_freq_ticker_delay`: with a delay of 12 periods the first tick
      is 130 elements ahead, so 40 ns yield none, and the pattern follows. */
  method TestFreqTickerDelay() returns (first: u64, counts: seq<u64>)
    ensures first == 0
    ensures |counts| == 100
    ensures forall i :: 0 <= i < |counts| ==> counts[i] == PATTERN[i % 10]
  {
    ThreePerTen();
    var ticker := new FrequencyTicker.WithDelay(Frequency.New(3, NonZeroTimeSpan(10)), 12, TimeStamp.Start());
    first := ticker.TickCount(TimeSpan.NANOSECOND.MulOp(40));
    counts := [];
    for round := 0 to 10
      invariant ticker.Valid() && ticker.freq == Frequency(3, 10) && ticker.untilNext == PHASES[0]
      invariant ticker.now.NanosSinceStart() == 40 + 10 * round
      invariant |counts| == 10 * round
      invariant forall i :: 0 <= i < |counts| ==> counts[i] == PATTERN[i % 10]
    {
      counts := TenSteps(ticker, counts, round);
    }
  }

  /** `test_freq_ticker_next_tick`: after each one-nanosecond step, a step
      that ticked has reached the predicted stamp and one that did not
      leaves the prediction unchanged. */
  method TestFreqTickerNextTick() returns (counts: seq<u64>)
    ensures |counts| == 1000
    ensures forall i :: 0 <= i < |counts| ==> counts[i] == PATTERN[i % 10]
  {
    ThreePerTen();
    var ticker := Frequency.New(3, NonZeroTimeSpan(10)).Ticker(TimeStamp.Start());
    var nextTick := ticker.NextTick().value;
    counts := [];
    for round := 0 to 100
      invariant ticker.Valid() && ticker.freq == Frequency(3, 10) && ticker.untilNext == PHASES[0]
      invariant ticker.now.NanosSinceStart() == 10 * round
      invariant nextTick.NanosSinceStart() == ticker.now.NanosSinceStart() + NEXT_IN[0]
      invariant |counts| == 10 * round
      invariant forall i :: 0 <= i < |counts| ==> counts[i] == PATTERN[i % 10]
    {
      counts, nextTick := TenPredictedSteps(ticker, counts, nextTick, round);
    }
  }

  /** Ten one-nanosecond steps of `test_freq_ticker_next_tick`, checking
      each step against the prediction `nextTick` as the source does. */
  method TenPredictedSteps(ticker: FrequencyTicker, counts: seq<u64>, nextTick: TimeStamp, ghost round: nat)
      returns (counts': seq<u64>, nextTick': TimeStamp)
    requires ticker.Valid() && ticker.freq == Frequency(3, 10) && ticker.untilNext == PHASES[0]
    requires ticker.now.NanosSinceStart() + 20 <= MAX_ELAPSED
    requires nextTick.NanosSinceStart() == ticker.now.NanosSinceStart() + NEXT_IN[0]
    requires |counts| == 10 * round
    requires forall i :: 0 <= i < |counts| ==> counts[i] == PATTERN[i % 10]
    modifies ticker
    ensures ticker.Valid() && ticker.freq == Frequency(3, 10) && ticker.untilNext == PHASES[0]
    ensures ticker.now.NanosSinceStart() == old(ticker.now.NanosSinceStart()) + 10
    ensures nextTick'.NanosSinceStart() == ticker.now.NanosSinceStart() + NEXT_IN[0]
    ensures |counts'| == |counts| + 10
    ensures forall i :: 0 <= i < |counts'| ==> counts'[i] == PATTERN[i % 10]
  {
    counts', nextTick' := counts, nextTick;
    for j := 0 to 10
      invariant ticker.Valid() && ticker.freq == Frequency(3, 10) && ticker.untilNext == PHASES[j % 10]
      invariant ticker.now.NanosSinceStart() == old(ticker.now.NanosSinceStart()) + j
      invariant nextTick'.NanosSinceStart() == ticker.now.NanosSinceStart() + NEXT_IN[j % 10]
      invariant |counts'| == |counts| + j
      invariant forall i :: 0 <= i < |counts'| ==> counts'[i] == PATTERN[i % 10]
    {
      ModTen(0, j);
      var tick;
      tick, nextTick' := PredictedStep(ticker, j, nextTick');
      AppendPattern(counts', tick, round, j);
      counts' := counts' + [tick];
    }
  }

  /** One one-nanosecond step from phase `j`: a step that ticks lands on
      the predicted stamp, and the next prediction is taken; one that does
      not leaves the prediction as it was. */
  method PredictedStep(ticker: FrequencyTicker, j: nat, nextTick: TimeStamp) returns (tick: u64, nextTick': TimeStamp)
    requires j < 10
    requires ticker.Valid() && ticker.freq == Frequency(3, 10) && ticker.untilNext == PHASES[j]
    requires ticker.now.NanosSinceStart() + 11 <= MAX_ELAPSED
    requires nextTick.NanosSinceStart() == ticker.now.NanosSinceStart() + NEXT_IN[j]
    modifies ticker
    ensures ticker.Valid() && ticker.freq == Frequency(3, 10) && ticker.untilNext == PHASES[(j + 1) % 10]
    ensures ticker.now.NanosSinceStart() == old(ticker.now.NanosSinceStart()) + 1
    ensures nextTick'.NanosSinceStart() == ticker.now.NanosSinceStart() + NEXT_IN[(j + 1) % 10]
    ensures tick == PATTERN[j]
  {
    PatternStep(j);
    tick := ticker.TickCount(TimeSpan.NANOSECOND);
    if tick > 0 {
      assert nextTick == ticker.now;
      nextTick' := ticker.NextTick().value;
    } else {
      assert nextTick == ticker.NextTick().value;
      nextTick' := nextTick;
    }
  }

  /** The ticks `test_hz` expects. */
  const HZ_TICKS: seq<ClockStep> := [
    ClockStep(TimeStamp.Start().AddOp(TimeSpan(333_333_334)), TimeSpan(333_333_334)),
    ClockStep(TimeStamp.Start().AddOp(TimeSpan(666_666_667)), TimeSpan(333_333_333)),
    ClockStep(TimeStamp.Start().AddOp(TimeSpan(1_000_000_000)), TimeSpan(333_333_333))]

  /** `test_hz`: 3 Hz over one second yields three ticks, at the first
      whole nanoseconds past each third of the second. */
  method TestHz() returns (ticks: seq<ClockStep>)
    ensures ticks == HZ_TICKS
  {
    ThreeHz();
    var freq := Frequency.FromHz(3).Ticker(TimeStamp.Start());
    var iter := freq.Ticks(TimeSpan.SECOND);
    ticks := iter.Collect();
    assert |ticks| == 3;
    HzTick0(ticks[0]);
    HzTick1(ticks[1]);
    HzTick2(ticks[2]);
  }

  /** The step stamped `at` nanoseconds after `start` and spanning `gap`. */
  lemma StepIs(s: ClockStep, start: TimeStamp, at: nat, gap: nat)
    requires s.now.NanosSinceStart() == start.NanosSinceStart() + at && s.step.nanos == gap
    ensures s == ClockStep(start.AddOp(TimeSpan(at)), TimeSpan(gap))
  {
    assert s.now.nanos == start.AddOp(TimeSpan(at)).nanos;
  }

  /** The first tick of 3 Hz over a second. */
  lemma HzTick0(s: ClockStep)
    requires IsTick(s, TimeStamp.Start(), 1_000_000_000, Frequency(3, 1_000_000_000), 0)
    ensures s == HZ_TICKS[0]
  {
    DivModUnique(1_000_000_002, 3, 333_333_334, 0);
    assert TickOffset(1_000_000_000, 1_000_000_000, 3, 0) == 333_333_334;
    StepIs(s, TimeStamp.Start(), 333_333_334, 333_333_334);
  }

  /** The second tick of 3 Hz over a second. */
  lemma HzTick1(s: ClockStep)
    requires IsTick(s, TimeStamp.Start(), 1_000_000_000, Frequency(3, 1_000_000_000), 1)
    ensures s == HZ_TICKS[1]
  {
    DivModUnique(2_000_000_002, 3, 666_666_667, 1);
    DivModUnique(1_000_000_002, 3, 333_333_334, 0);
    assert TickOffset(1_000_000_000, 1_000_000_000, 3, 1) == 666_666_667;
    assert TickOffset(1_000_000_000, 1_000_000_000, 3, 0) == 333_333_334;
    StepIs(s, TimeStamp.Start(), 666_666_667, 333_333_333);
  }

  /** The third tick of 3 Hz over a second. */
  lemma HzTick2(s: ClockStep)
    requires IsTick(s, TimeStamp.Start(), 1_000_000_000, Frequency(3, 1_000_000_000), 2)
    ensures s == HZ_TICKS[2]
  {
    DivModUnique(3_000_000_002, 3, 1_000_000_000, 2);
    DivModUnique(2_000_000_002, 3, 666_666_667, 1);
    assert TickOffset(1_000_000_000, 1_000_000_000, 3, 2) == 1_000_000_000;
    assert TickOffset(1_000_000_000, 1_000_000_000, 3, 1) == 666_666_667;
    StepIs(s, TimeStamp.Start(), 1_000_000_000, 333_333_333);
  }

  /** `set_frequency(.., false)` as written, from 3 / 10ns to 1 / 10ns: the
      next tick is 4 ns after the start before and 10 ns after it, because
      the 10 elements kept now take one nanosecond each. */
  method SetFrequencyMovesTick() returns (before: Option<TimeStamp>, after: Option<TimeStamp>)
    ensures before == Some(TimeStamp(5)) && after == Some(TimeStamp(11))
  {
    var ticker := new FrequencyTicker.New(Frequency(3, 10), TimeStamp.Start());
    before := ticker.NextTick();
    ticker.SetFrequency(Frequency(1, 10), false);
    after := ticker.NextTick();
  }

  /** The same change with the elements converted to the new frequency
      keeps the next tick 4 ns after the start. */
  method SetFrequencyKeepsTick() returns (before: Option<TimeStamp>, after: Option<TimeStamp>)
    ensures before == Some(TimeStamp(5)) && after == before
  {
    var ticker := new FrequencyTicker.New(Frequency(3, 10), TimeStamp.Start());
    before := ticker.NextTick();
    ticker.SetFrequencyKeepingTick(Frequency(1, 10), false);
    after := ticker.NextTick();
  }
}
