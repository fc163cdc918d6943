# gametime: time spans, time stamps, frequencies and rate-controlled clocks

A Dafny model of the core of the Rust crate `gametime`.

- **`TimeSpan` and `NonZeroTimeSpan`** (src/span.rs) are unsigned 64-bit counts of nanoseconds. The model covers:
  - their unit constants;
  - unit conversions;
  - checked arithmetic and the operators that `expect` it;
  - the short text form written by `TimeSpan::fmt`;
  - the parser `FromStr for TimeSpan`.
- **`TimeStamp`** (src/stamp.rs) stores elapsed nanoseconds plus one. It is never zero and at most `i64::MAX`.
- **`Frequency`** (src/freq.rs) is a rational number of periods per cycle of nanoseconds, kept in lowest terms by Euclid's `gcd` (src/lib.rs).
  - A `FrequencyTicker` turns steps of time into ticks at that frequency.
  - A `FrequencyTickerIter` hands out the ticks of one step as `ClockStep`s, each with a stamp and the span since the previous one.
- **`ClockRate`** (src/rate.rs) is a clock that runs `nom / denom` times as fast as the spans it is stepped by.

All integers are mathematical integers. The Rust widths are the subset types `u64` and `NonZeroU64` (`ints.dfy`).

- **Operations that panic:**
  - A Rust operation that panics on overflow (`expect`, `unwrap`) requires, in the model, that the overflow does not happen.
  - Inside `from_str`, a panic is instead a result of its own, `ParseResult.Panics`: there the source does not rule it out for any input.
  - Products the source computes without a check, in release builds, are required to fit.
- **Kinds of member:**
  - Pure code (`stamp.rs`; span arithmetic, digits and parsing) is modelled as datatypes and functions.
  - `FrequencyTicker`, `FrequencyTickerIter` and `ClockRate` update their fields in place. Each is a `class`, and its methods state the whole new state.
  - `gcd` is a `while` loop, `ComputeGcd`, proved equal to Euclid's recursion `Gcd`.
  - `TimeSpan::fmt` is the method `SpanFmt.Fmt`. It cuts a local copy of the span down with `%`, as the code does, and is proved equal to the function `SpanFormat.Format` that the read-back lemmas reason about.
- **The separator iterator of `from_str`.** `match_indices` is consumed one `next()` at a time by nested `match`es. It is modelled as the sequence `SpanParse.Seps` of every separator, which `LayoutOf` inspects from its head.

Main results:

- A frequency built by `Frequency::new` is in lowest terms and equals the requested fraction. Two of them are equal exactly when the requested fractions are (`Freq.NewCanonical`).
- A ticker never drifts: stepping `a` and then `b` elements yields the same ticks and the same next tick as one step of `a + b` (`Freq.TicksCompose`).
  - `FrequencyTickerIter::next` hands out exactly `TicksIn` ticks, each at the nanosecond `TickOffset` of its element position.
  - `ticks()` counts them before any is handed out.
  - The scenarios of the test module in src/freq.rs hold for every run (`FreqScenarios`).
- The corrected `ClockRate` step never drifts (`Rate.StepNoDrift`). The step as written loses a nanosecond each time it crosses a nanosecond boundary with time pending (see Findings).
- Reading back the text of any span: `from_str(fmt(span))` is the span cut to the precision the text shows, exactly for the `Readable` spans. Every other text is refused, at a unit letter that follows a fraction or at the `n` of `ns` (`SpanReadback.FormatParse`, `SpanReadback.ReadBack`). A reading that adds those two forms and changes nothing else reads back the text of every span (`SpanUnitFractions.FormatParseUnits`, see Findings).
- Stamps: `add_span` and `sub_span` are inverse to each other and to `elapsed_since`. The stamp order is the order of elapsed time.

## Model

| member | source | states |
|---|---|---|
| Euclid.ComputeGcd | src/lib.rs:167-174 | the loop returns Euclid's gcd of its inputs, a common divisor of both, positive when `b` is |
| Euclid.GcdDividesBoth | src/lib.rs:167-174 | the gcd divides both arguments |
| Euclid.CommonDivisorDividesGcd | src/lib.rs:167-174 | every common divisor divides the gcd, so it is the greatest |
| Euclid.GcdZero | src/lib.rs:167-174 | gcd with zero is the other argument (the loop's exit and `gcd(0, b)`) |
| Euclid.GcdPositive | src/lib.rs:167-174 | the gcd is at least one when `b` is non-zero, so the division in `Frequency::new` is defined |
| Euclid.GcdCommutes | src/lib.rs:167-174 | the gcd does not depend on the order of its arguments |
| Euclid.GcdScale | src/lib.rs:167-174 | `gcd(k*a, k*b) == k * gcd(a, b)` |
| Euclid.GcdQuotients | src/lib.rs:167-174 | dividing both arguments by their gcd leaves coprime quotients that multiply back to the arguments |
| Euclid.ReducedFractionUnique | src/lib.rs:167-174 | two fractions in lowest terms with positive denominators that are equal as rationals are identical |
| Euclid.CoprimeProduct | src/lib.rs:167-174 | a number coprime to two others is coprime to their product |
| Euclid.CoprimeDividesProduct | src/lib.rs:167-174 | Euclid's lemma: coprime to `y` and dividing `y*z` means dividing `z` |
| Span.TimeSpan.AsMicros | src/span.rs:669-671 | the whole microseconds: `r` units fit in the span and `r + 1` do not |
| Span.TimeSpan.AsMillis | src/span.rs:675-677 | the whole milliseconds, as floor division |
| Span.TimeSpan.AsSeconds | src/span.rs:681-683 | the whole seconds, as floor division |
| Span.TimeSpan.AsMinutes | src/span.rs:687-689 | the whole minutes, as floor division |
| Span.TimeSpan.AsHours | src/span.rs:693-695 | the whole hours, as floor division |
| Span.TimeSpan.AsDays | src/span.rs:699-701 | the whole days, as floor division |
| Span.TimeSpan.AsWeeks | src/span.rs:705-707 | the whole weeks, as floor division |
| Span.TimeSpan.CheckedAdd | src/span.rs:723-728 | `None` exactly when the sum passes `u64::MAX`, else the sum |
| Span.TimeSpan.CheckedSub | src/span.rs:731-736 | `None` exactly when the subtrahend is larger, else the difference |
| Span.TimeSpan.CheckedMul | src/span.rs:739-744 | `None` exactly when the product passes `u64::MAX`, else the product |
| Span.TimeSpan.CheckedDiv | src/span.rs:747-752 | `None` exactly for a zero divisor, else the floor quotient |
| Span.TimeSpan.Div | src/span.rs:755-758 | floor quotient by a non-zero scalar |
| Span.TimeSpan.CheckedDivSpan | src/span.rs:761-766 | `None` exactly for a zero span, else how many whole spans fit |
| Span.TimeSpan.DivSpan | src/span.rs:769-771 | how many whole non-zero spans fit |
| Span.TimeSpan.CheckedRem | src/span.rs:774-779 | `None` exactly for a zero divisor, else the remainder below it that recomposes the dividend with the quotient |
| Span.TimeSpan.Rem | src/span.rs:782-785 | remainder by a non-zero scalar, recomposing the dividend with `Div` |
| Span.TimeSpan.CheckedRemSpan | src/span.rs:788-793 | `None` exactly for a zero span, else the remainder that recomposes with `CheckedDivSpan` |
| Span.TimeSpan.RemSpan | src/span.rs:796-799 | remainder by a non-zero span, recomposing with `DivSpan` |
| Span.TimeSpan.AddOp | src/span.rs:1062-1069 | `+` is the checked sum when it does not overflow |
| Span.TimeSpan.AddNonZeroOp | src/span.rs:1080-1087 | `TimeSpan + NonZeroTimeSpan` is the non-zero sum |
| Span.TimeSpan.SubOp | src/span.rs:1123-1131 | `-` is the checked difference when it does not underflow |
| Span.TimeSpan.SubNonZeroOpAsWritten | src/span.rs:1143-1151 | as written, `self - rhs` computes `rhs - self`: it panics exactly when `self > rhs` |
| Span.TimeSpan.SubNonZeroOp | src/span.rs:1143-1151 | corrected: `self - rhs` is the difference that adds back to `self` |
| Span.TimeSpan.MulOp | src/span.rs:1265-1273 | `*` is the checked product when it fits |
| Span.TimeSpan.DivOp | src/span.rs:1291-1299 | `/ u64` is the checked quotient for a non-zero divisor |
| Span.TimeSpan.RemOp | src/span.rs:1308-1316 | `% u64` is the checked remainder for a non-zero divisor |
| Span.TimeSpan.DivSpanOp | src/span.rs:1175-1183 | `span / span` is the checked span quotient |
| Span.TimeSpan.RemSpanOp | src/span.rs:1213-1221 | `span % span` is the checked span remainder |
| Span.NonZeroTimeSpan.Widen | src/span.rs:809-816 | the conversion keeps the (non-zero) nanoseconds |
| Span.NonZeroTimeSpan.TryFrom | src/span.rs:818-828 | fails exactly for the zero span; otherwise widening gives the span back |
| Span.NonZeroTimeSpan.AsMicros | src/span.rs:910-912 | whole microseconds, as floor division |
| Span.NonZeroTimeSpan.AsMillis | src/span.rs:916-918 | whole milliseconds |
| Span.NonZeroTimeSpan.AsSeconds | src/span.rs:922-924 | whole seconds |
| Span.NonZeroTimeSpan.AsMinutes | src/span.rs:928-930 | whole minutes |
| Span.NonZeroTimeSpan.AsHours | src/span.rs:934-936 | whole hours |
| Span.NonZeroTimeSpan.AsDays | src/span.rs:940-942 | whole days |
| Span.NonZeroTimeSpan.AsWeeks | src/span.rs:946-948 | whole weeks |
| Span.NonZeroTimeSpan.CheckedAdd | src/span.rs:964-976 | `None` exactly on overflow; the sum of a non-zero and any span is non-zero |
| Span.NonZeroTimeSpan.CheckedSub | src/span.rs:978-984 | `None` exactly when the subtrahend is larger, else the difference |
| Span.NonZeroTimeSpan.CheckedMul | src/span.rs:986-992 | `None` exactly on overflow, else the product |
| Span.NonZeroTimeSpan.CheckedMulNonZero | src/span.rs:994-1006 | `None` exactly on overflow; a product of non-zero factors is non-zero |
| Span.NonZeroTimeSpan.CheckedDiv | src/span.rs:1008-1014 | `None` exactly for a zero divisor, else the floor quotient |
| Span.NonZeroTimeSpan.Div | src/span.rs:1016-1020 | floor quotient by a non-zero scalar |
| Span.NonZeroTimeSpan.CheckedDivSpan | src/span.rs:1022-1028 | `None` exactly for a zero span, else whole spans that fit |
| Span.NonZeroTimeSpan.DivSpan | src/span.rs:1030-1033 | whole non-zero spans that fit |
| Span.NonZeroTimeSpan.CheckedRem | src/span.rs:1035-1041 | `None` exactly for a zero divisor, else the recomposing remainder |
| Span.NonZeroTimeSpan.Rem | src/span.rs:1043-1046 | remainder by a non-zero scalar |
| Span.NonZeroTimeSpan.CheckedRemSpan | src/span.rs:1048-1054 | `None` exactly for a zero span, else the recomposing remainder |
| Span.NonZeroTimeSpan.RemSpan | src/span.rs:1056-1059 | remainder by a non-zero span |
| Span.NonZeroTimeSpan.MulOp | src/span.rs:1422-1430 | `*` by a non-zero scalar is the non-zero product when it fits |
| Span.UnitsChain | src/span.rs:593-653 | each unit constant is the stated multiple of the next smaller one; the Julian, Gregorian and solar years are 365.25, 365.2425 and 365.24219 days; `YEAR` is the solar year |
| Span.NonZeroUnitsAgree | src/span.rs:833-895 | the non-zero unit constants are the same spans as the plain ones |
| Span.GregorianYearAsWrittenIsUnderADay | src/span.rs:638-643 | the `GREGORIAN_YEAR` written in the source is shorter than a day, is not 365.2425 days, and is a thousandth of the documented value; the non-zero constant at src/span.rs:883-885 is the same |
| Span.SubNonZeroSwapped | src/span.rs:1143-1151 | as written, `5ns - 3ns` panics and `1ns - 3ns` gives `2ns`; the corrected operator gives `2ns` for `5ns - 3ns` |
| Span.AddSubRoundTrip | src/span.rs:723-736 | checked add then subtract (and subtract then add) the same span is the identity |
| Span.DivRemRecompose | src/span.rs:769-799 | quotient times divisor plus remainder is the dividend |
| Span.MulDivRoundTrip | src/span.rs:739-758 | multiplying by a non-zero scalar and dividing by it again gives the span back |
| Stamp.TimeStamp.Start | src/stamp.rs:47-51 | the start stamp has nothing elapsed |
| Stamp.TimeStamp.Never | src/stamp.rs:58-62 | the never stamp has the largest elapsed count, `i64::MAX - 1` |
| Stamp.TimeStamp.FromElapsed | src/stamp.rs:67-75 | `None` exactly beyond `i64::MAX - 1`, else the stamp storing `elapsed + 1` |
| Stamp.TimeStamp.Nanos | src/stamp.rs:92-103 | the signed reading is within range and `from_elapsed` rebuilds the stamp from it |
| Stamp.TimeStamp.NanosSinceStart | src/stamp.rs:191-193 | the elapsed count is at most `i64::MAX - 1` and `from_elapsed` inverts it |
| Stamp.TimeStamp.ElapsedSinceStart | src/stamp.rs:184-186 | the elapsed span rebuilds the stamp through `from_elapsed` |
| Stamp.TimeStamp.CheckedElapsedSince | src/stamp.rs:155-163 | `None` exactly when `since` is later, else the difference of the elapsed counts |
| Stamp.TimeStamp.ElapsedSince | src/stamp.rs:172-175 | the checked elapsed span when `earlier` is not later |
| Stamp.TimeStamp.AddSpanAsWritten | src/stamp.rs:198-208 | as written, refused only past `i64::MAX`; the stored value can reach `i64::MAX + 1` |
| Stamp.TimeStamp.AddSpan | src/stamp.rs:198-208 | corrected: `None` exactly when the sum passes `never()`, else the stamp that elapsed the sum |
| Stamp.TimeStamp.SubSpan | src/stamp.rs:213-223 | `None` exactly when the span reaches before the start, else the stamp that elapsed the difference |
| Stamp.TimeStamp.AddOp | src/stamp.rs:226-241 | `+` and `+=` over the corrected `add_span`: defined exactly when the sum stays within `never()`, and then the stamp `add_span` returns |
| Stamp.TimeStamp.AddOpAsWritten | src/stamp.rs:226-241 | `+` as written: defined exactly when `add_span` as written succeeds, a sum of at most `i64::MAX`; equal to the corrected `+` up to `never()`, and for a sum of `i64::MAX` it stores `i64::MAX + 1`, past `never()` |
| Stamp.TimeStamp.SubOp | src/stamp.rs:243-258 | `-` and `-=` are `sub_span` when it succeeds |
| Stamp.TimeStamp.SubStampOp | src/stamp.rs:260-267 | `stamp - stamp` is the elapsed span between them |
| Stamp.OrderIsElapsedOrder | src/stamp.rs:20-25 | the derived order is the order of elapsed time, `start()` least and `never()` greatest; `checked_elapsed_since` fails exactly for an earlier stamp |
| Stamp.AddSpanRoundTrip | src/stamp.rs:155-223 | adding a span, then measuring since the original or subtracting it again, gives the span and the stamp back |
| Stamp.SubSpanRoundTrip | src/stamp.rs:155-223 | subtracting a span and adding it back gives the stamp; the elapsed span is the span |
| Stamp.AddSpanPastNever | src/stamp.rs:198-208 | `never() + 1ns` is accepted as written with stored value `i64::MAX + 1`; the corrected check refuses it |
| Stamp.AddSpanAgreesBelowNever | src/stamp.rs:198-208 | both checks agree on every sum within `never()` |
| Freq.Frequency.New | src/freq.rs:40-49 | the reduced fraction equals `count / cycle`, is in lowest terms, and neither part grows |
| Freq.Frequency.TryNew | src/freq.rs:30-35 | `None` exactly for a zero cycle, else `new` |
| Freq.Frequency.FromHz | src/freq.rs:54-56 | `value` periods per second, in lowest terms |
| Freq.Frequency.FromKhz | src/freq.rs:61-63 | `value` periods per millisecond, in lowest terms |
| Freq.Frequency.FromMhz | src/freq.rs:68-70 | `value` periods per microsecond, in lowest terms |
| Freq.Frequency.FromGhz | src/freq.rs:75-77 | `value` periods per nanosecond, kept as is |
| Freq.Frequency.Elements | src/freq.rs:82-84 | for a non-zero count, the element count whose shortest covering span is the span itself; for a zero count, none |
| Freq.Frequency.PeriodElements | src/freq.rs:95-97 | the elements of exactly one whole period, nothing left over |
| Freq.Frequency.PeriodsElements | src/freq.rs:101-103 | the elements of exactly `periods` whole periods, nothing left over |
| Freq.Frequency.PeriodsInSpan | src/freq.rs:89-91 | the floor of `span * count / cycle` |
| Freq.Frequency.PeriodsInElements | src/freq.rs:108-112 | whole periods and a remainder below one period that recompose the elements |
| Freq.Frequency.UntilNext | src/freq.rs:116-118 | between one and a whole period, landing exactly on a period boundary |
| Freq.Frequency.SpanFittingElements | src/freq.rs:122-128 | `None` exactly for zero count and non-zero elements; else the shortest span holding the elements |
| Freq.Frequency.Ticker | src/freq.rs:143-145 | a fresh ticker with this frequency at `start`, a whole period from its first tick |
| Freq.NewCanonical | src/freq.rs:40-49 | two results of `new` are equal exactly when the requested fractions are equal as rationals |
| Freq.NewReduced | src/freq.rs:40-49 | a fraction already in lowest terms is kept as it is |
| Freq.TicksInBounds | src/freq.rs:318-338 | `TicksIn` counts exactly the ticks within the elements, and the next tick is at least one element ahead |
| Freq.TicksInUnique | src/freq.rs:318-338 | the count of tick positions determines `TicksIn` |
| Freq.TicksCompose | src/freq.rs:318-338 | no drift: two steps yield as many ticks, and leave the same next tick, as one step over both |
| Freq.TicksInAtMost | src/freq.rs:389-396 | a step never yields more ticks than elements, so the count fits in `u64` |
| Freq.NextTickFires | src/freq.rs:311-313 | a step ticks exactly when it reaches the stamp `next_tick` predicts, and otherwise the prediction does not move |
| Freq.TickOffsetIsCeil | src/freq.rs:403-450 | the instant of tick `k` is the ceiling of its element position over `count` |
| Freq.FrequencyTicker.New | src/freq.rs:293-295 | the first tick is one period ahead |
| Freq.FrequencyTicker.WithDelay | src/freq.rs:300-306 | the first tick is `1 + periods` periods ahead |
| Freq.FrequencyTicker.NextTick | src/freq.rs:311-313 | `None` exactly for a zero count, else `now` plus the shortest span holding the elements until the next tick |
| Freq.FrequencyTicker.Ticks | src/freq.rs:318-338 | advances `now` by the step and the next tick by `NextAfter`; the fresh iterator will hand out exactly `TicksIn` ticks |
| Freq.FrequencyTicker.TickCount | src/freq.rs:343-345 | advances like `ticks` and returns `TicksIn` |
| Freq.FrequencyTicker.SetFrequency | src/freq.rs:365-373 | sets the frequency and keeps `now` and the elements until the next tick, so the next tick moves when the count changes; with `clip_period`, more than one period of elements is cut to one period |
| Freq.FrequencyTicker.SetFrequencyKeepingTick | src/freq.rs:360-373 | the documented behaviour: the elements are converted to the new frequency, so without clipping the next tick stays where it was; with clipping, more than one period is cut to one period |
| Freq.Rescaled | src/freq.rs:360-373 | the least element count at the new frequency whose shortest covering span is that of the old count |
| Freq.TickerIter.Ticks | src/freq.rs:389-396 | the ticks still to come besides the accumulated ones |
| Freq.TickerIter.Next | src/freq.rs:403-450 | `None` exactly when no tick is left; else tick number `emitted`, at its exact instant, with the span since the previous tick |
| Freq.TickerIter.Collect | src/freq.rs:349-351 | drains the iterator: as many steps as ticks remained, step `i` being tick `emitted + i` |
| FreqScenarios.TestFreqTicker | src/freq.rs:492-510 | 3 per 10ns from the start: ten nanoseconds yield 3 ticks, then every ten single nanoseconds yield `0 0 0 1 0 0 1 0 0 1` |
| FreqScenarios.TestFreqTickerDelay | src/freq.rs:512-533 | with a delay of 12 periods, 40ns yield no tick, then the same pattern |
| FreqScenarios.TestFreqTickerNextTick | src/freq.rs:535-560 | a thousand single nanoseconds follow the pattern, and each tick lands on the predicted stamp |
| FreqScenarios.TestHz | src/freq.rs:562-584 | 3 Hz over one second yields ticks at 333 333 334, 666 666 667 and 1 000 000 000 ns |
| FreqScenarios.PatternStep | src/freq.rs:492-560 | a one-nanosecond step from each phase yields the pattern's tick and the next phase |
| FreqScenarios.SetFrequencyMovesTick | src/freq.rs:360-373 | at 3 per 10 ns from the start the next tick is 4 ns in; after `set_frequency(1 per 10 ns, false)` it is 10 ns in |
| FreqScenarios.SetFrequencyKeepsTick | src/freq.rs:360-373 | the same change with the elements converted keeps the next tick 4 ns in |
| Rate.StepAsWrittenAgainstCorrected | src/rate.rs:108-132 | as written the crossing step counts one nanosecond fewer than the corrected step; the two agree otherwise |
| Rate.StepNoDrift | src/rate.rs:108-132 | corrected step: two steps advance the clock as much as one over both, and leave the same pending units |
| Rate.FreshClockExact | src/rate.rs:32-39 | from nothing pending, the clock shows exactly the whole `denom`s |
| Rate.UnitRateLosesNanosecond | src/rate.rs:108-132 | at rate 1/1, two 10ns steps advance the clock by 10 and then 9 as written, 10 and 10 corrected |
| Rate.PausedStandsStill | src/rate.rs:102-104 | at rate 0 the clock does not advance, and pending units stay |
| Rate.TickerFrequency | src/rate.rs:134-150 | the frequency scaled by the rate, as a rational; in lowest terms when both inputs are |
| Rate.ClockRate.New | src/rate.rs:32-39 | at the start, rate 1/1, nothing pending |
| Rate.ClockRate.Reset | src/rate.rs:45-48 | back to the start with nothing pending; the rate is kept |
| Rate.ClockRate.SetNow | src/rate.rs:51-53 | only the stamp changes |
| Rate.ClockRate.SetRateRatio | src/rate.rs:85-88 | only the rate changes |
| Rate.ClockRate.RateRatio | src/rate.rs:97-99 | the rate as set |
| Rate.ClockRate.Pause | src/rate.rs:102-104 | the numerator becomes zero; the denominator, stamp and pending units stay |
| Rate.ClockRate.StepAsWritten | src/rate.rs:108-132 | the step as written: the clock advances by `StepNanosAsWritten`, pending units become `NextAfter` |
| Rate.ClockRate.Step | src/rate.rs:108-132 | the corrected step: the clock advances by `StepNanos`, which counts the nanosecond reached |
| Rate.ClockRate.Ticker | src/rate.rs:134-150 | a fresh ticker at the clock's stamp with the scaled frequency |
| SpanDigits.ParseDigits | src/span.rs:251-302 | the digit loop succeeds exactly for digits whose value fits in `u64`, and returns that value |
| SpanDigits.ParseU64 | src/span.rs:251-302 | `u64::from_str` fails with `Empty` exactly for empty text; a success reads digits, after at most a `+` |
| SpanDigits.Trim | src/span.rs:251-302 | `str::trim` leaves no white space at either end and keeps text that has none |
| SpanDigits.DecValue | src/span.rs:26-121 | the digits of `{}` read back as the number |
| SpanDigits.PadValue | src/span.rs:26-121 | the digits of `{:0w}` read back as the number |
| SpanDigits.ParsePad | src/span.rs:26-121 | `u64::from_str` of `{:0w}` is the number, and trimming changes nothing |
| SpanDigits.DecLeading | src/span.rs:26-121 | `{}` of a number has no leading zero |
| SpanParse.SepsFrom | src/span.rs:239 | the separators are, in order, every non-digit non-space character with its position |
| SpanParse.LayoutOf | src/span.rs:306-504 | the ranges of a text lie within it |
| SpanParse.Scale | src/span.rs:454-496 | `n * unit` panics exactly when the product passes `u64::MAX`; otherwise the product, a whole multiple of the unit with quotient `n` |
| SpanParse.ScaleText | src/span.rs:454-496 | a suffixed or bare number fails exactly when it does not read as a `u64`, with that integer error; otherwise it is the checked product |
| SpanParse.Micros | src/span.rs:293-297 | the fraction in whole microseconds, rounded down; no value exactly when `10u64.pow` or the product passes `u64::MAX` |
| SpanParse.Total | src/span.rs:299-303 | the closing sum panics exactly when the operators evaluated left to right overflow, and otherwise equals their result |
| SpanParse.CheckFields | src/span.rs:252-303 | fails exactly when a field does not read or is out of its bound, with that error; otherwise the fields add up to the span |
| SpanParse.ParseRanges | src/span.rs:251-304 | `Ranges::parse`: the same, for the fields read from the text |
| SpanParse.FromStrWith | src/span.rs:230-507 | `NonASCII` exactly for text with a non-ASCII character; `StringTooLarge` with the length exactly for longer ASCII text; an unexpected delimiter is a separator of the text at its position |
| SpanParse.FromStrAsWritten | src/span.rs:230-507 | with the fraction's digits counted as written, agrees with `FromStrWith` on every failure and on every text without a `.` |
| SpanParse.FromStr | src/span.rs:230-507 | with the digits of the trimmed fraction counted, agrees with `FromStrWith` on every failure and on every text without a `.` |
| SpanFmt.Fmt | src/span.rs:26-121 | the text written by cutting a local copy of the span down unit by unit is `Format` |
| SpanFormat.Format | src/span.rs:26-121 | `0` exactly for the empty span, a `d` exactly from a day on, a `:` exactly from a minute on |
| SpanFormat.DayText | src/span.rs:31-56 | ends in a digit, holds `d` and `:` and no separator but those and `.`, and a `.` exactly when there are milliseconds |
| SpanFormat.HourText | src/span.rs:57-72 | ends in a digit, holds `:` and no `d`, and a `.` exactly when there are milliseconds |
| SpanFormat.MinuteText | src/span.rs:73-85 | ends in a digit, holds `:` and no `d`, and a `.` exactly when there are milliseconds |
| SpanFormat.SecondText | src/span.rs:86-95 | ends in the unit `s`, holds no `:` or `d`, and a `.` exactly when there are milliseconds |
| SpanFormat.MilliText | src/span.rs:96-105 | ends in the unit `ms`, holds no `:` or `d`, and a `.` exactly when there are microseconds |
| SpanFormat.MicroText | src/span.rs:106-115 | ends in the unit `us`, holds no `:` or `d`, and a `.` exactly when there are nanoseconds |
| SpanUnits.SecondsFormat | src/span.rs:86-95 | between a second and a minute the text is `{}s` or `{}.{:03}s` of the whole seconds and milliseconds |
| SpanUnits.MillisFormat | src/span.rs:96-105 | between a millisecond and a second the text is `{}ms` or `{}.{:03}ms` |
| SpanUnits.MicrosFormat | src/span.rs:106-115 | between a microsecond and a millisecond the text is `{}us` or `{}.{:03}us` |
| SpanUnits.SecondsReads | src/span.rs:454-464 | a whole number of seconds reads back as the span cut to milliseconds |
| SpanUnits.SecondsRefused | src/span.rs:436-452 | seconds with a fraction are refused at the `s` that follows the fraction |
| SpanUnits.MillisReads | src/span.rs:466-476 | whole milliseconds read back as the span cut to microseconds |
| SpanUnits.MillisRefused | src/span.rs:436-452 | milliseconds with a fraction are refused at the `m` |
| SpanUnits.MicrosReads | src/span.rs:478-488 | whole microseconds read back exactly |
| SpanUnits.MicrosRefused | src/span.rs:436-452 | microseconds with a fraction are refused at the `u` |
| SpanUnits.NanosRefused | src/span.rs:116-118 | the `{}ns` text is refused at the `n` |
| SpanUnits.ZeroReads | src/span.rs:490-496 | `0` reads back as the zero span |
| SpanUnits.WholeRead | src/span.rs:454-488 | `{}` of any `u64` then `s`, `ms` or `us` reads as that many units, or panics when the product passes `u64::MAX` |
| SpanParseCases.NonAsciiFirst | src/span.rs:231-233 | one non-ASCII character anywhere makes the text `NonASCII`, whatever else it holds |
| SpanParseCases.TooLargeFirst | src/span.rs:235-237 | ASCII text of more than 48 bytes is `StringTooLarge` with its length, whatever it holds |
| SpanParseCases.FortyNineZeros | src/span.rs:235-237 | 49 zeros are refused as too long before they could read as zero |
| SpanParseCases.BareRead | src/span.rs:490-496 | `{}` of any `u64` reads as that many seconds, or panics when they pass `u64::MAX` nanoseconds |
| SpanParseCases.NinetySeconds | src/span.rs:490-496 | `90` is ninety seconds |
| SpanParseCases.SuffixRefused | src/span.rs:454-488 | a first separator `s`, `m` or `u` whose trimmed tail is not `s`, `ms` or `us` is `UnexpectedSuffix`, whatever precedes it |
| SpanParseCases.SecondsWithTail | src/span.rs:454-464 | `1sx` is `UnexpectedSuffix` |
| SpanParseCases.MillisWithTail | src/span.rs:466-476 | `5msec` is `UnexpectedSuffix` |
| SpanParseCases.MicrosCut | src/span.rs:478-488 | `7u` is `UnexpectedSuffix` |
| SpanParseCases.UnitRead | src/span.rs:454-488 | `Ns`, `Nms` and `Nus` read as N units for every `u64` N whose product fits, and panic otherwise |
| SpanParseCases.SecondsBound | src/span.rs:252-260 | with a minutes field, seconds above 59 are `SecondsOutOfBound` with their value |
| SpanParseCases.MinutesBound | src/span.rs:262-270 | with an hours field and seconds in bound, minutes above 59 are `MinutesOutOfBound` with their value |
| SpanParseCases.HoursBound | src/span.rs:272-280 | with a days field and smaller fields in bound, hours above 23 are `HoursOutOfBound` with their value |
| SpanParseCases.SixtySeconds | src/span.rs:252-260 | `1:60` is `SecondsOutOfBound(60)` |
| SpanParseCases.SixtyMinutes | src/span.rs:262-270 | `1:60:00` is `MinutesOutOfBound(60)` |
| SpanParseCases.TwentyFourHours | src/span.rs:272-280 | `1d24:00` is `HoursOutOfBound(24)` |
| SpanClock.DayMillisFormat | src/span.rs:31-51 | from a day on with milliseconds, the text is `{}d{:02}:{:02}:{:02}.{:03}` of the fields |
| SpanClock.DaySecondsFormat | src/span.rs:31-53 | from a day on with seconds and no milliseconds, the text is `{}d{:02}:{:02}:{:02}` |
| SpanClock.DayMinutesFormat | src/span.rs:31-56 | from a day on with neither, the text is `{}d{:02}:{:02}` |
| SpanClock.HourMillisFormat | src/span.rs:57-69 | from an hour on with milliseconds, `{}:{:02}:{:02}.{:03}` |
| SpanClock.HourSecondsFormat | src/span.rs:57-72 | from an hour on without milliseconds, `{}:{:02}:{:02}` |
| SpanClock.MinuteMillisFormat | src/span.rs:73-82 | from a minute on with milliseconds, `{}:{:02}.{:03}` |
| SpanClock.MinuteSecondsFormat | src/span.rs:73-85 | from a minute on without milliseconds, `{}:{:02}` |
| SpanClock.DayMillisReads | src/span.rs:327-343 | the day text with a fraction reads back as the span cut to milliseconds |
| SpanClock.DaySecondsReads | src/span.rs:319-326 | the day text with seconds reads back as the span cut to milliseconds |
| SpanClock.DayMinutesReads | src/span.rs:310-317 | the day text with minutes reads back as the span |
| SpanClock.HourMillisReads | src/span.rs:371-387 | the hour text with a fraction reads back |
| SpanClock.HourSecondsReads | src/span.rs:388-395 | the hour text reads back |
| SpanClock.MinuteMillisReads | src/span.rs:403-419 | the minute text with a fraction reads back |
| SpanClock.MinuteSecondsReads | src/span.rs:420-427 | the minute text reads back |
| SpanText.ClockTotal | src/span.rs:297-301 | the clock fields of a span add up to the span cut to milliseconds |
| SpanText.RangesRead | src/span.rs:251-302 | with every field read and in range, `Ranges::parse` is the closing sum |
| SpanReadback.FormatReadsBack | src/span.rs:26-121 | `from_str` of the text of any span is `ReadBack`, with the fraction's digit count as written or trimmed |
| SpanReadback.FormatParse | src/span.rs:231-504 | the text of a span parses exactly when the span is `Readable`, and then as the span cut to the precision its text shows |
| SpanReadback.FormatParseAsWritten | src/span.rs:410-417 | on texts of spans the fraction's digit count as written and as trimmed agree |
| SpanReadback.ShownBounds | src/span.rs:26-121 | the shown span never adds time, drops less than a millisecond from a second on, less than a microsecond from a millisecond on, and nothing below |
| SpanUnitFractions.FromStrUnits | src/span.rs:230-507 | the corrected reading: equal to `from_str` on every text `from_str` reads or refuses other than at a delimiter |
| SpanUnitFractions.ScaleFraction | src/span.rs:86-115 | a whole number and a fraction of a unit fail exactly when either does not read as a `u64` |
| SpanUnitFractions.ScaleFractionBounds | src/span.rs:86-115 | the span read is the exact value of the number and its fraction, less than one nanosecond below it |
| SpanUnitFractions.FractionUnitRead | src/span.rs:86-115 | `{}.{:03}` then `s`, `ms` or `us` reads as the whole units plus the thousandths of one |
| SpanUnitFractions.NanosUnitRead | src/span.rs:116-118 | `{}ns` reads as that many nanoseconds |
| SpanUnitFractions.FormatParseUnits | src/span.rs:26-121 | the text of every span reads back as the span cut to the precision the text shows |
| SpanExamples.PrintDay | src/span.rs:1596 | `DAY` prints as `1d00:00` |
| SpanExamples.PrintHour | src/span.rs:1597 | `HOUR` prints as `1:00:00` |
| SpanExamples.PrintMinute | src/span.rs:1598 | `MINUTE` prints as `1:00` |
| SpanExamples.PrintSecond | src/span.rs:1599 | `SECOND` prints as `1s` |
| SpanExamples.PrintHourTwoEleven | src/span.rs:1601-1604 | one hour, two minutes and eleven seconds print as `1:02:11` |
| SpanExamples.PrintTwoElevenEleven | src/span.rs:1606-1609 | two minutes, eleven seconds and eleven milliseconds print as `2:11.011` |
| SpanExamples.ParseDay | src/span.rs:1619 | `1d00:00` parses as `DAY` |
| SpanExamples.ParseHour | src/span.rs:1620 | `1:00:00` parses as `HOUR` |
| SpanExamples.ParseMinute | src/span.rs:1621 | `1:00` parses as `MINUTE` |
| SpanExamples.ParseSecond | src/span.rs:1622 | `1s` parses as `SECOND` |
| SpanExamples.ParseHourTwoEleven | src/span.rs:1624-1627 | `1:02:11` parses as one hour, two minutes and eleven seconds |
| SpanExamples.ParseTwoElevenEleven | src/span.rs:1629-1632 | `2:11.011` parses as two minutes, eleven seconds and eleven milliseconds |
| SpanExamples.TrailingSpaceFraction | src/span.rs:403-419 | as written `2:11.011 ` parses as 2 min 11.0011 s; with the trimmed digit count it parses as 2 min 11.011 s |

## Left out

- Floating point: `as_secs_f32` and `as_secs_f64`, `ClockRate::set_rate`, `with_rate` and `rate`, and the helpers `rate2ratio` and `ftor` in src/rate.rs. The model has no floating point.
- `Clock` (src/clock.rs), `TimeStamp::now` and the global reference point. They read the system clock.
- `TimeStamp::from_duration` and `from_observed_duration`, and the `Duration` conversions of spans. These take `u128` nanosecond counts from `core::time`, which is not part of this model.
- `TimeStamp::from_elapsed_unchecked`: it is unsafe; the callers in the model go through `FromElapsed`.
- serde serialization of spans and frequencies. `fmt_full`, `fmt_nanos` and the alternate-flag `Display`/`Debug`. The `Display` of `TimeSpanParseErr` and of stamps (message text only).
- The `timespan!` macro, the `NumExt` extension traits and `TimeSpan::new`/`as_nanos`. These are constructors and field reads the model writes directly.
- The `*Assign` operators and the commuted `u64 * TimeSpan` forms. Each stores or returns the same value as the binary operator that is modelled.
- `NonZeroTimeSpan + NonZeroTimeSpan`, `NonZeroTimeSpan - …`, and the division and remainder operators on `NonZeroTimeSpan`. Each is the modelled checked operation followed by `expect`, in the same way as the `TimeSpan` operators.
- `FrequencyTicker::frequency`, `ClockRate::now`, `with_now` and `with_rate_ratio`. These read or set a field, which the class members expose directly.
- `FrequencyTicker::with_ticks`: a user closure is called on each tick. It is modelled as `TickerIter.Collect`, which returns the ticks in order.
- Freq.Frequency.Elements, Freq.Frequency.PeriodsElements, Freq.FrequencyTicker.Ticks, Freq.FrequencyTicker.TickCount, Freq.FrequencyTicker.WithDelay, Rate.ClockRate.StepAsWritten, Rate.ClockRate.Step and Rate.ClockRate.Ticker: they require that the products the source computes without a check (`span * count`, `cycle * periods`, `nanos * nom`, `nom * count`, `denom * period`) fit in `u64`. Debug builds would panic there and release builds would wrap; the model does not follow the wrap.
- SpanParse.Micros: `10u64.pow` past `u64::MAX` is `Panics` (the debug build). A release build would wrap instead.
- Rate.ClockRate.Ticker: src/rate.rs:134-150 reads a field `freq.period`, while `Frequency` in src/freq.rs calls it `cycle`. The model reads the cycle.

- Stamp.TimeStamp.CheckedElapsedSince: src/stamp.rs:155-163 applies the signed `checked_sub` to two `i64` readings. It passes the `i64` difference to `TimeSpan::new`, which takes a `u64` (src/span.rs:657), so these lines do not type-check as written. A signed subtraction of two stamps never fails. The model returns `None` when `since` is the later stamp, as the `expect` message of `elapsed_since` at src/stamp.rs:174 describes.
- Stamp.TimeStamp.AddSpanAsWritten: src/stamp.rs:198-208 passes the `u64` `span.as_nanos()` to the `i64` `checked_add`, which does not type-check as written. The model reads it as integer addition refused past `i64::MAX`, followed by the release build of `from_elapsed_unchecked`. A debug build would panic in the `debug_assert` at src/stamp.rs:85 once the sum reaches `i64::MAX - 1`.
- Stamp.TimeStamp.AddSpan: the corrected `add_span` reads the ill-typed lines as `AddSpanAsWritten` does. It refuses every sum past `never()`, as `from_elapsed` does. Like `from_elapsed`, it accepts the sum `i64::MAX - 1`, where a debug build of the code would panic.
- Stamp.TimeStamp.SubSpan: src/stamp.rs:213-223 mixes `i64` and `u64` in `checked_sub` in the same way. The model reads it as integer subtraction, with `None` below the reference point, and follows release builds. A debug build would panic in the `debug_assert` at src/stamp.rs:85 on `never()` minus the empty span.
- Stamp.TimeStamp.AddOp: `+` over the corrected `add_span` requires a sum within `never()`. It leaves out the sum `i64::MAX`, which the `+` as written accepts in release builds; `AddOpAsWritten` models that case.

Where the code and its documentation disagree, the model follows the code, and a corrected member beside it is recorded under Findings. The stamp lines above have no single meaning to follow; the reading each takes is named on its line. Examples:

- `from_elapsed_unchecked` asserts `nanos < i64::MAX - 1` in debug builds, stricter than the check in `from_elapsed`.
- `TimeStamp` is documented as relative to a reference point. As stored, it is elapsed nanoseconds plus one.

## Findings

| source | as written | input that shows it | evidently intended | confidence | as-written member | corrected member |
|---|---|---|---|---|---|---|
| src/rate.rs:121 | when the step reaches the next clock nanosecond, the clock advances by `(nom_nanos - until_next) / denom`, without the nanosecond reached at `until_next` | rate 1/1: two steps of 10ns advance the clock by 10ns and then 9ns | `1 + (nom_nanos - until_next) / denom`, so that steps compose without drift | not executed | Rate.UnitRateLosesNanosecond | Rate.StepNoDrift |
| src/stamp.rs:198-208 | `add_span` refuses only sums past `i64::MAX` and then stores `sum + 1`, which can be `i64::MAX + 1`, past `never()` | `TimeStamp::never().add_span(TimeSpan::NANOSECOND)` | refuse every sum past `i64::MAX - 1`, as `from_elapsed` does | not executed | Stamp.AddSpanPastNever | Stamp.TimeStamp.AddSpan |
| src/span.rs:416 | the fraction's digit count is every character after the `.`, trailing white space included (likewise at src/span.rs:340, 384 and 449) | `"2:11.011 "` parses as 2 min 11.0011 s | count the digits of the trimmed fraction: 2 min 11.011 s | not executed | SpanExamples.TrailingSpaceFraction | SpanParse.FromStr |
| src/span.rs:641-643 | `GREGORIAN_YEAR` is 31 556 952 000 000 ns, under nine hours; the same value is at src/span.rs:883-885 | `TimeSpan::GREGORIAN_YEAR < TimeSpan::DAY` | 365.2425 days: 31 556 952 000 000 000 ns | not executed | Span.GregorianYearAsWrittenIsUnderADay | Span.UnitsChain |
| src/span.rs:1147-1150 | `TimeSpan - NonZeroTimeSpan` computes `rhs.checked_sub(self)`, the operands swapped | `5ns - 3ns` panics; `1ns - 3ns` yields `2ns` | `self - rhs` | not executed | Span.SubNonZeroSwapped | Span.TimeSpan.SubNonZeroOp |
| src/freq.rs:360-373 | the doc promises that with `clip_period` false the next tick stays where it was, but `until_next` is kept in elements of the old frequency and divided by the new count | 3 per 10 ns from the start puts the next tick 4 ns in; after `set_frequency(1 per 10 ns, false)` it is 10 ns in | convert `until_next` to the new frequency, so that the next tick stays | not executed | FreqScenarios.SetFrequencyMovesTick | Freq.FrequencyTicker.SetFrequencyKeepingTick |
| src/span.rs:86-121 | `fmt` writes a fraction before `s`, `ms` or `us`, and `ns` below a microsecond; `from_str` refuses both forms | `"2.345s"`, the text of 2 s 345 ms, is refused at the `s`; `"5ns"` at the `n` | most likely that every text `fmt` writes reads back, though neither function promises it | not executed; medium | SpanUnits.SecondsRefused | SpanUnitFractions.FormatParseUnits |
