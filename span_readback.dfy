/** Reading the text of a span back with `from_str` (src/span.rs): every
    text `TimeSpan::fmt` writes is either read as the span cut to the
    precision the text shows, or refused at a unit letter that follows a
    fraction (or at the `n` of `ns`). */
module SpanReadback {
  import opened Span
  import opened SpanDigits
  import opened SpanParse
  import opened SpanFormat
  import opened SpanText
  import SpanClock
  import SpanUnits

  /** What `from_str` makes of the text of a span, form by form. */
  function ReadBack(span: TimeSpan): ParseResult {
    var n := span.nanos;
    if n == 0 || n >= MINUTE then Parsed(Shown(span))
    else if n >= SECOND then
      if n % SECOND < MILLI then Parsed(Shown(span))
      else Failed(UnexpectedDelimiter('s', |Dec(n / SECOND)| + 4))
    else if n >= MILLI then
      if n % MILLI < MICRO then Parsed(Shown(span))
      else Failed(UnexpectedDelimiter('m', |Dec(n / MILLI)| + 4))
    else if n >= MICRO then
      if n % MICRO == 0 then Parsed(Shown(span))
      else Failed(UnexpectedDelimiter('u', |Dec(n / MICRO)| + 4))
    else Failed(UnexpectedDelimiter('n', |Dec(n)|))
  }

  /** The clock forms, from a minute on. */
  lemma ClockReadsBack(span: TimeSpan, exact: bool)
    requires span.nanos >= MINUTE
    ensures FromStrWith(Format(span), exact) == Parsed(Shown(span))
  {
    var n := span.nanos;
    if n >= DAY {
      if n % DAY % HOUR % MINUTE % SECOND / MILLI > 0 {
        SpanClock.DayMillisReads(span, exact);
      } else if n % DAY % HOUR % MINUTE / SECOND > 0 {
        SpanClock.DaySecondsReads(span, exact);
      } else {
        SpanClock.DayMinutesReads(span, exact);
      }
    } else if n >= HOUR {
      if n % HOUR % MINUTE % SECOND / MILLI > 0 {
        SpanClock.HourMillisReads(span, exact);
      } else {
        SpanClock.HourSecondsReads(span, exact);
      }
    } else {
      if n % MINUTE % SECOND / MILLI > 0 {
        SpanClock.MinuteMillisReads(span, exact);
      } else {
        SpanClock.MinuteSecondsReads(span, exact);
      }
    }
  }

  /** Zero and the seconds forms. */
  lemma SecondsReadsBack(span: TimeSpan, exact: bool)
    requires span.nanos == 0 || SECOND <= span.nanos < MINUTE
    ensures FromStrWith(Format(span), exact) == ReadBack(span)
  {
    var n := span.nanos;
    if n == 0 {
      assert span == TimeSpan.ZERO;
      SpanUnits.ZeroReads(exact);
    } else if n % SECOND < MILLI {
      SpanUnits.SecondsReads(span, exact);
    } else {
      SpanUnits.SecondsRefused(span, exact);
    }
  }

  /** The milliseconds forms. */
  lemma MillisReadsBack(span: TimeSpan, exact: bool)
    requires MILLI <= span.nanos < SECOND
    ensures FromStrWith(Format(span), exact) == ReadBack(span)
  {
    if span.nanos % MILLI < MICRO {
      SpanUnits.MillisReads(span, exact);
    } else {
      SpanUnits.MillisRefused(span, exact);
    }
  }

  /** The microseconds and nanoseconds forms. */
  lemma MicrosReadsBack(span: TimeSpan, exact: bool)
    requires 0 < span.nanos < MILLI
    ensures FromStrWith(Format(span), exact) == ReadBack(span)
  {
    var n := span.nanos;
    if n < MICRO {
      SpanUnits.NanosRefused(span, exact);
    } else if n % MICRO == 0 {
      SpanUnits.MicrosReads(span, exact);
    } else {
      SpanUnits.MicrosRefused(span, exact);
    }
  }

  /** `from_str` of `TimeSpan::fmt` is `ReadBack`, whichever digit count
      the fraction is taken to have. */
  lemma FormatReadsBack(span: TimeSpan, exact: bool)
    ensures FromStrWith(Format(span), exact) == ReadBack(span)
  {
    var n := span.nanos;
    if n >= MINUTE {
      ClockReadsBack(span, exact);
    } else if n == 0 || n >= SECOND {
      SecondsReadsBack(span, exact);
    } else if n >= MILLI {
      MillisReadsBack(span, exact);
    } else {
      MicrosReadsBack(span, exact);
    }
  }

  /** The text of a span reads back exactly when the span is readable, and
      then as the span cut to the precision its text shows. */
  lemma FormatParse(span: TimeSpan, exact: bool)
    ensures FromStrWith(Format(span), exact).Parsed? <==> Readable(span)
    ensures Readable(span) ==> FromStrWith(Format(span), exact) == Parsed(Shown(span))
  {
    FormatReadsBack(span, exact);
  }

  /** On the texts of spans, the fraction's digit count as written and as
      trimmed agree: each such fraction has three digits and ends the text. */
  lemma FormatParseAsWritten(span: TimeSpan)
    ensures FromStrAsWritten(Format(span)) == FromStr(Format(span))
  {
    FormatReadsBack(span, false);
    FormatReadsBack(span, true);
  }

  /** What the text shows of a span: it never adds time, drops less than a
      millisecond from a second on, less than a microsecond from a
      millisecond on, and nothing below. */
  lemma ShownBounds(span: TimeSpan)
    ensures Shown(span).nanos <= span.nanos
    ensures span.nanos >= SECOND ==>
      span.nanos - Shown(span).nanos < MILLI && Shown(span).nanos % MILLI == 0
    ensures MILLI <= span.nanos < SECOND ==>
      span.nanos - Shown(span).nanos < MICRO && Shown(span).nanos % MICRO == 0
    ensures span.nanos < MILLI ==> Shown(span) == span
  {
  }
}
