/** The clock forms of the text of src/span.rs, from a minute on:
    `from_str` reads each back as the span cut to milliseconds. */
module SpanClock {
  import opened Ints
  import opened Wrappers
  import opened Span
  import opened SpanDigits
  import opened SpanParse
  import opened SpanFormat
  import opened SpanText

  /** The clock fields of a span of a day or more, as the formatter takes
      them apart, add up to the span cut to milliseconds. */
  lemma {:induction false} DayClock(n: u64, days: nat, r1: nat, hours: nat, r2: nat, minutes: nat, r3: nat,
                 seconds: nat, millis: nat)
    requires days == n / DAY && r1 == n % DAY && hours == r1 / HOUR && r2 == r1 % HOUR
    requires minutes == r2 / MINUTE && r3 == r2 % MINUTE && seconds == r3 / SECOND
    requires millis == r3 % SECOND / MILLI
    ensures days < 1_000_000 && hours < 24 && minutes < 60 && seconds < 60 && millis < 1000
    ensures days * DAY + hours * HOUR + minutes * MINUTE + seconds * SECOND + millis * MILLI
            == n / MILLI * MILLI
  {
    var q := days * 86_400_000 + hours * 3_600_000 + minutes * 60_000 + seconds * 1000 + millis;
    assert n == q * MILLI + r3 % SECOND % MILLI;
    MilliCut(n, q, r3 % SECOND % MILLI);
  }

  /** The clock fields of a span below a day add up to the span cut to
      milliseconds. */
  lemma {:induction false} HourClock(n: u64, hours: nat, r2: nat, minutes: nat, r3: nat, seconds: nat, millis: nat)
    requires n < DAY
    requires hours == n / HOUR && r2 == n % HOUR
    requires minutes == r2 / MINUTE && r3 == r2 % MINUTE && seconds == r3 / SECOND
    requires millis == r3 % SECOND / MILLI
    ensures hours < 24 && minutes < 60 && seconds < 60 && millis < 1000
    ensures hours * HOUR + minutes * MINUTE + seconds * SECOND + millis * MILLI == n / MILLI * MILLI
  {
    var q := hours * 3_600_000 + minutes * 60_000 + seconds * 1000 + millis;
    assert n == q * MILLI + r3 % SECOND % MILLI;
    MilliCut(n, q, r3 % SECOND % MILLI);
  }

  /** The clock fields of a span below an hour add up to the span cut to
      milliseconds. */
  lemma {:induction false} MinuteClock(n: u64, minutes: nat, r3: nat, seconds: nat, millis: nat)
    requires n < HOUR
    requires minutes == n / MINUTE && r3 == n % MINUTE && seconds == r3 / SECOND
    requires millis == r3 % SECOND / MILLI
    ensures minutes < 60 && seconds < 60 && millis < 1000
    ensures minutes * MINUTE + seconds * SECOND + millis * MILLI == n / MILLI * MILLI
  {
    var q := minutes * 60_000 + seconds * 1000 + millis;
    assert n == q * MILLI + r3 % SECOND % MILLI;
    MilliCut(n, q, r3 % SECOND % MILLI);
  }


  // ---------------------------------------------------------------------
  // "{}d{:02}:{:02}:{:02}.{:03}"

  /** Where the separators of `"{}d{:02}:{:02}:{:02}.{:03}"` are, the first field being
      `a` characters long. */
  predicate DayMillisAt(s: string, a: nat) {
    AllAscii(s) && |s| == a + 13 && a <= 6
    && |Seps(s)| == 4 && Seps(s)[0] == Sep(a, 'd') && Seps(s)[1] == Sep(a + 3, ':')
      && Seps(s)[2] == Sep(a + 6, ':') && Seps(s)[3] == Sep(a + 9, '.')
    && |Trim(s[a + 10..a + 13])| == 3
  }

  /** The fields of `"{}d{:02}:{:02}:{:02}.{:03}"`, the first being `a` characters long. */
  function DayMillisRanges(a: nat): Ranges {
    Ranges(Some(Slice(0, a)), Some(Slice(a + 1, a + 3)), Some(Slice(a + 4, a + 6)),
        Some(Slice(a + 7, a + 9)), Some(Slice(a + 10, a + 13)), 3)
  }

  /** Digit strings joined as `"{}d{:02}:{:02}:{:02}.{:03}"` have its separators, and the
      fields hold the strings. */
  lemma {:induction false} DayMillisSeps(s: string, D: string, H: string, M: string, S: string, F: string)
    requires s == D + ['d'] + H + [':'] + M + [':'] + S + ['.'] + F
    requires AllDigits(D) && AllDigits(H) && AllDigits(M) && AllDigits(S) && AllDigits(F)
    requires |D| <= 6 && |H| == 2 && |M| == 2 && |S| == 2 && |F| == 3
    ensures DayMillisAt(s, |D|)
    ensures var a := |D|;
      s[0..a] == D && s[a + 1..a + 3] == H && s[a + 4..a + 6] == M && s[a + 7..a + 9] == S
        && s[a + 10..a + 13] == F
  {
    DigitsPlain(D);
    DigitsPlain(H);
    DigitsPlain(M);
    DigitsPlain(S);
    DigitsPlain(F);
    Shape5(s, D, 'd', H, ':', M, ':', S, '.', F);
    TrimDigits(F);
  }

  /** A text laid out as `"{}d{:02}:{:02}:{:02}.{:03}"` is read field by field. */
  lemma {:induction false} DayMillisLayout(s: string, a: nat, exact: bool)
    requires DayMillisAt(s, a)
    ensures FromStrWith(s, exact) == ParseRanges(s, DayMillisRanges(a))
  {
    FromFields(s, exact, DayMillisRanges(a));
  }

  /** Fields holding `{}` and `{:0w}` texts read as their numbers. */
  lemma {:induction false} DayMillisSlots(s: string, a: nat, days: u64, hours: u64, minutes: u64, seconds: u64,
      millis: u64)
    requires |s| == a + 13
    requires s[0..a] == Dec(days) && s[a + 1..a + 3] == Pad(hours, 2)
      && s[a + 4..a + 6] == Pad(minutes, 2) && s[a + 7..a + 9] == Pad(seconds, 2)
      && s[a + 10..a + 13] == Pad(millis, 3)
    ensures FieldValue(s, Some(Slice(0, a))) == IntOk(days)
    ensures FieldValue(s, Some(Slice(a + 1, a + 3))) == IntOk(hours)
    ensures FieldValue(s, Some(Slice(a + 4, a + 6))) == IntOk(minutes)
    ensures FieldValue(s, Some(Slice(a + 7, a + 9))) == IntOk(seconds)
    ensures FieldValue(s, Some(Slice(a + 10, a + 13))) == IntOk(millis)
  {
    FieldReadsDec(s, 0, a, days);
    FieldReads(s, a + 1, a + 3, hours, 2);
    FieldReads(s, a + 4, a + 6, minutes, 2);
    FieldReads(s, a + 7, a + 9, seconds, 2);
    FieldReads(s, a + 10, a + 13, millis, 3);
  }

  /** A text laid out as `"{}d{:02}:{:02}:{:02}.{:03}"` whose fields read as clock values
      reads as their total. */
  lemma {:induction false} DayMillisFields(s: string, a: nat, days: u64, hours: u64, minutes: u64, seconds: u64,
      millis: u64, exact: bool)
    requires DayMillisAt(s, a)
    requires s[0..a] == Dec(days) && s[a + 1..a + 3] == Pad(hours, 2)
      && s[a + 4..a + 6] == Pad(minutes, 2) && s[a + 7..a + 9] == Pad(seconds, 2)
      && s[a + 10..a + 13] == Pad(millis, 3)
    requires hours < 24 && minutes < 60 && seconds < 60 && millis < 1000
    ensures FromStrWith(s, exact) == Total(days, hours, minutes, seconds, millis * 1000)
  {
    DayMillisSlots(s, a, days, hours, minutes, seconds, millis);
    DayMillisLayout(s, a, exact);
    MillisMicros(millis);
    RangesRead(s, DayMillisRanges(a),
               days, hours, minutes, seconds, millis, millis * 1000);
  }

  /** The text of such a span is `"{}d{:02}:{:02}:{:02}.{:03}"` of its clock fields. */
  lemma {:induction false} DayMillisFormat(span: TimeSpan, days: nat, hours: nat, minutes: nat, seconds: nat,
      millis: nat)
    requires span.nanos >= DAY
    requires var n := span.nanos;
      days == n / DAY && hours == n % DAY / HOUR && minutes == n % DAY % HOUR / MINUTE
        && seconds == n % DAY % HOUR % MINUTE / SECOND
        && millis == n % DAY % HOUR % MINUTE % SECOND / MILLI
    requires millis > 0
    ensures Format(span) == Dec(days) + "d" + Pad(hours, 2) + ":" + Pad(minutes,
        2) + ":" + Pad(seconds, 2) + "." + Pad(millis, 3)
  {
  }

  /** The text `"{}d{:02}:{:02}:{:02}.{:03}"` of clock fields is laid out as such. */
  lemma {:induction false} DayMillisTextAt(s: string, days: u64, hours: u64, minutes: u64, seconds: u64, millis: u64)
    requires s == Dec(days) + "d" + Pad(hours, 2) + ":" + Pad(minutes, 2) + ":" + Pad(seconds,
        2) + "." + Pad(millis, 3)
    requires days < 1_000_000 && hours < 24 && minutes < 60 && seconds < 60 && millis < 1000
    ensures DayMillisAt(s, |Dec(days)|)
  {
    DecLength(days, 6);
    DayMillisSeps(s, Dec(days), Pad(hours, 2), Pad(minutes, 2), Pad(seconds, 2), Pad(millis, 3));
  }

  /** Where the clock fields are in the text `"{}d{:02}:{:02}:{:02}.{:03}"`. */
  lemma {:induction false} DayMillisTextPieces(s: string, days: u64, hours: u64, minutes: u64, seconds: u64,
      millis: u64)
    requires s == Dec(days) + "d" + Pad(hours, 2) + ":" + Pad(minutes, 2) + ":" + Pad(seconds,
        2) + "." + Pad(millis, 3)
    requires days < 1_000_000 && hours < 24 && minutes < 60 && seconds < 60 && millis < 1000
    ensures var a := |Dec(days)|;
      s[0..a] == Dec(days) && s[a + 1..a + 3] == Pad(hours, 2) && s[a + 4..a + 6] == Pad(minutes, 2)
        && s[a + 7..a + 9] == Pad(seconds, 2) && s[a + 10..a + 13] == Pad(millis, 3)
  {
    DecLength(days, 6);
    DayMillisSeps(s, Dec(days), Pad(hours, 2), Pad(minutes, 2), Pad(seconds, 2), Pad(millis, 3));
  }

  /** The text `"{}d{:02}:{:02}:{:02}.{:03}"` of clock fields reads as their total. */
  lemma {:induction false} DayMillisText(s: string, days: u64, hours: u64, minutes: u64, seconds: u64, millis: u64,
      exact: bool)
    requires s == Dec(days) + "d" + Pad(hours, 2) + ":" + Pad(minutes, 2) + ":" + Pad(seconds,
        2) + "." + Pad(millis, 3)
    requires days < 1_000_000 && hours < 24 && minutes < 60 && seconds < 60 && millis < 1000
    ensures FromStrWith(s, exact) == Total(days, hours, minutes, seconds, millis * 1000)
  {
    DayMillisTextAt(s, days, hours, minutes, seconds, millis);
    DayMillisTextPieces(s, days, hours, minutes, seconds, millis);
    DayMillisFields(s, |Dec(days)|, days, hours, minutes, seconds, millis, exact);
  }

  /** The text of such a span reads as the total of its clock fields. */
  lemma {:induction false} DayMillisShow(span: TimeSpan, days: u64, hours: u64, minutes: u64, seconds: u64,
      millis: u64,
      exact: bool)
    requires span.nanos >= DAY
    requires var n := span.nanos;
      days == n / DAY && hours == n % DAY / HOUR && minutes == n % DAY % HOUR / MINUTE
        && seconds == n % DAY % HOUR % MINUTE / SECOND
        && millis == n % DAY % HOUR % MINUTE % SECOND / MILLI
    requires millis > 0
    requires days < 1_000_000 && hours < 24 && minutes < 60 && seconds < 60 && millis < 1000
    ensures FromStrWith(Format(span), exact) == Total(days, hours, minutes, seconds, millis * 1000)
  {
    DayMillisFormat(span, days, hours, minutes, seconds, millis);
    DayMillisText(Format(span), days, hours, minutes, seconds, millis, exact);
  }

  /** `"{}d{:02}:{:02}:{:02}.{:03}"` reads back as the span cut to milliseconds. */
  lemma {:induction false} DayMillisReads(span: TimeSpan, exact: bool)
    requires span.nanos >= DAY
    requires span.nanos % DAY % HOUR % MINUTE % SECOND / MILLI > 0
    ensures FromStrWith(Format(span), exact) == Parsed(Shown(span))
  {
    var n := span.nanos;
    var days := n / DAY;
    var hours := n % DAY / HOUR;
    var minutes := n % DAY % HOUR / MINUTE;
    var seconds := n % DAY % HOUR % MINUTE / SECOND;
    var millis := n % DAY % HOUR % MINUTE % SECOND / MILLI;
    DayClock(n, days, n % DAY, hours, n % DAY % HOUR, minutes, n % DAY % HOUR % MINUTE, seconds,
        millis);
    DayMillisShow(span, days, hours, minutes, seconds, millis, exact);
    ClockTotal(span, days, hours, minutes, seconds, millis);
  }

  // ---------------------------------------------------------------------
  // "{}d{:02}:{:02}:{:02}"

  /** Where the separators of `"{}d{:02}:{:02}:{:02}"` are, the first field being
      `a` characters long. */
  predicate DaySecondsAt(s: string, a: nat) {
    AllAscii(s) && |s| == a + 9 && a <= 6
    && |Seps(s)| == 3 && Seps(s)[0] == Sep(a, 'd') && Seps(s)[1] == Sep(a + 3, ':')
      && Seps(s)[2] == Sep(a + 6, ':')
  }

  /** The fields of `"{}d{:02}:{:02}:{:02}"`, the first being `a` characters long. */
  function DaySecondsRanges(a: nat): Ranges {
    Ranges(Some(Slice(0, a)), Some(Slice(a + 1, a + 3)), Some(Slice(a + 4, a + 6)),
        Some(Slice(a + 7, a + 9)), None, 0)
  }

  /** Digit strings joined as `"{}d{:02}:{:02}:{:02}"` have its separators, and the
      fields hold the strings. */
  lemma {:induction false} DaySecondsSeps(s: string, D: string, H: string, M: string, S: string)
    requires s == D + ['d'] + H + [':'] + M + [':'] + S
    requires AllDigits(D) && AllDigits(H) && AllDigits(M) && AllDigits(S)
    requires |D| <= 6 && |H| == 2 && |M| == 2 && |S| == 2
    ensures DaySecondsAt(s, |D|)
    ensures var a := |D|;
      s[0..a] == D && s[a + 1..a + 3] == H && s[a + 4..a + 6] == M && s[a + 7..a + 9] == S
  {
    DigitsPlain(D);
    DigitsPlain(H);
    DigitsPlain(M);
    DigitsPlain(S);
    Shape4(s, D, 'd', H, ':', M, ':', S);
  }

  /** A text laid out as `"{}d{:02}:{:02}:{:02}"` is read field by field. */
  lemma {:induction false} DaySecondsLayout(s: string, a: nat, exact: bool)
    requires DaySecondsAt(s, a)
    ensures FromStrWith(s, exact) == ParseRanges(s, DaySecondsRanges(a))
  {
    FromFields(s, exact, DaySecondsRanges(a));
  }

  /** Fields holding `{}` and `{:0w}` texts read as their numbers. */
  lemma {:induction false} DaySecondsSlots(s: string, a: nat, days: u64, hours: u64, minutes: u64, seconds: u64)
    requires |s| == a + 9
    requires s[0..a] == Dec(days) && s[a + 1..a + 3] == Pad(hours, 2)
      && s[a + 4..a + 6] == Pad(minutes, 2) && s[a + 7..a + 9] == Pad(seconds, 2)
    ensures FieldValue(s, Some(Slice(0, a))) == IntOk(days)
    ensures FieldValue(s, Some(Slice(a + 1, a + 3))) == IntOk(hours)
    ensures FieldValue(s, Some(Slice(a + 4, a + 6))) == IntOk(minutes)
    ensures FieldValue(s, Some(Slice(a + 7, a + 9))) == IntOk(seconds)
  {
    FieldReadsDec(s, 0, a, days);
    FieldReads(s, a + 1, a + 3, hours, 2);
    FieldReads(s, a + 4, a + 6, minutes, 2);
    FieldReads(s, a + 7, a + 9, seconds, 2);
  }

  /** A text laid out as `"{}d{:02}:{:02}:{:02}"` whose fields read as clock values
      reads as their total. */
  lemma {:induction false} DaySecondsFields(s: string, a: nat, days: u64, hours: u64, minutes: u64, seconds: u64,
      exact: bool)
    requires DaySecondsAt(s, a)
    requires s[0..a] == Dec(days) && s[a + 1..a + 3] == Pad(hours, 2)
      && s[a + 4..a + 6] == Pad(minutes, 2) && s[a + 7..a + 9] == Pad(seconds, 2)
    requires hours < 24 && minutes < 60 && seconds < 60
    ensures FromStrWith(s, exact) == Total(days, hours, minutes, seconds, 0)
  {
    DaySecondsSlots(s, a, days, hours, minutes, seconds);
    DaySecondsLayout(s, a, exact);
    NoMicros();
    RangesRead(s, DaySecondsRanges(a),
               days, hours, minutes, seconds, 0, 0);
  }

  /** The text of such a span is `"{}d{:02}:{:02}:{:02}"` of its clock fields. */
  lemma {:induction false} DaySecondsFormat(span: TimeSpan, days: nat, hours: nat, minutes: nat, seconds: nat,
      millis: nat)
    requires span.nanos >= DAY
    requires var n := span.nanos;
      days == n / DAY && hours == n % DAY / HOUR && minutes == n % DAY % HOUR / MINUTE
        && seconds == n % DAY % HOUR % MINUTE / SECOND
        && millis == n % DAY % HOUR % MINUTE % SECOND / MILLI
    requires millis == 0 && seconds > 0
    ensures Format(span) == Dec(days) + "d" + Pad(hours, 2) + ":" + Pad(minutes,
        2) + ":" + Pad(seconds, 2)
  {
  }

  /** The text `"{}d{:02}:{:02}:{:02}"` of clock fields is laid out as such. */
  lemma {:induction false} DaySecondsTextAt(s: string, days: u64, hours: u64, minutes: u64, seconds: u64)
    requires s == Dec(days) + "d" + Pad(hours, 2) + ":" + Pad(minutes, 2) + ":" + Pad(seconds, 2)
    requires days < 1_000_000 && hours < 24 && minutes < 60 && seconds < 60
    ensures DaySecondsAt(s, |Dec(days)|)
  {
    DecLength(days, 6);
    DaySecondsSeps(s, Dec(days), Pad(hours, 2), Pad(minutes, 2), Pad(seconds, 2));
  }

  /** Where the clock fields are in the text `"{}d{:02}:{:02}:{:02}"`. */
  lemma {:induction false} DaySecondsTextPieces(s: string, days: u64, hours: u64, minutes: u64, seconds: u64)
    requires s == Dec(days) + "d" + Pad(hours, 2) + ":" + Pad(minutes, 2) + ":" + Pad(seconds, 2)
    requires days < 1_000_000 && hours < 24 && minutes < 60 && seconds < 60
    ensures var a := |Dec(days)|;
      s[0..a] == Dec(days) && s[a + 1..a + 3] == Pad(hours, 2) && s[a + 4..a + 6] == Pad(minutes, 2)
        && s[a + 7..a + 9] == Pad(seconds, 2)
  {
    DecLength(days, 6);
    DaySecondsSeps(s, Dec(days), Pad(hours, 2), Pad(minutes, 2), Pad(seconds, 2));
  }

  /** The text `"{}d{:02}:{:02}:{:02}"` of clock fields reads as their total. */
  lemma {:induction false} DaySecondsText(s: string, days: u64, hours: u64, minutes: u64, seconds: u64, exact: bool)
    requires s == Dec(days) + "d" + Pad(hours, 2) + ":" + Pad(minutes, 2) + ":" + Pad(seconds, 2)
    requires days < 1_000_000 && hours < 24 && minutes < 60 && seconds < 60
    ensures FromStrWith(s, exact) == Total(days, hours, minutes, seconds, 0)
  {
    DaySecondsTextAt(s, days, hours, minutes, seconds);
    DaySecondsTextPieces(s, days, hours, minutes, seconds);
    DaySecondsFields(s, |Dec(days)|, days, hours, minutes, seconds, exact);
  }

  /** The text of such a span reads as the total of its clock fields. */
  lemma {:induction false} DaySecondsShow(span: TimeSpan, days: u64, hours: u64, minutes: u64, seconds: u64,
      millis: u64, exact: bool)
    requires span.nanos >= DAY
    requires var n := span.nanos;
      days == n / DAY && hours == n % DAY / HOUR && minutes == n % DAY % HOUR / MINUTE
        && seconds == n % DAY % HOUR % MINUTE / SECOND
        && millis == n % DAY % HOUR % MINUTE % SECOND / MILLI
    requires millis == 0 && seconds > 0
    requires days < 1_000_000 && hours < 24 && minutes < 60 && seconds < 60
    ensures FromStrWith(Format(span), exact) == Total(days, hours, minutes, seconds, 0)
  {
    DaySecondsFormat(span, days, hours, minutes, seconds, millis);
    DaySecondsText(Format(span), days, hours, minutes, seconds, exact);
  }

  /** `"{}d{:02}:{:02}:{:02}"` reads back as the span cut to milliseconds. */
  lemma {:induction false} DaySecondsReads(span: TimeSpan, exact: bool)
    requires span.nanos >= DAY
    requires span.nanos % DAY % HOUR % MINUTE % SECOND / MILLI == 0
    requires span.nanos % DAY % HOUR % MINUTE / SECOND > 0
    ensures FromStrWith(Format(span), exact) == Parsed(Shown(span))
  {
    var n := span.nanos;
    var days := n / DAY;
    var hours := n % DAY / HOUR;
    var minutes := n % DAY % HOUR / MINUTE;
    var seconds := n % DAY % HOUR % MINUTE / SECOND;
    var millis := n % DAY % HOUR % MINUTE % SECOND / MILLI;
    DayClock(n, days, n % DAY, hours, n % DAY % HOUR, minutes, n % DAY % HOUR % MINUTE, seconds,
        millis);
    DaySecondsShow(span, days, hours, minutes, seconds, millis, exact);
    ClockTotal(span, days, hours, minutes, seconds, 0);
  }

  // ---------------------------------------------------------------------
  // "{}d{:02}:{:02}"

  /** Where the separators of `"{}d{:02}:{:02}"` are, the first field being
      `a` characters long. */
  predicate DayMinutesAt(s: string, a: nat) {
    AllAscii(s) && |s| == a + 6 && a <= 6
    && |Seps(s)| == 2 && Seps(s)[0] == Sep(a, 'd') && Seps(s)[1] == Sep(a + 3, ':')
  }

  /** The fields of `"{}d{:02}:{:02}"`, the first being `a` characters long. */
  function DayMinutesRanges(a: nat): Ranges {
    Ranges(Some(Slice(0, a)), Some(Slice(a + 1, a + 3)), Some(Slice(a + 4, a + 6)), None, None, 0)
  }

  /** Digit strings joined as `"{}d{:02}:{:02}"` have its separators, and the
      fields hold the strings. */
  lemma {:induction false} DayMinutesSeps(s: string, D: string, H: string, M: string)
    requires s == D + ['d'] + H + [':'] + M
    requires AllDigits(D) && AllDigits(H) && AllDigits(M)
    requires |D| <= 6 && |H| == 2 && |M| == 2
    ensures DayMinutesAt(s, |D|)
    ensures var a := |D|;
      s[0..a] == D && s[a + 1..a + 3] == H && s[a + 4..a + 6] == M
  {
    DigitsPlain(D);
    DigitsPlain(H);
    DigitsPlain(M);
    Shape3(s, D, 'd', H, ':', M);
  }

  /** A text laid out as `"{}d{:02}:{:02}"` is read field by field. */
  lemma {:induction false} DayMinutesLayout(s: string, a: nat, exact: bool)
    requires DayMinutesAt(s, a)
    ensures FromStrWith(s, exact) == ParseRanges(s, DayMinutesRanges(a))
  {
    FromFields(s, exact, DayMinutesRanges(a));
  }

  /** Fields holding `{}` and `{:0w}` texts read as their numbers. */
  lemma {:induction false} DayMinutesSlots(s: string, a: nat, days: u64, hours: u64, minutes: u64)
    requires |s| == a + 6
    requires s[0..a] == Dec(days) && s[a + 1..a + 3] == Pad(hours, 2)
      && s[a + 4..a + 6] == Pad(minutes, 2)
    ensures FieldValue(s, Some(Slice(0, a))) == IntOk(days)
    ensures FieldValue(s, Some(Slice(a + 1, a + 3))) == IntOk(hours)
    ensures FieldValue(s, Some(Slice(a + 4, a + 6))) == IntOk(minutes)
  {
    FieldReadsDec(s, 0, a, days);
    FieldReads(s, a + 1, a + 3, hours, 2);
    FieldReads(s, a + 4, a + 6, minutes, 2);
  }

  /** A text laid out as `"{}d{:02}:{:02}"` whose fields read as clock values
      reads as their total. */
  lemma {:induction false} DayMinutesFields(s: string, a: nat, days: u64, hours: u64, minutes: u64, exact: bool)
    requires DayMinutesAt(s, a)
    requires s[0..a] == Dec(days) && s[a + 1..a + 3] == Pad(hours, 2)
      && s[a + 4..a + 6] == Pad(minutes, 2)
    requires hours < 24 && minutes < 60
    ensures FromStrWith(s, exact) == Total(days, hours, minutes, 0, 0)
  {
    DayMinutesSlots(s, a, days, hours, minutes);
    DayMinutesLayout(s, a, exact);
    NoMicros();
    RangesRead(s, DayMinutesRanges(a),
               days, hours, minutes, 0, 0, 0);
  }

  /** The text of such a span is `"{}d{:02}:{:02}"` of its clock fields. */
  lemma {:induction false} DayMinutesFormat(span: TimeSpan, days: nat, hours: nat, minutes: nat, seconds: nat,
      millis: nat)
    requires span.nanos >= DAY
    requires var n := span.nanos;
      days == n / DAY && hours == n % DAY / HOUR && minutes == n % DAY % HOUR / MINUTE
        && seconds == n % DAY % HOUR % MINUTE / SECOND
        && millis == n % DAY % HOUR % MINUTE % SECOND / MILLI
    requires millis == 0 && seconds == 0
    ensures Format(span) == Dec(days) + "d" + Pad(hours, 2) + ":" + Pad(minutes, 2)
  {
  }

  /** The text `"{}d{:02}:{:02}"` of clock fields is laid out as such. */
  lemma {:induction false} DayMinutesTextAt(s: string, days: u64, hours: u64, minutes: u64)
    requires s == Dec(days) + "d" + Pad(hours, 2) + ":" + Pad(minutes, 2)
    requires days < 1_000_000 && hours < 24 && minutes < 60
    ensures DayMinutesAt(s, |Dec(days)|)
  {
    DecLength(days, 6);
    DayMinutesSeps(s, Dec(days), Pad(hours, 2), Pad(minutes, 2));
  }

  /** Where the clock fields are in the text `"{}d{:02}:{:02}"`. */
  lemma {:induction false} DayMinutesTextPieces(s: string, days: u64, hours: u64, minutes: u64)
    requires s == Dec(days) + "d" + Pad(hours, 2) + ":" + Pad(minutes, 2)
    requires days < 1_000_000 && hours < 24 && minutes < 60
    ensures var a := |Dec(days)|;
      s[0..a] == Dec(days) && s[a + 1..a + 3] == Pad(hours, 2) && s[a + 4..a + 6] == Pad(minutes, 2)
  {
    DecLength(days, 6);
    DayMinutesSeps(s, Dec(days), Pad(hours, 2), Pad(minutes, 2));
  }

  /** The text `"{}d{:02}:{:02}"` of clock fields reads as their total. */
  lemma {:induction false} DayMinutesText(s: string, days: u64, hours: u64, minutes: u64, exact: bool)
    requires s == Dec(days) + "d" + Pad(hours, 2) + ":" + Pad(minutes, 2)
    requires days < 1_000_000 && hours < 24 && minutes < 60
    ensures FromStrWith(s, exact) == Total(days, hours, minutes, 0, 0)
  {
    DayMinutesTextAt(s, days, hours, minutes);
    DayMinutesTextPieces(s, days, hours, minutes);
    DayMinutesFields(s, |Dec(days)|, days, hours, minutes, exact);
  }

  /** The text of such a span reads as the total of its clock fields. */
  lemma {:induction false} DayMinutesShow(span: TimeSpan, days: u64, hours: u64, minutes: u64, seconds: u64,
      millis: u64, exact: bool)
    requires span.nanos >= DAY
    requires var n := span.nanos;
      days == n / DAY && hours == n % DAY / HOUR && minutes == n % DAY % HOUR / MINUTE
        && seconds == n % DAY % HOUR % MINUTE / SECOND
        && millis == n % DAY % HOUR % MINUTE % SECOND / MILLI
    requires millis == 0 && seconds == 0
    requires days < 1_000_000 && hours < 24 && minutes < 60
    ensures FromStrWith(Format(span), exact) == Total(days, hours, minutes, 0, 0)
  {
    DayMinutesFormat(span, days, hours, minutes, seconds, millis);
    DayMinutesText(Format(span), days, hours, minutes, exact);
  }

  /** `"{}d{:02}:{:02}"` reads back as the span cut to milliseconds. */
  lemma {:induction false} DayMinutesReads(span: TimeSpan, exact: bool)
    requires span.nanos >= DAY
    requires span.nanos % DAY % HOUR % MINUTE % SECOND / MILLI == 0
    requires span.nanos % DAY % HOUR % MINUTE / SECOND == 0
    ensures FromStrWith(Format(span), exact) == Parsed(Shown(span))
  {
    var n := span.nanos;
    var days := n / DAY;
    var hours := n % DAY / HOUR;
    var minutes := n % DAY % HOUR / MINUTE;
    var seconds := n % DAY % HOUR % MINUTE / SECOND;
    var millis := n % DAY % HOUR % MINUTE % SECOND / MILLI;
    DayClock(n, days, n % DAY, hours, n % DAY % HOUR, minutes, n % DAY % HOUR % MINUTE, seconds,
        millis);
    DayMinutesShow(span, days, hours, minutes, seconds, millis, exact);
    ClockTotal(span, days, hours, minutes, 0, 0);
  }

  // ---------------------------------------------------------------------
  // "{}:{:02}:{:02}.{:03}"

  /** Where the separators of `"{}:{:02}:{:02}.{:03}"` are, the first field being
      `a` characters long. */
  predicate HourMillisAt(s: string, a: nat) {
    AllAscii(s) && |s| == a + 10 && a <= 2
    && |Seps(s)| == 3 && Seps(s)[0] == Sep(a, ':') && Seps(s)[1] == Sep(a + 3, ':')
      && Seps(s)[2] == Sep(a + 6, '.')
    && |Trim(s[a + 7..a + 10])| == 3
  }

  /** The fields of `"{}:{:02}:{:02}.{:03}"`, the first being `a` characters long. */
  function HourMillisRanges(a: nat): Ranges {
    Ranges(None, Some(Slice(0, a)), Some(Slice(a + 1, a + 3)), Some(Slice(a + 4, a + 6)),
        Some(Slice(a + 7, a + 10)), 3)
  }

  /** Digit strings joined as `"{}:{:02}:{:02}.{:03}"` have its separators, and the
      fields hold the strings. */
  lemma {:induction false} HourMillisSeps(s: string, H: string, M: string, S: string, F: string)
    requires s == H + [':'] + M + [':'] + S + ['.'] + F
    requires AllDigits(H) && AllDigits(M) && AllDigits(S) && AllDigits(F)
    requires |H| <= 2 && |M| == 2 && |S| == 2 && |F| == 3
    ensures HourMillisAt(s, |H|)
    ensures var a := |H|;
      s[0..a] == H && s[a + 1..a + 3] == M && s[a + 4..a + 6] == S && s[a + 7..a + 10] == F
  {
    DigitsPlain(H);
    DigitsPlain(M);
    DigitsPlain(S);
    DigitsPlain(F);
    Shape4(s, H, ':', M, ':', S, '.', F);
    TrimDigits(F);
  }

  /** A text laid out as `"{}:{:02}:{:02}.{:03}"` is read field by field. */
  lemma {:induction false} HourMillisLayout(s: string, a: nat, exact: bool)
    requires HourMillisAt(s, a)
    ensures FromStrWith(s, exact) == ParseRanges(s, HourMillisRanges(a))
  {
    FromFields(s, exact, HourMillisRanges(a));
  }

  /** Fields holding `{}` and `{:0w}` texts read as their numbers. */
  lemma {:induction false} HourMillisSlots(s: string, a: nat, hours: u64, minutes: u64, seconds: u64, millis: u64)
    requires |s| == a + 10
    requires s[0..a] == Dec(hours) && s[a + 1..a + 3] == Pad(minutes, 2)
      && s[a + 4..a + 6] == Pad(seconds, 2) && s[a + 7..a + 10] == Pad(millis, 3)
    ensures FieldValue(s, Some(Slice(0, a))) == IntOk(hours)
    ensures FieldValue(s, Some(Slice(a + 1, a + 3))) == IntOk(minutes)
    ensures FieldValue(s, Some(Slice(a + 4, a + 6))) == IntOk(seconds)
    ensures FieldValue(s, Some(Slice(a + 7, a + 10))) == IntOk(millis)
  {
    FieldReadsDec(s, 0, a, hours);
    FieldReads(s, a + 1, a + 3, minutes, 2);
    FieldReads(s, a + 4, a + 6, seconds, 2);
    FieldReads(s, a + 7, a + 10, millis, 3);
  }

  /** A text laid out as `"{}:{:02}:{:02}.{:03}"` whose fields read as clock values
      reads as their total. */
  lemma {:induction false} HourMillisFields(s: string, a: nat, hours: u64, minutes: u64, seconds: u64, millis: u64,
      exact: bool)
    requires HourMillisAt(s, a)
    requires s[0..a] == Dec(hours) && s[a + 1..a + 3] == Pad(minutes, 2)
      && s[a + 4..a + 6] == Pad(seconds, 2) && s[a + 7..a + 10] == Pad(millis, 3)
    requires hours < 24 && minutes < 60 && seconds < 60 && millis < 1000
    ensures FromStrWith(s, exact) == Total(0, hours, minutes, seconds, millis * 1000)
  {
    HourMillisSlots(s, a, hours, minutes, seconds, millis);
    HourMillisLayout(s, a, exact);
    MillisMicros(millis);
    RangesRead(s, HourMillisRanges(a),
               0, hours, minutes, seconds, millis, millis * 1000);
  }

  /** The text of such a span is `"{}:{:02}:{:02}.{:03}"` of its clock fields. */
  lemma {:induction false} HourMillisFormat(span: TimeSpan, hours: nat, minutes: nat, seconds: nat, millis: nat)
    requires HOUR <= span.nanos < DAY
    requires var n := span.nanos;
      hours == n / HOUR && minutes == n % HOUR / MINUTE && seconds == n % HOUR % MINUTE / SECOND
        && millis == n % HOUR % MINUTE % SECOND / MILLI
    requires millis > 0
    ensures Format(span) == Dec(hours) + ":" + Pad(minutes, 2) + ":" + Pad(seconds,
        2) + "." + Pad(millis, 3)
  {
  }

  /** The text `"{}:{:02}:{:02}.{:03}"` of clock fields is laid out as such. */
  lemma {:induction false} HourMillisTextAt(s: string, hours: u64, minutes: u64, seconds: u64, millis: u64)
    requires s == Dec(hours) + ":" + Pad(minutes, 2) + ":" + Pad(seconds, 2) + "." + Pad(millis, 3)
    requires hours < 24 && minutes < 60 && seconds < 60 && millis < 1000
    ensures HourMillisAt(s, |Dec(hours)|)
  {
    DecLength(hours, 2);
    HourMillisSeps(s, Dec(hours), Pad(minutes, 2), Pad(seconds, 2), Pad(millis, 3));
  }

  /** Where the clock fields are in the text `"{}:{:02}:{:02}.{:03}"`. */
  lemma {:induction false} HourMillisTextPieces(s: string, hours: u64, minutes: u64, seconds: u64, millis: u64)
    requires s == Dec(hours) + ":" + Pad(minutes, 2) + ":" + Pad(seconds, 2) + "." + Pad(millis, 3)
    requires hours < 24 && minutes < 60 && seconds < 60 && millis < 1000
    ensures var a := |Dec(hours)|;
      s[0..a] == Dec(hours) && s[a + 1..a + 3] == Pad(minutes, 2)
        && s[a + 4..a + 6] == Pad(seconds, 2) && s[a + 7..a + 10] == Pad(millis, 3)
  {
    DecLength(hours, 2);
    HourMillisSeps(s, Dec(hours), Pad(minutes, 2), Pad(seconds, 2), Pad(millis, 3));
  }

  /** The text `"{}:{:02}:{:02}.{:03}"` of clock fields reads as their total. */
  lemma {:induction false} HourMillisText(s: string, hours: u64, minutes: u64, seconds: u64, millis: u64, exact: bool)
    requires s == Dec(hours) + ":" + Pad(minutes, 2) + ":" + Pad(seconds, 2) + "." + Pad(millis, 3)
    requires hours < 24 && minutes < 60 && seconds < 60 && millis < 1000
    ensures FromStrWith(s, exact) == Total(0, hours, minutes, seconds, millis * 1000)
  {
    HourMillisTextAt(s, hours, minutes, seconds, millis);
    HourMillisTextPieces(s, hours, minutes, seconds, millis);
    HourMillisFields(s, |Dec(hours)|, hours, minutes, seconds, millis, exact);
  }

  /** The text of such a span reads as the total of its clock fields. */
  lemma {:induction false} HourMillisShow(span: TimeSpan, hours: u64, minutes: u64, seconds: u64, millis: u64,
      exact: bool)
    requires HOUR <= span.nanos < DAY
    requires var n := span.nanos;
      hours == n / HOUR && minutes == n % HOUR / MINUTE && seconds == n % HOUR % MINUTE / SECOND
        && millis == n % HOUR % MINUTE % SECOND / MILLI
    requires millis > 0
    requires hours < 24 && minutes < 60 && seconds < 60 && millis < 1000
    ensures FromStrWith(Format(span), exact) == Total(0, hours, minutes, seconds, millis * 1000)
  {
    HourMillisFormat(span, hours, minutes, seconds, millis);
    HourMillisText(Format(span), hours, minutes, seconds, millis, exact);
  }

  /** `"{}:{:02}:{:02}.{:03}"` reads back as the span cut to milliseconds. */
  lemma {:induction false} HourMillisReads(span: TimeSpan, exact: bool)
    requires HOUR <= span.nanos < DAY
    requires span.nanos % HOUR % MINUTE % SECOND / MILLI > 0
    ensures FromStrWith(Format(span), exact) == Parsed(Shown(span))
  {
    var n := span.nanos;
    var hours := n / HOUR;
    var minutes := n % HOUR / MINUTE;
    var seconds := n % HOUR % MINUTE / SECOND;
    var millis := n % HOUR % MINUTE % SECOND / MILLI;
    HourClock(n, hours, n % HOUR, minutes, n % HOUR % MINUTE, seconds, millis);
    HourMillisShow(span, hours, minutes, seconds, millis, exact);
    ClockTotal(span, 0, hours, minutes, seconds, millis);
  }

  // ---------------------------------------------------------------------
  // "{}:{:02}:{:02}"

  /** Where the separators of `"{}:{:02}:{:02}"` are, the first field being
      `a` characters long. */
  predicate HourSecondsAt(s: string, a: nat) {
    AllAscii(s) && |s| == a + 6 && a <= 2
    && |Seps(s)| == 2 && Seps(s)[0] == Sep(a, ':') && Seps(s)[1] == Sep(a + 3, ':')
  }

  /** The fields of `"{}:{:02}:{:02}"`, the first being `a` characters long. */
  function HourSecondsRanges(a: nat): Ranges {
    Ranges(None, Some(Slice(0, a)), Some(Slice(a + 1, a + 3)), Some(Slice(a + 4, a + 6)), None, 0)
  }

  /** Digit strings joined as `"{}:{:02}:{:02}"` have its separators, and the
      fields hold the strings. */
  lemma {:induction false} HourSecondsSeps(s: string, H: string, M: string, S: string)
    requires s == H + [':'] + M + [':'] + S
    requires AllDigits(H) && AllDigits(M) && AllDigits(S)
    requires |H| <= 2 && |M| == 2 && |S| == 2
    ensures HourSecondsAt(s, |H|)
    ensures var a := |H|;
      s[0..a] == H && s[a + 1..a + 3] == M && s[a + 4..a + 6] == S
  {
    DigitsPlain(H);
    DigitsPlain(M);
    DigitsPlain(S);
    Shape3(s, H, ':', M, ':', S);
  }

  /** A text laid out as `"{}:{:02}:{:02}"` is read field by field. */
  lemma {:induction false} HourSecondsLayout(s: string, a: nat, exact: bool)
    requires HourSecondsAt(s, a)
    ensures FromStrWith(s, exact) == ParseRanges(s, HourSecondsRanges(a))
  {
    FromFields(s, exact, HourSecondsRanges(a));
  }

  /** Fields holding `{}` and `{:0w}` texts read as their numbers. */
  lemma {:induction false} HourSecondsSlots(s: string, a: nat, hours: u64, minutes: u64, seconds: u64)
    requires |s| == a + 6
    requires s[0..a] == Dec(hours) && s[a + 1..a + 3] == Pad(minutes, 2)
      && s[a + 4..a + 6] == Pad(seconds, 2)
    ensures FieldValue(s, Some(Slice(0, a))) == IntOk(hours)
    ensures FieldValue(s, Some(Slice(a + 1, a + 3))) == IntOk(minutes)
    ensures FieldValue(s, Some(Slice(a + 4, a + 6))) == IntOk(seconds)
  {
    FieldReadsDec(s, 0, a, hours);
    FieldReads(s, a + 1, a + 3, minutes, 2);
    FieldReads(s, a + 4, a + 6, seconds, 2);
  }

  /** A text laid out as `"{}:{:02}:{:02}"` whose fields read as clock values
      reads as their total. */
  lemma {:induction false} HourSecondsFields(s: string, a: nat, hours: u64, minutes: u64, seconds: u64, exact: bool)
    requires HourSecondsAt(s, a)
    requires s[0..a] == Dec(hours) && s[a + 1..a + 3] == Pad(minutes, 2)
      && s[a + 4..a + 6] == Pad(seconds, 2)
    requires hours < 24 && minutes < 60 && seconds < 60
    ensures FromStrWith(s, exact) == Total(0, hours, minutes, seconds, 0)
  {
    HourSecondsSlots(s, a, hours, minutes, seconds);
    HourSecondsLayout(s, a, exact);
    NoMicros();
    RangesRead(s, HourSecondsRanges(a),
               0, hours, minutes, seconds, 0, 0);
  }

  /** The text of such a span is `"{}:{:02}:{:02}"` of its clock fields. */
  lemma {:induction false} HourSecondsFormat(span: TimeSpan, hours: nat, minutes: nat, seconds: nat, millis: nat)
    requires HOUR <= span.nanos < DAY
    requires var n := span.nanos;
      hours == n / HOUR && minutes == n % HOUR / MINUTE && seconds == n % HOUR % MINUTE / SECOND
        && millis == n % HOUR % MINUTE % SECOND / MILLI
    requires millis == 0
    ensures Format(span) == Dec(hours) + ":" + Pad(minutes, 2) + ":" + Pad(seconds, 2)
  {
  }

  /** The text `"{}:{:02}:{:02}"` of clock fields is laid out as such. */
  lemma {:induction false} HourSecondsTextAt(s: string, hours: u64, minutes: u64, seconds: u64)
    requires s == Dec(hours) + ":" + Pad(minutes, 2) + ":" + Pad(seconds, 2)
    requires hours < 24 && minutes < 60 && seconds < 60
    ensures HourSecondsAt(s, |Dec(hours)|)
  {
    DecLength(hours, 2);
    HourSecondsSeps(s, Dec(hours), Pad(minutes, 2), Pad(seconds, 2));
  }

  /** Where the clock fields are in the text `"{}:{:02}:{:02}"`. */
  lemma {:induction false} HourSecondsTextPieces(s: string, hours: u64, minutes: u64, seconds: u64)
    requires s == Dec(hours) + ":" + Pad(minutes, 2) + ":" + Pad(seconds, 2)
    requires hours < 24 && minutes < 60 && seconds < 60
    ensures var a := |Dec(hours)|;
      s[0..a] == Dec(hours) && s[a + 1..a + 3] == Pad(minutes, 2)
        && s[a + 4..a + 6] == Pad(seconds, 2)
  {
    DecLength(hours, 2);
    HourSecondsSeps(s, Dec(hours), Pad(minutes, 2), Pad(seconds, 2));
  }

  /** The text `"{}:{:02}:{:02}"` of clock fields reads as their total. */
  lemma {:induction false} HourSecondsText(s: string, hours: u64, minutes: u64, seconds: u64, exact: bool)
    requires s == Dec(hours) + ":" + Pad(minutes, 2) + ":" + Pad(seconds, 2)
    requires hours < 24 && minutes < 60 && seconds < 60
    ensures FromStrWith(s, exact) == Total(0, hours, minutes, seconds, 0)
  {
    HourSecondsTextAt(s, hours, minutes, seconds);
    HourSecondsTextPieces(s, hours, minutes, seconds);
    HourSecondsFields(s, |Dec(hours)|, hours, minutes, seconds, exact);
  }

  /** The text of such a span reads as the total of its clock fields. */
  lemma {:induction false} HourSecondsShow(span: TimeSpan, hours: u64, minutes: u64, seconds: u64, millis: u64,
      exact: bool)
    requires HOUR <= span.nanos < DAY
    requires var n := span.nanos;
      hours == n / HOUR && minutes == n % HOUR / MINUTE && seconds == n % HOUR % MINUTE / SECOND
        && millis == n % HOUR % MINUTE % SECOND / MILLI
    requires millis == 0
    requires hours < 24 && minutes < 60 && seconds < 60
    ensures FromStrWith(Format(span), exact) == Total(0, hours, minutes, seconds, 0)
  {
    HourSecondsFormat(span, hours, minutes, seconds, millis);
    HourSecondsText(Format(span), hours, minutes, seconds, exact);
  }

  /** `"{}:{:02}:{:02}"` reads back as the span cut to milliseconds. */
  lemma {:induction false} HourSecondsReads(span: TimeSpan, exact: bool)
    requires HOUR <= span.nanos < DAY
    requires span.nanos % HOUR % MINUTE % SECOND / MILLI == 0
    ensures FromStrWith(Format(span), exact) == Parsed(Shown(span))
  {
    var n := span.nanos;
    var hours := n / HOUR;
    var minutes := n % HOUR / MINUTE;
    var seconds := n % HOUR % MINUTE / SECOND;
    var millis := n % HOUR % MINUTE % SECOND / MILLI;
    HourClock(n, hours, n % HOUR, minutes, n % HOUR % MINUTE, seconds, millis);
    HourSecondsShow(span, hours, minutes, seconds, millis, exact);
    ClockTotal(span, 0, hours, minutes, seconds, 0);
  }

  // ---------------------------------------------------------------------
  // "{}:{:02}.{:03}"

  /** Where the separators of `"{}:{:02}.{:03}"` are, the first field being
      `a` characters long. */
  predicate MinuteMillisAt(s: string, a: nat) {
    AllAscii(s) && |s| == a + 7 && a <= 2
    && |Seps(s)| == 2 && Seps(s)[0] == Sep(a, ':') && Seps(s)[1] == Sep(a + 3, '.')
    && |Trim(s[a + 4..a + 7])| == 3
  }

  /** The fields of `"{}:{:02}.{:03}"`, the first being `a` characters long. */
  function MinuteMillisRanges(a: nat): Ranges {
    Ranges(None, None, Some(Slice(0, a)), Some(Slice(a + 1, a + 3)), Some(Slice(a + 4, a + 7)), 3)
  }

  /** Digit strings joined as `"{}:{:02}.{:03}"` have its separators, and the
      fields hold the strings. */
  lemma {:induction false} MinuteMillisSeps(s: string, M: string, S: string, F: string)
    requires s == M + [':'] + S + ['.'] + F
    requires AllDigits(M) && AllDigits(S) && AllDigits(F)
    requires |M| <= 2 && |S| == 2 && |F| == 3
    ensures MinuteMillisAt(s, |M|)
    ensures var a := |M|;
      s[0..a] == M && s[a + 1..a + 3] == S && s[a + 4..a + 7] == F
  {
    DigitsPlain(M);
    DigitsPlain(S);
    DigitsPlain(F);
    Shape3(s, M, ':', S, '.', F);
    TrimDigits(F);
  }

  /** A text laid out as `"{}:{:02}.{:03}"` is read field by field. */
  lemma {:induction false} MinuteMillisLayout(s: string, a: nat, exact: bool)
    requires MinuteMillisAt(s, a)
    ensures FromStrWith(s, exact) == ParseRanges(s, MinuteMillisRanges(a))
  {
    FromFields(s, exact, MinuteMillisRanges(a));
  }

  /** Fields holding `{}` and `{:0w}` texts read as their numbers. */
  lemma {:induction false} MinuteMillisSlots(s: string, a: nat, minutes: u64, seconds: u64, millis: u64)
    requires |s| == a + 7
    requires s[0..a] == Dec(minutes) && s[a + 1..a + 3] == Pad(seconds, 2)
      && s[a + 4..a + 7] == Pad(millis, 3)
    ensures FieldValue(s, Some(Slice(0, a))) == IntOk(minutes)
    ensures FieldValue(s, Some(Slice(a + 1, a + 3))) == IntOk(seconds)
    ensures FieldValue(s, Some(Slice(a + 4, a + 7))) == IntOk(millis)
  {
    FieldReadsDec(s, 0, a, minutes);
    FieldReads(s, a + 1, a + 3, seconds, 2);
    FieldReads(s, a + 4, a + 7, millis, 3);
  }

  /** A text laid out as `"{}:{:02}.{:03}"` whose fields read as clock values
      reads as their total. */
  lemma {:induction false} MinuteMillisFields(s: string, a: nat, minutes: u64, seconds: u64, millis: u64, exact: bool)
    requires MinuteMillisAt(s, a)
    requires s[0..a] == Dec(minutes) && s[a + 1..a + 3] == Pad(seconds, 2)
      && s[a + 4..a + 7] == Pad(millis, 3)
    requires minutes < 60 && seconds < 60 && millis < 1000
    ensures FromStrWith(s, exact) == Total(0, 0, minutes, seconds, millis * 1000)
  {
    MinuteMillisSlots(s, a, minutes, seconds, millis);
    MinuteMillisLayout(s, a, exact);
    MillisMicros(millis);
    RangesRead(s, MinuteMillisRanges(a),
               0, 0, minutes, seconds, millis, millis * 1000);
  }

  /** The text of such a span is `"{}:{:02}.{:03}"` of its clock fields. */
  lemma {:induction false} MinuteMillisFormat(span: TimeSpan, minutes: nat, seconds: nat, millis: nat)
    requires MINUTE <= span.nanos < HOUR
    requires var n := span.nanos;
      minutes == n / MINUTE && seconds == n % MINUTE / SECOND
        && millis == n % MINUTE % SECOND / MILLI
    requires millis > 0
    ensures Format(span) == Dec(minutes) + ":" + Pad(seconds, 2) + "." + Pad(millis, 3)
  {
  }

  /** The text `"{}:{:02}.{:03}"` of clock fields is laid out as such. */
  lemma {:induction false} MinuteMillisTextAt(s: string, minutes: u64, seconds: u64, millis: u64)
    requires s == Dec(minutes) + ":" + Pad(seconds, 2) + "." + Pad(millis, 3)
    requires minutes < 60 && seconds < 60 && millis < 1000
    ensures MinuteMillisAt(s, |Dec(minutes)|)
  {
    DecLength(minutes, 2);
    MinuteMillisSeps(s, Dec(minutes), Pad(seconds, 2), Pad(millis, 3));
  }

  /** Where the clock fields are in the text `"{}:{:02}.{:03}"`. */
  lemma {:induction false} MinuteMillisTextPieces(s: string, minutes: u64, seconds: u64, millis: u64)
    requires s == Dec(minutes) + ":" + Pad(seconds, 2) + "." + Pad(millis, 3)
    requires minutes < 60 && seconds < 60 && millis < 1000
    ensures var a := |Dec(minutes)|;
      s[0..a] == Dec(minutes) && s[a + 1..a + 3] == Pad(seconds, 2)
        && s[a + 4..a + 7] == Pad(millis, 3)
  {
    DecLength(minutes, 2);
    MinuteMillisSeps(s, Dec(minutes), Pad(seconds, 2), Pad(millis, 3));
  }

  /** The text `"{}:{:02}.{:03}"` of clock fields reads as their total. */
  lemma {:induction false} MinuteMillisText(s: string, minutes: u64, seconds: u64, millis: u64, exact: bool)
    requires s == Dec(minutes) + ":" + Pad(seconds, 2) + "." + Pad(millis, 3)
    requires minutes < 60 && seconds < 60 && millis < 1000
    ensures FromStrWith(s, exact) == Total(0, 0, minutes, seconds, millis * 1000)
  {
    MinuteMillisTextAt(s, minutes, seconds, millis);
    MinuteMillisTextPieces(s, minutes, seconds, millis);
    MinuteMillisFields(s, |Dec(minutes)|, minutes, seconds, millis, exact);
  }

  /** The text of such a span reads as the total of its clock fields. */
  lemma {:induction false} MinuteMillisShow(span: TimeSpan, minutes: u64, seconds: u64, millis: u64, exact: bool)
    requires MINUTE <= span.nanos < HOUR
    requires var n := span.nanos;
      minutes == n / MINUTE && seconds == n % MINUTE / SECOND
        && millis == n % MINUTE % SECOND / MILLI
    requires millis > 0
    requires minutes < 60 && seconds < 60 && millis < 1000
    ensures FromStrWith(Format(span), exact) == Total(0, 0, minutes, seconds, millis * 1000)
  {
    MinuteMillisFormat(span, minutes, seconds, millis);
    MinuteMillisText(Format(span), minutes, seconds, millis, exact);
  }

  /** `"{}:{:02}.{:03}"` reads back as the span cut to milliseconds. */
  lemma {:induction false} MinuteMillisReads(span: TimeSpan, exact: bool)
    requires MINUTE <= span.nanos < HOUR
    requires span.nanos % MINUTE % SECOND / MILLI > 0
    ensures FromStrWith(Format(span), exact) == Parsed(Shown(span))
  {
    var n := span.nanos;
    var minutes := n / MINUTE;
    var seconds := n % MINUTE / SECOND;
    var millis := n % MINUTE % SECOND / MILLI;
    MinuteClock(n, minutes, n % MINUTE, seconds, millis);
    MinuteMillisShow(span, minutes, seconds, millis, exact);
    ClockTotal(span, 0, 0, minutes, seconds, millis);
  }

  // ---------------------------------------------------------------------
  // "{}:{:02}"

  /** Where the separators of `"{}:{:02}"` are, the first field being
      `a` characters long. */
  predicate MinuteSecondsAt(s: string, a: nat) {
    AllAscii(s) && |s| == a + 3 && a <= 2
    && |Seps(s)| == 1 && Seps(s)[0] == Sep(a, ':')
  }

  /** The fields of `"{}:{:02}"`, the first being `a` characters long. */
  function MinuteSecondsRanges(a: nat): Ranges {
    Ranges(None, None, Some(Slice(0, a)), Some(Slice(a + 1, a + 3)), None, 0)
  }

  /** Digit strings joined as `"{}:{:02}"` have its separators, and the
      fields hold the strings. */
  lemma {:induction false} MinuteSecondsSeps(s: string, M: string, S: string)
    requires s == M + [':'] + S
    requires AllDigits(M) && AllDigits(S)
    requires |M| <= 2 && |S| == 2
    ensures MinuteSecondsAt(s, |M|)
    ensures var a := |M|;
      s[0..a] == M && s[a + 1..a + 3] == S
  {
    DigitsPlain(M);
    DigitsPlain(S);
    Shape2(s, M, ':', S);
  }

  /** A text laid out as `"{}:{:02}"` is read field by field. */
  lemma {:induction false} MinuteSecondsLayout(s: string, a: nat, exact: bool)
    requires MinuteSecondsAt(s, a)
    ensures FromStrWith(s, exact) == ParseRanges(s, MinuteSecondsRanges(a))
  {
    FromFields(s, exact, MinuteSecondsRanges(a));
  }

  /** Fields holding `{}` and `{:0w}` texts read as their numbers. */
  lemma {:induction false} MinuteSecondsSlots(s: string, a: nat, minutes: u64, seconds: u64)
    requires |s| == a + 3
    requires s[0..a] == Dec(minutes) && s[a + 1..a + 3] == Pad(seconds, 2)
    ensures FieldValue(s, Some(Slice(0, a))) == IntOk(minutes)
    ensures FieldValue(s, Some(Slice(a + 1, a + 3))) == IntOk(seconds)
  {
    FieldReadsDec(s, 0, a, minutes);
    FieldReads(s, a + 1, a + 3, seconds, 2);
  }

  /** A text laid out as `"{}:{:02}"` whose fields read as clock values
      reads as their total. */
  lemma {:induction false} MinuteSecondsFields(s: string, a: nat, minutes: u64, seconds: u64, exact: bool)
    requires MinuteSecondsAt(s, a)
    requires s[0..a] == Dec(minutes) && s[a + 1..a + 3] == Pad(seconds, 2)
    requires minutes < 60 && seconds < 60
    ensures FromStrWith(s, exact) == Total(0, 0, minutes, seconds, 0)
  {
    MinuteSecondsSlots(s, a, minutes, seconds);
    MinuteSecondsLayout(s, a, exact);
    NoMicros();
    RangesRead(s, MinuteSecondsRanges(a),
               0, 0, minutes, seconds, 0, 0);
  }

  /** The text of such a span is `"{}:{:02}"` of its clock fields. */
  lemma {:induction false} MinuteSecondsFormat(span: TimeSpan, minutes: nat, seconds: nat, millis: nat)
    requires MINUTE <= span.nanos < HOUR
    requires var n := span.nanos;
      minutes == n / MINUTE && seconds == n % MINUTE / SECOND
        && millis == n % MINUTE % SECOND / MILLI
    requires millis == 0
    ensures Format(span) == Dec(minutes) + ":" + Pad(seconds, 2)
  {
  }

  /** The text `"{}:{:02}"` of clock fields is laid out as such. */
  lemma {:induction false} MinuteSecondsTextAt(s: string, minutes: u64, seconds: u64)
    requires s == Dec(minutes) + ":" + Pad(seconds, 2)
    requires minutes < 60 && seconds < 60
    ensures MinuteSecondsAt(s, |Dec(minutes)|)
  {
    DecLength(minutes, 2);
    MinuteSecondsSeps(s, Dec(minutes), Pad(seconds, 2));
  }

  /** Where the clock fields are in the text `"{}:{:02}"`. */
  lemma {:induction false} MinuteSecondsTextPieces(s: string, minutes: u64, seconds: u64)
    requires s == Dec(minutes) + ":" + Pad(seconds, 2)
    requires minutes < 60 && seconds < 60
    ensures var a := |Dec(minutes)|;
      s[0..a] == Dec(minutes) && s[a + 1..a + 3] == Pad(seconds, 2)
  {
    DecLength(minutes, 2);
    MinuteSecondsSeps(s, Dec(minutes), Pad(seconds, 2));
  }

  /** The text `"{}:{:02}"` of clock fields reads as their total. */
  lemma {:induction false} MinuteSecondsText(s: string, minutes: u64, seconds: u64, exact: bool)
    requires s == Dec(minutes) + ":" + Pad(seconds, 2)
    requires minutes < 60 && seconds < 60
    ensures FromStrWith(s, exact) == Total(0, 0, minutes, seconds, 0)
  {
    MinuteSecondsTextAt(s, minutes, seconds);
    MinuteSecondsTextPieces(s, minutes, seconds);
    MinuteSecondsFields(s, |Dec(minutes)|, minutes, seconds, exact);
  }

  /** The text of such a span reads as the total of its clock fields. */
  lemma {:induction false} MinuteSecondsShow(span: TimeSpan, minutes: u64, seconds: u64, millis: u64, exact: bool)
    requires MINUTE <= span.nanos < HOUR
    requires var n := span.nanos;
      minutes == n / MINUTE && seconds == n % MINUTE / SECOND
        && millis == n % MINUTE % SECOND / MILLI
    requires millis == 0
    requires minutes < 60 && seconds < 60
    ensures FromStrWith(Format(span), exact) == Total(0, 0, minutes, seconds, 0)
  {
    MinuteSecondsFormat(span, minutes, seconds, millis);
    MinuteSecondsText(Format(span), minutes, seconds, exact);
  }

  /** `"{}:{:02}"` reads back as the span cut to milliseconds. */
  lemma {:induction false} MinuteSecondsReads(span: TimeSpan, exact: bool)
    requires MINUTE <= span.nanos < HOUR
    requires span.nanos % MINUTE % SECOND / MILLI == 0
    ensures FromStrWith(Format(span), exact) == Parsed(Shown(span))
  {
    var n := span.nanos;
    var minutes := n / MINUTE;
    var seconds := n % MINUTE / SECOND;
    var millis := n % MINUTE % SECOND / MILLI;
    MinuteClock(n, minutes, n % MINUTE, seconds, millis);
    MinuteSecondsShow(span, minutes, seconds, millis, exact);
    ClockTotal(span, 0, 0, minutes, seconds, 0);
  }
}
