/** The cases of `FromStr for TimeSpan` (src/span.rs) one at a time: the
    checks that come before any other, the bare number, the unit suffixes
    and the bounds on clock fields. */
module SpanParseCases {
  import opened Ints
  import opened Wrappers
  import opened Span
  import opened SpanDigits
  import opened SpanParse
  import opened SpanFormat
  import opened SpanText
  import opened SpanUnits

  // ---------------------------------------------------------------------
  // The two checks before the separators are looked at.

  /** One character outside ASCII anywhere makes the text `NonASCII`,
      whatever its length and whatever else it holds. */
  lemma {:induction false} NonAsciiFirst(a: string, c: char, b: string, exact: bool)
    requires !IsAscii(c)
    ensures FromStrWith(a + [c] + b, exact) == Failed(NonAscii)
  {
    var s := a + [c] + b;
    assert s[|a|] == c;
  }

  /** ASCII text of more than 48 bytes is `StringTooLarge` with its
      length, whatever it holds. */
  lemma {:induction false} TooLargeFirst(s: string, exact: bool)
    requires AllAscii(s) && |s| > MAX_TIME_SPAN_STRING
    ensures FromStrWith(s, exact) == Failed(StringTooLarge(|s|))
  {
  }

  /** 49 zeros would read as zero seconds; the length check refuses them
      first. */
  lemma FortyNineZeros(exact: bool)
    ensures FromStrWith(seq(49, _ => '0'), exact) == Failed(StringTooLarge(49))
  {
    var s: string := seq(49, _ => '0');
    assert forall i :: 0 <= i < |s| ==> s[i] == '0';
    TooLargeFirst(s, exact);
  }

  // ---------------------------------------------------------------------
  // A number with no separator is seconds.

  /** `{}` of any `u64` has no separator and is read as that many seconds,
      or panics when the seconds pass `u64::MAX` nanoseconds. */
  lemma {:induction false} BareRead(v: u64, exact: bool)
    ensures FromStrWith(Dec(v), exact) == Scale(v, TimeSpan.SECOND)
    ensures v * SECOND <= U64_MAX ==> FromStrWith(Dec(v), exact) == Parsed(TimeSpan(v * SECOND))
    ensures v * SECOND > U64_MAX ==> FromStrWith(Dec(v), exact) == Panics
  {
    var s := Dec(v);
    Pow10Fits(20);
    DecLength(v, 20);
    DigitsPlain(s);
    assert |Seps(s)| == 0;
    assert LayoutOf(s, exact) == Bare;
    ParseDec(v);
  }

  /** `"90"` is ninety seconds. */
  lemma NinetySeconds(exact: bool)
    ensures FromStrWith("90", exact) == Parsed(TimeSpan(90 * SECOND))
  {
    assert Dec(90) == "90";
    BareRead(90, exact);
  }

  // ---------------------------------------------------------------------
  // Unit suffixes.

  /** The whole text a unit letter must begin, once trimmed. */
  function SuffixOf(letter: char): string {
    if letter == 's' then "s" else if letter == 'm' then "ms" else "us"
  }

  /** When the first separator is `s`, `m` or `u`, the text from it on
      must trim to `s`, `ms` or `us`; anything else is `UnexpectedSuffix`,
      whatever precedes the letter. */
  lemma {:induction false} SuffixRefused(s: string, exact: bool)
    requires AllAscii(s) && |s| <= MAX_TIME_SPAN_STRING
    requires |Seps(s)| >= 1 && Seps(s)[0].delim in {'s', 'm', 'u'}
    requires Trim(s[Seps(s)[0].pos..]) != SuffixOf(Seps(s)[0].delim)
    ensures FromStrWith(s, exact) == Failed(UnexpectedSuffix)
  {
    SuffixLayout(s, exact);
  }

  lemma {:induction false} SuffixLayout(s: string, exact: bool)
    requires |Seps(s)| >= 1 && Seps(s)[0].delim in {'s', 'm', 'u'}
    requires Trim(s[Seps(s)[0].pos..]) != SuffixOf(Seps(s)[0].delim)
    ensures LayoutOf(s, exact) == Refused(UnexpectedSuffix)
  {
    var first := Seps(s)[0];
    if first.delim == 's' {
      assert Trim(s[first.pos..]) != "s";
    } else if first.delim == 'm' {
      assert Trim(s[first.pos..]) != "ms";
    } else {
      assert Trim(s[first.pos..]) != "us";
    }
  }

  /** `"1sx"`: the `x` after the `s` is an unexpected suffix. */
  lemma SecondsWithTail(exact: bool)
    ensures FromStrWith("1sx", exact) == Failed(UnexpectedSuffix)
  {
    SecondsWithTailText();
    SuffixRefused("1sx", exact);
  }

  lemma SecondsWithTailText()
    ensures AllAscii("1sx") && Seps("1sx") == [Sep(1, 's'), Sep(2, 'x')]
    ensures Trim("1sx"[1..]) != SuffixOf('s')
  {
    var s := "1sx";
    assert SepsFrom(s, 3) == [];
    assert SepsFrom(s, 2) == [Sep(2, 'x')];
    assert SepsFrom(s, 1) == [Sep(1, 's')] + [Sep(2, 'x')];
    assert s[1..] == "sx";
    assert Trim("sx") == "sx";
  }

  /** `"5msec"`: `m` must be followed by `s` and nothing more. */
  lemma MillisWithTail(exact: bool)
    ensures FromStrWith("5msec", exact) == Failed(UnexpectedSuffix)
  {
    MillisWithTailSeps();
    MillisWithTailText();
    SuffixRefused("5msec", exact);
  }

  lemma MillisWithTailSeps()
    ensures Seps("5msec") == [Sep(1, 'm'), Sep(2, 's'), Sep(3, 'e'), Sep(4, 'c')]
  {
    var s := "5msec";
    assert SepsFrom(s, 5) == [];
    assert SepsFrom(s, 4) == [Sep(4, 'c')];
    assert SepsFrom(s, 3) == [Sep(3, 'e')] + [Sep(4, 'c')];
    assert SepsFrom(s, 2) == [Sep(2, 's')] + [Sep(3, 'e'), Sep(4, 'c')];
    assert SepsFrom(s, 1) == [Sep(1, 'm')] + [Sep(2, 's'), Sep(3, 'e'), Sep(4, 'c')];
  }

  lemma MillisWithTailText()
    ensures AllAscii("5msec")
    ensures Trim("5msec"[1..]) != SuffixOf('m')
  {
    assert "5msec"[1..] == "msec";
    assert Trim("msec") == "msec";
  }

  /** `"7u"`: `u` alone is not a unit. */
  lemma MicrosCut(exact: bool)
    ensures FromStrWith("7u", exact) == Failed(UnexpectedSuffix)
  {
    MicrosCutText();
    SuffixRefused("7u", exact);
  }

  lemma MicrosCutText()
    ensures AllAscii("7u") && Seps("7u") == [Sep(1, 'u')]
    ensures Trim("7u"[1..]) != SuffixOf('u')
  {
    var s := "7u";
    assert SepsFrom(s, 2) == [];
    assert SepsFrom(s, 1) == [Sep(1, 'u')];
    assert s[1..] == "u";
    assert Trim("u") == "u";
  }

  /** Every `u64` followed by `s`, `ms` or `us` reads as that many units,
      `"Ns"`, `"Nms"` and `"Nus"` alike. */
  lemma {:induction false} UnitRead(v: u64, u: string, exact: bool)
    requires IsUnit(u)
    ensures v * UnitSpan(u).nanos <= U64_MAX ==> FromStrWith(Dec(v) + u, exact) == Parsed(TimeSpan(v * UnitSpan(u).nanos))
    ensures v * UnitSpan(u).nanos > U64_MAX ==> FromStrWith(Dec(v) + u, exact) == Panics
  {
    WholeRead(Dec(v) + u, v, u, exact);
  }

  // ---------------------------------------------------------------------
  // Clock fields past their bounds.

  /** The fields `Ranges::parse` reads, when the dispatch lays the text
      out as fields. */
  function FieldsOf(s: string, exact: bool): Ranges
    requires LayoutOf(s, exact).Fields?
  {
    LayoutOf(s, exact).ranges
  }

  /** Seconds above 59 are refused with their value when a minutes field
      is present. */
  lemma {:induction false} SecondsBound(s: string, exact: bool, n: u64)
    requires AllAscii(s) && |s| <= MAX_TIME_SPAN_STRING && LayoutOf(s, exact).Fields?
    requires FieldsOf(s, exact).minutes.Some?
    requires FieldValue(s, FieldsOf(s, exact).seconds) == IntOk(n) && n > 59
    ensures FromStrWith(s, exact) == Failed(SecondsOutOfBound(n))
  {
  }

  /** Minutes above 59 are refused with their value when an hours field is
      present and the seconds read within their bound. */
  lemma {:induction false} MinutesBound(s: string, exact: bool, n: u64)
    requires AllAscii(s) && |s| <= MAX_TIME_SPAN_STRING && LayoutOf(s, exact).Fields?
    requires var r := FieldsOf(s, exact);
      && FieldValue(s, r.seconds).IntOk? && (r.minutes.Some? ==> FieldValue(s, r.seconds).value <= 59)
      && r.hours.Some? && FieldValue(s, r.minutes) == IntOk(n) && n > 59
    ensures FromStrWith(s, exact) == Failed(MinutesOutOfBound(n))
  {
  }

  /** Hours above 23 are refused with their value when a days field is
      present and the smaller fields read within their bounds. */
  lemma {:induction false} HoursBound(s: string, exact: bool, n: u64)
    requires AllAscii(s) && |s| <= MAX_TIME_SPAN_STRING && LayoutOf(s, exact).Fields?
    requires var r := FieldsOf(s, exact);
      && FieldValue(s, r.seconds).IntOk? && (r.minutes.Some? ==> FieldValue(s, r.seconds).value <= 59)
      && FieldValue(s, r.minutes).IntOk? && (r.hours.Some? ==> FieldValue(s, r.minutes).value <= 59)
      && r.days.Some? && FieldValue(s, r.hours) == IntOk(n) && n > 23
    ensures FromStrWith(s, exact) == Failed(HoursOutOfBound(n))
  {
  }

  /** `"1:60"` has 60 seconds beside a minutes field. */
  lemma SixtySeconds(exact: bool)
    ensures FromStrWith("1:60", exact) == Failed(SecondsOutOfBound(60))
  {
    SixtySecondsLayout(exact);
    SixtySecondsFields();
    SecondsBound("1:60", exact, 60);
  }

  lemma SixtySecondsLayout(exact: bool)
    ensures AllAscii("1:60")
    ensures LayoutOf("1:60", exact) == Fields(Ranges(None, None, Some(Slice(0, 1)), Some(Slice(2, 4)), None, 0))
  {
    SixtySecondsSeps();
  }

  lemma SixtySecondsFields()
    ensures FieldValue("1:60", Some(Slice(2, 4))) == IntOk(60)
  {
    assert "1:60"[2..4] == "60" && Trim("60") == "60";
    assert ParseU64("60") == IntOk(60);
  }

  /** `"1:60:00"` has 60 minutes beside an hours field. */
  lemma SixtyMinutes(exact: bool)
    ensures FromStrWith("1:60:00", exact) == Failed(MinutesOutOfBound(60))
  {
    SixtyMinutesLayout(exact);
    SixtyMinutesFields();
    MinutesBound("1:60:00", exact, 60);
  }

  lemma SixtyMinutesLayout(exact: bool)
    ensures AllAscii("1:60:00")
    ensures LayoutOf("1:60:00", exact)
      == Fields(Ranges(None, Some(Slice(0, 1)), Some(Slice(2, 4)), Some(Slice(5, 7)), None, 0))
  {
    SixtyMinutesSeps();
    var seps := Seps("1:60:00");
    assert seps[0].delim !in {'d', 'D', 't', 'T'} && seps[0].delim == ':';
    assert |seps| == 2 && seps[1].delim == ':';
  }

  lemma SixtyMinutesFields()
    ensures FieldValue("1:60:00", Some(Slice(5, 7))) == IntOk(0)
    ensures FieldValue("1:60:00", Some(Slice(2, 4))) == IntOk(60)
  {
    assert "1:60:00"[2..4] == "60" && Trim("60") == "60";
    assert "1:60:00"[5..7] == "00" && Trim("00") == "00";
    assert ParseU64("60") == IntOk(60) && ParseU64("00") == IntOk(0);
  }

  /** `"1d24:00"` has 24 hours beside a days field. */
  lemma TwentyFourHours(exact: bool)
    ensures FromStrWith("1d24:00", exact) == Failed(HoursOutOfBound(24))
  {
    TwentyFourHoursLayout(exact);
    TwentyFourHoursFields();
    HoursBound("1d24:00", exact, 24);
  }

  lemma TwentyFourHoursLayout(exact: bool)
    ensures AllAscii("1d24:00")
    ensures LayoutOf("1d24:00", exact)
      == Fields(Ranges(Some(Slice(0, 1)), Some(Slice(2, 4)), Some(Slice(5, 7)), None, None, 0))
  {
    TwentyFourHoursSeps();
    var seps := Seps("1d24:00");
    assert seps[0].delim in {'d', 'D', 't', 'T'};
    assert |seps| == 2 && seps[1].delim == ':';
  }

  lemma TwentyFourHoursFields()
    ensures FieldValue("1d24:00", None) == IntOk(0)
    ensures FieldValue("1d24:00", Some(Slice(5, 7))) == IntOk(0)
    ensures FieldValue("1d24:00", Some(Slice(2, 4))) == IntOk(24)
  {
    assert "1d24:00"[2..4] == "24" && Trim("24") == "24";
    assert "1d24:00"[5..7] == "00" && Trim("00") == "00";
    assert ParseU64("24") == IntOk(24) && ParseU64("00") == IntOk(0);
  }

  // Separators of the concrete texts, one position at a time.

  lemma SixtySecondsSeps()
    ensures AllAscii("1:60")
    ensures Seps("1:60") == [Sep(1, ':')]
  {
    var s := "1:60";
    assert SepsFrom(s, 4) == [];
    assert SepsFrom(s, 3) == [];
    assert SepsFrom(s, 2) == [];
    assert SepsFrom(s, 1) == [Sep(1, ':')];
    assert SepsFrom(s, 0) == [Sep(1, ':')];
  }

  lemma SixtyMinutesSeps()
    ensures AllAscii("1:60:00")
    ensures Seps("1:60:00") == [Sep(1, ':'), Sep(4, ':')]
  {
    var s := "1:60:00";
    assert SepsFrom(s, 7) == [];
    assert SepsFrom(s, 6) == [];
    assert SepsFrom(s, 5) == [];
    assert SepsFrom(s, 4) == [Sep(4, ':')];
    assert SepsFrom(s, 3) == [Sep(4, ':')];
    assert SepsFrom(s, 2) == [Sep(4, ':')];
    assert SepsFrom(s, 1) == [Sep(1, ':')] + [Sep(4, ':')];
    assert SepsFrom(s, 0) == [Sep(1, ':')] + [Sep(4, ':')];
  }

  lemma TwentyFourHoursSeps()
    ensures AllAscii("1d24:00")
    ensures Seps("1d24:00") == [Sep(1, 'd'), Sep(4, ':')]
  {
    var s := "1d24:00";
    assert SepsFrom(s, 7) == [];
    assert SepsFrom(s, 6) == [];
    assert SepsFrom(s, 5) == [];
    assert SepsFrom(s, 4) == [Sep(4, ':')];
    assert SepsFrom(s, 3) == [Sep(4, ':')];
    assert SepsFrom(s, 2) == [Sep(4, ':')];
    assert SepsFrom(s, 1) == [Sep(1, 'd')] + [Sep(4, ':')];
    assert SepsFrom(s, 0) == [Sep(1, 'd')] + [Sep(4, ':')];
  }
}
