/** The printing and parsing examples of src/span.rs, and the text on
    which the fraction's digit count as written goes wrong. */
module SpanExamples {
  import opened Ints
  import opened Wrappers
  import opened Span
  import opened SpanDigits
  import opened SpanParse
  import opened SpanFormat
  import opened SpanText
  import SpanReadback
  import SpanClock
  import SpanUnits

  /** One hour, two minutes and eleven seconds. */
  function HourTwoEleven(): TimeSpan {
    TimeSpan.HOUR.AddOp(TimeSpan.MINUTE.MulOp(2)).AddOp(TimeSpan.SECOND.MulOp(11))
  }

  /** Two minutes, eleven seconds and eleven milliseconds. */
  function TwoElevenEleven(): TimeSpan {
    TimeSpan.MINUTE.MulOp(2).AddOp(TimeSpan.SECOND.MulOp(11)).AddOp(TimeSpan.MILLISECOND.MulOp(11))
  }

  /** `TimeSpan.DAY` is printed as `1d00:00`. */
  lemma PrintDay()
    ensures Format(TimeSpan.DAY) == "1d00:00"
  {
    SpanClock.DayMinutesFormat(TimeSpan.DAY, 1, 0, 0, 0, 0);
    assert Dec(1) == "1" && Pad(0, 2) == "00";
  }

  /** `1d00:00` is read back as `TimeSpan.DAY`. */
  lemma ParseDay()
    ensures FromStrAsWritten("1d00:00") == Parsed(TimeSpan.DAY)
  {
    PrintDay();
    ReadDay();
  }

  /** The day's text reads back as the day. */
  lemma ReadDay()
    ensures FromStrAsWritten(Format(TimeSpan.DAY)) == Parsed(TimeSpan.DAY)
  {
    SpanReadback.FormatParse(TimeSpan.DAY, false);
  }

  /** `TimeSpan.HOUR` is printed as `1:00:00`. */
  lemma PrintHour()
    ensures Format(TimeSpan.HOUR) == "1:00:00"
  {
    SpanClock.HourSecondsFormat(TimeSpan.HOUR, 1, 0, 0, 0);
    assert Dec(1) == "1" && Pad(0, 2) == "00";
  }

  /** `1:00:00` is read back as `TimeSpan.HOUR`. */
  lemma ParseHour()
    ensures FromStrAsWritten("1:00:00") == Parsed(TimeSpan.HOUR)
  {
    PrintHour();
    ReadHour();
  }

  /** The hour's text reads back as the hour. */
  lemma ReadHour()
    ensures FromStrAsWritten(Format(TimeSpan.HOUR)) == Parsed(TimeSpan.HOUR)
  {
    SpanReadback.FormatParse(TimeSpan.HOUR, false);
  }

  /** `TimeSpan.MINUTE` is printed as `1:00`. */
  lemma PrintMinute()
    ensures Format(TimeSpan.MINUTE) == "1:00"
  {
    SpanClock.MinuteSecondsFormat(TimeSpan.MINUTE, 1, 0, 0);
    assert Dec(1) == "1" && Pad(0, 2) == "00";
  }

  /** `1:00` is read back as `TimeSpan.MINUTE`. */
  lemma ParseMinute()
    ensures FromStrAsWritten("1:00") == Parsed(TimeSpan.MINUTE)
  {
    PrintMinute();
    ReadMinute();
  }

  /** The minute's text reads back as the minute. */
  lemma ReadMinute()
    ensures FromStrAsWritten(Format(TimeSpan.MINUTE)) == Parsed(TimeSpan.MINUTE)
  {
    SpanReadback.FormatParse(TimeSpan.MINUTE, false);
  }

  /** `TimeSpan.SECOND` is printed as `1s`. */
  lemma PrintSecond()
    ensures Format(TimeSpan.SECOND) == "1s"
  {
    SpanUnits.SecondsFormat(TimeSpan.SECOND, 1, 0);
    assert Dec(1) == "1";
  }

  /** `1s` is read back as `TimeSpan.SECOND`. */
  lemma ParseSecond()
    ensures FromStrAsWritten("1s") == Parsed(TimeSpan.SECOND)
  {
    PrintSecond();
    ReadSecond();
  }

  /** The second's text reads back as the second. */
  lemma ReadSecond()
    ensures FromStrAsWritten(Format(TimeSpan.SECOND)) == Parsed(TimeSpan.SECOND)
  {
    SpanReadback.FormatParse(TimeSpan.SECOND, false);
  }

  /** One hour, two minutes and eleven seconds are printed as `1:02:11`. */
  lemma PrintHourTwoEleven()
    ensures Format(HourTwoEleven()) == "1:02:11"
  {
    HourTwoElevenNanos();
    SpanClock.HourSecondsFormat(TimeSpan(3_731_000_000_000), 1, 2, 11, 0);
    assert Dec(1) == "1" && Pad(2, 2) == "02" && Pad(11, 2) == "11";
  }

  lemma HourTwoElevenNanos()
    ensures HourTwoEleven() == TimeSpan(3_731_000_000_000)
  {
  }

  /** `1:02:11` is read back as one hour, two minutes and eleven seconds. */
  lemma ParseHourTwoEleven()
    ensures FromStrAsWritten("1:02:11") == Parsed(HourTwoEleven())
  {
    PrintHourTwoEleven();
    ReadHourTwoEleven();
  }

  /** Its text reads back as the same span. */
  lemma ReadHourTwoEleven()
    ensures FromStrAsWritten(Format(HourTwoEleven())) == Parsed(HourTwoEleven())
  {
    HourTwoElevenNanos();
    SpanReadback.FormatParse(HourTwoEleven(), false);
  }

  /** Two minutes, eleven seconds and eleven milliseconds are printed as `2:11.011`. */
  lemma PrintTwoElevenEleven()
    ensures Format(TwoElevenEleven()) == "2:11.011"
  {
    TwoElevenElevenNanos();
    SpanClock.MinuteMillisFormat(TimeSpan(131_011_000_000), 2, 11, 11);
    assert Dec(2) == "2" && Pad(11, 2) == "11" && Pad(11, 3) == "011";
  }

  lemma TwoElevenElevenNanos()
    ensures TwoElevenEleven() == TimeSpan(131_011_000_000)
  {
  }

  /** `2:11.011` is read back as two minutes, eleven seconds and eleven
      milliseconds. */
  lemma ParseTwoElevenEleven()
    ensures FromStrAsWritten("2:11.011") == Parsed(TwoElevenEleven())
  {
    PrintTwoElevenEleven();
    ReadTwoElevenEleven();
  }

  /** Its text reads back as the same span. */
  lemma ReadTwoElevenEleven()
    ensures FromStrAsWritten(Format(TwoElevenEleven())) == Parsed(TwoElevenEleven())
  {
    TwoElevenElevenNanos();
    SpanReadback.FormatParse(TwoElevenEleven(), false);
  }

  /** The text `2:11.011 ` (one trailing space): a `:` and a `.`, the
      space being part of the fraction's field. */
  lemma TrailingText(s: string)
    requires s == "2:11.011 "
    ensures AllAscii(s) && |s| == 9
    ensures |Seps(s)| == 2 && Seps(s)[0] == Sep(1, ':') && Seps(s)[1] == Sep(4, '.')
    ensures s[0..1] == Dec(2) && s[2..4] == Pad(11, 2) && s[5..9] == Pad(11, 3) + " "
  {
    TrailingPieces(s);
    TrailingPlain();
    Shape3(s, "2", ':', "11", '.', "011 ");
    TrailingValues();
  }

  /** The text cut at its two separators. */
  lemma TrailingPieces(s: string)
    requires s == "2:11.011 "
    ensures s == "2" + [':'] + "11" + ['.'] + "011 "
  {
  }

  /** Its fields hold no separator and only ASCII. */
  lemma TrailingPlain()
    ensures PlainAscii("2") && PlainAscii("11") && PlainAscii("011 ")
  {
    var f := "011 ";
    assert f[0] == '0' && f[1] == '1' && f[2] == '1' && f[3] == ' ';
  }

  /** The fields as `fmt` writes them. */
  lemma TrailingValues()
    ensures Dec(2) == "2" && Pad(11, 2) == "11" && Pad(11, 3) + " " == "011 "
  {
    assert Dec(11) == "11";
    assert Pad(11, 3) == "011";
  }

  /** Such a text is read in minutes, seconds and a fraction running to
      its end: four characters as written, the trimmed field's three
      characters with `exact`. */
  lemma TrailingLayout(s: string, exact: bool)
    requires AllAscii(s) && |s| == 9
    requires |Seps(s)| == 2 && Seps(s)[0] == Sep(1, ':') && Seps(s)[1] == Sep(4, '.')
    requires s[5..9] == Pad(11, 3) + " "
    ensures FromStrWith(s, exact)
            == ParseRanges(s, Ranges(None, None, Some(Slice(0, 1)), Some(Slice(2, 4)), Some(Slice(5, 9)),
                                     if exact then 3 else 4))
  {
    TrailingTrim(s[5..9]);
    FromFields(s, exact, Ranges(None, None, Some(Slice(0, 1)), Some(Slice(2, 4)), Some(Slice(5, 9)),
                                if exact then 3 else 4));
  }

  /** `011 ` trims to `011`, which reads as eleven. */
  lemma TrailingTrim(f: string)
    requires f == Pad(11, 3) + " "
    ensures Trim(f) == Pad(11, 3) && |Trim(f)| == 3 && ParseU64(Trim(f)) == IntOk(11)
  {
    ParsePad(11, 3);
    assert f[..3] == Pad(11, 3);
    assert TrimStart(f) == f;
    assert TrimEnd(f) == TrimEnd(f[..3]);
  }

  /** The fraction reads as eleven: 1100 microseconds over four digits,
      11000 over three. */
  lemma TrailingMicros()
    ensures Micros(11, 4) == Some(1100) && Micros(11, 3) == Some(11_000)
  {
    assert Pow10(2) == 100 && Pow10(3) == 1000;
  }

  /** With one trailing space, the fraction `011` is taken to have four
      digits as written, and so reads as 1.1 ms instead of 11 ms. */
  lemma TrailingSpaceFraction()
    ensures FromStrAsWritten("2:11.011 ") == Parsed(TimeSpan(131_001_100_000))
    ensures FromStr("2:11.011 ") == Parsed(TwoElevenEleven())
  {
    var s := "2:11.011 ";
    TrailingText(s);
    TrailingLayout(s, false);
    TrailingLayout(s, true);
    FieldReadsDec(s, 0, 1, 2);
    FieldReads(s, 2, 4, 11, 2);
    TrailingTrim(s[5..9]);
    TrailingMicros();
    var r := Ranges(None, None, Some(Slice(0, 1)), Some(Slice(2, 4)), Some(Slice(5, 9)), 4);
    RangesRead(s, r, 0, 0, 2, 11, 11, 1100);
    RangesRead(s, r.(denom := 3), 0, 0, 2, 11, 11, 11_000);
  }
}
