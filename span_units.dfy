/** The unit forms of the text of src/span.rs, below a minute: whole
    seconds, milliseconds and microseconds read back; a fraction before
    the unit and the nanosecond form are refused. */
module SpanUnits {
  import opened Ints
  import opened Span
  import opened SpanDigits
  import opened SpanParse
  import opened SpanFormat
  import opened SpanText
  import DivMod

  predicate IsUnit(u: string) { u == "s" || u == "ms" || u == "us" }

  /** The span one of the suffixes `s`, `ms`, `us` stands for. */
  function UnitSpan(u: string): TimeSpan
    requires IsUnit(u)
  {
    if u == "s" then TimeSpan.SECOND else if u == "ms" then TimeSpan.MILLISECOND else TimeSpan.MICROSECOND
  }

  /** `{}` then a suffix: the suffix's first letter is the first separator. */
  lemma SuffixSeps(s: string, D: string, u: string)
    requires s == D + u
    requires AllDigits(D) && (IsUnit(u) || u == "ns")
    ensures AllAscii(s) && |s| == |D| + |u|
    ensures |Seps(s)| >= 1 && Seps(s)[0] == Sep(|D|, u[0])
    ensures s[..|D|] == D && s[|D|..] == u
  {
    DigitsPlain(D);
    assert s == D + [u[0]] + u[1..];
    Prepend(s, D, u[0], u[1..]);
  }

  /** A number then a unit suffix is laid out as such. */
  lemma SuffixLayout(s: string, a: nat, u: string, exact: bool)
    requires IsUnit(u)
    requires a <= |s| && |Seps(s)| >= 1 && Seps(s)[0] == Sep(a, u[0]) && s[a..] == u
    ensures LayoutOf(s, exact) == Suffixed(a, UnitSpan(u))
  {
    if u == "s" {
      SecondLayout(s, a, exact);
    } else if u == "ms" {
      MilliLayout(s, a, exact);
    } else {
      MicroLayout(s, a, exact);
    }
  }

  lemma SecondLayout(s: string, a: nat, exact: bool)
    requires a <= |s| && |Seps(s)| >= 1 && Seps(s)[0] == Sep(a, 's') && s[a..] == "s"
    ensures LayoutOf(s, exact) == Suffixed(a, TimeSpan.SECOND)
  {
    var first := Seps(s)[0];
    assert first.delim == 's' && first.pos == a;
    TrimUnit(s[a..]);
  }

  lemma MilliLayout(s: string, a: nat, exact: bool)
    requires a <= |s| && |Seps(s)| >= 1 && Seps(s)[0] == Sep(a, 'm') && s[a..] == "ms"
    ensures LayoutOf(s, exact) == Suffixed(a, TimeSpan.MILLISECOND)
  {
    var first := Seps(s)[0];
    assert first.delim == 'm' && first.pos == a;
    TrimUnit(s[a..]);
  }

  lemma MicroLayout(s: string, a: nat, exact: bool)
    requires a <= |s| && |Seps(s)| >= 1 && Seps(s)[0] == Sep(a, 'u') && s[a..] == "us"
    ensures LayoutOf(s, exact) == Suffixed(a, TimeSpan.MICROSECOND)
  {
    var first := Seps(s)[0];
    assert first.delim == 'u' && first.pos == a;
    TrimUnit(s[a..]);
  }

  /** A unit suffix has nothing to trim. */
  lemma TrimUnit(u: string)
    requires IsUnit(u)
    ensures Trim(u) == u
  {
    assert !IsTrimmed(u[0]) && !IsTrimmed(u[|u| - 1]);
  }

  /** The suffixed layout reads the number before the suffix. */
  lemma FromSuffixed(s: string, exact: bool, end: nat, unit: TimeSpan)
    requires AllAscii(s) && |s| <= MAX_TIME_SPAN_STRING && LayoutOf(s, exact) == Suffixed(end, unit)
    ensures end <= |s| && FromStrWith(s, exact) == ScaleText(Trim(s[..end]), unit)
  {
  }

  /** `{}ns`: the `n` is a separator no layout starts with. */
  lemma NanosLayout(s: string, a: nat, exact: bool)
    requires AllAscii(s) && |s| <= MAX_TIME_SPAN_STRING
    requires |Seps(s)| >= 1 && Seps(s)[0] == Sep(a, 'n')
    ensures FromStrWith(s, exact) == Failed(UnexpectedDelimiter('n', a))
  {
    var first := Seps(s)[0];
    assert first.delim !in {'d', 'D', 't', 'T', ':', '.', 's', 'm', 'u'};
    assert LayoutOf(s, exact) == Refused(Delim(first));
  }

  /** `{}.{:03}` then a suffix: the `.` comes first and the suffix's
      letter second. */
  lemma FractionSeps(s: string, D: string, F: string, u: string)
    requires s == D + "." + F + u
    requires AllDigits(D) && AllDigits(F) && |F| == 3 && IsUnit(u)
    ensures AllAscii(s) && |s| == |D| + 4 + |u|
    ensures |Seps(s)| >= 2 && Seps(s)[0] == Sep(|D|, '.') && Seps(s)[1] == Sep(|D| + 4, u[0])
  {
    DigitsPlain(D);
    DigitsPlain(F);
    var t := F + u;
    assert t == F + [u[0]] + u[1..];
    Prepend(t, F, u[0], u[1..]);
    assert s == D + ['.'] + t;
    Prepend(s, D, '.', t);
  }

  /** A `.` followed by any second separator is refused at the second. */
  lemma FractionLayout(s: string, a: nat, c: char, exact: bool)
    requires AllAscii(s) && |s| <= MAX_TIME_SPAN_STRING
    requires |Seps(s)| >= 2 && Seps(s)[0] == Sep(a, '.') && Seps(s)[1] == Sep(a + 4, c)
    ensures FromStrWith(s, exact) == Failed(UnexpectedDelimiter(c, a + 4))
  {
    var first := Seps(s)[0];
    assert first.delim == '.' && |Seps(s)| > 1;
    assert LayoutOf(s, exact) == Refused(Delim(Seps(s)[1]));
  }

  /** `{}` of any `u64` then a unit suffix reads as that many units, or
      panics when the product passes `u64::MAX`. */
  lemma WholeRead(s: string, v: u64, u: string, exact: bool)
    requires s == Dec(v) + u && IsUnit(u)
    ensures FromStrWith(s, exact) == Scale(v, UnitSpan(u))
    ensures v * UnitSpan(u).nanos <= U64_MAX ==> FromStrWith(s, exact) == Parsed(TimeSpan(v * UnitSpan(u).nanos))
    ensures v * UnitSpan(u).nanos > U64_MAX ==> FromStrWith(s, exact) == Panics
  {
    Pow10Fits(20);
    DecLength(v, 20);
    SuffixSeps(s, Dec(v), u);
    SuffixLayout(s, |Dec(v)|, u, exact);
    FromSuffixed(s, exact, |Dec(v)|, UnitSpan(u));
    ParseDec(v);
  }

  /** `{}.{:03}` then a unit suffix is refused at the suffix. */
  lemma FractionRead(s: string, v: nat, f: nat, u: string, exact: bool)
    requires s == Dec(v) + "." + Pad(f, 3) + u && IsUnit(u) && v < 1000 && f < 1000
    ensures FromStrWith(s, exact) == Failed(UnexpectedDelimiter(u[0], |Dec(v)| + 4))
  {
    DecLength(v, 3);
    FractionSeps(s, Dec(v), Pad(f, 3), u);
    FractionLayout(s, |Dec(v)|, u[0], exact);
  }

  // ---------------------------------------------------------------------
  // Seconds: "{}s" and "{}.{:03}s".

  lemma SecondsFormat(span: TimeSpan, seconds: nat, millis: nat)
    requires SECOND <= span.nanos < MINUTE
    requires seconds == span.nanos / SECOND && millis == span.nanos % SECOND / MILLI
    ensures seconds < 60 && millis < 1000
    ensures millis == 0 ==> Format(span) == Dec(seconds) + "s"
    ensures millis > 0 ==> Format(span) == Dec(seconds) + "." + Pad(millis, 3) + "s"
  {
  }

  /** Whole seconds read back. */
  lemma SecondsReads(span: TimeSpan, exact: bool)
    requires SECOND <= span.nanos < MINUTE && span.nanos % SECOND < MILLI
    ensures FromStrWith(Format(span), exact) == Parsed(Shown(span))
  {
    var n := span.nanos;
    var seconds := n / SECOND;
    SecondsFormat(span, seconds, n % SECOND / MILLI);
    WholeRead(Format(span), seconds, "s", exact);
    MilliCut(n, seconds * 1000, n % SECOND);
  }

  /** Seconds with milliseconds are refused at the `s`. */
  lemma SecondsRefused(span: TimeSpan, exact: bool)
    requires SECOND <= span.nanos < MINUTE && span.nanos % SECOND >= MILLI
    ensures FromStrWith(Format(span), exact)
            == Failed(UnexpectedDelimiter('s', |Dec(span.nanos / SECOND)| + 4))
  {
    var n := span.nanos;
    SecondsFormat(span, n / SECOND, n % SECOND / MILLI);
    FractionRead(Format(span), n / SECOND, n % SECOND / MILLI, "s", exact);
  }

  // ---------------------------------------------------------------------
  // Milliseconds: "{}ms" and "{}.{:03}ms".

  lemma MillisFormat(span: TimeSpan, millis: nat, micros: nat)
    requires MILLI <= span.nanos < SECOND
    requires millis == span.nanos / MILLI && micros == span.nanos % MILLI / MICRO
    ensures millis < 1000 && micros < 1000
    ensures micros == 0 ==> Format(span) == Dec(millis) + "ms"
    ensures micros > 0 ==> Format(span) == Dec(millis) + "." + Pad(micros, 3) + "ms"
  {
  }

  /** Whole milliseconds read back. */
  lemma MillisReads(span: TimeSpan, exact: bool)
    requires MILLI <= span.nanos < SECOND && span.nanos % MILLI < MICRO
    ensures FromStrWith(Format(span), exact) == Parsed(Shown(span))
  {
    var n := span.nanos;
    var millis := n / MILLI;
    MillisFormat(span, millis, n % MILLI / MICRO);
    WholeRead(Format(span), millis, "ms", exact);
    MicroCut(n, millis, n % MILLI);
  }

  /** Milliseconds with microseconds are refused at the `m`. */
  lemma MillisRefused(span: TimeSpan, exact: bool)
    requires MILLI <= span.nanos < SECOND && span.nanos % MILLI >= MICRO
    ensures FromStrWith(Format(span), exact)
            == Failed(UnexpectedDelimiter('m', |Dec(span.nanos / MILLI)| + 4))
  {
    var n := span.nanos;
    MillisFormat(span, n / MILLI, n % MILLI / MICRO);
    FractionRead(Format(span), n / MILLI, n % MILLI / MICRO, "ms", exact);
  }

  // ---------------------------------------------------------------------
  // Microseconds: "{}us" and "{}.{:03}us".

  lemma MicrosFormat(span: TimeSpan, micros: nat, nanos: nat)
    requires MICRO <= span.nanos < MILLI
    requires micros == span.nanos / MICRO && nanos == span.nanos % MICRO
    ensures micros < 1000 && nanos < 1000
    ensures nanos == 0 ==> Format(span) == Dec(micros) + "us"
    ensures nanos > 0 ==> Format(span) == Dec(micros) + "." + Pad(nanos, 3) + "us"
  {
  }

  /** Whole microseconds read back. */
  lemma MicrosReads(span: TimeSpan, exact: bool)
    requires MICRO <= span.nanos < MILLI && span.nanos % MICRO == 0
    ensures FromStrWith(Format(span), exact) == Parsed(Shown(span))
  {
    var n := span.nanos;
    MicrosFormat(span, n / MICRO, 0);
    WholeRead(Format(span), n / MICRO, "us", exact);
  }

  /** Microseconds with nanoseconds are refused at the `u`. */
  lemma MicrosRefused(span: TimeSpan, exact: bool)
    requires MICRO <= span.nanos < MILLI && span.nanos % MICRO > 0
    ensures FromStrWith(Format(span), exact)
            == Failed(UnexpectedDelimiter('u', |Dec(span.nanos / MICRO)| + 4))
  {
    var n := span.nanos;
    MicrosFormat(span, n / MICRO, n % MICRO);
    FractionRead(Format(span), n / MICRO, n % MICRO, "us", exact);
  }

  // ---------------------------------------------------------------------
  // Nanoseconds and zero.

  /** `{}ns` is refused at the `n`. */
  lemma NanosRefused(span: TimeSpan, exact: bool)
    requires 0 < span.nanos < MICRO
    ensures FromStrWith(Format(span), exact) == Failed(UnexpectedDelimiter('n', |Dec(span.nanos)|))
  {
    var s := Format(span);
    assert s == Dec(span.nanos) + "ns";
    DecLength(span.nanos, 3);
    SuffixSeps(s, Dec(span.nanos), "ns");
    NanosLayout(s, |Dec(span.nanos)|, exact);
  }

  /** The empty span is printed as `0`. */
  lemma ZeroFormat()
    ensures Format(TimeSpan.ZERO) == "0"
  {
  }

  /** The bare text `0` has no separator: it is read as zero seconds. */
  lemma ZeroText(s: string, exact: bool)
    requires s == "0"
    ensures FromStrWith(s, exact) == ScaleText(Trim(s), TimeSpan.SECOND)
  {
    assert IsAscii(s[0]) && !IsSeparator(s[0]);
    assert AllAscii(s);
    assert |Seps(s)| == 0;
    assert LayoutOf(s, exact) == Bare;
  }

  /** `0` reads back as the empty span. */
  lemma ZeroReads(exact: bool)
    ensures FromStrWith(Format(TimeSpan.ZERO), exact) == Parsed(TimeSpan.ZERO)
  {
    var s := Format(TimeSpan.ZERO);
    ZeroFormat();
    ZeroText(s, exact);
    ParseDec(0);
    assert s == Dec(0);
  }
}
