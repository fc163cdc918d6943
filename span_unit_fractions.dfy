/** A reading of the two unit forms that `TimeSpan::fmt` (src/span.rs)
    writes and `from_str` refuses: `{}.{:03}` before `s`, `ms` or `us`,
    and `{}ns`. Every other text is read exactly as `from_str` reads it,
    and with these two forms every text `fmt` writes reads back. */
module SpanUnitFractions {
  import opened Ints
  import opened Wrappers
  import opened Span
  import opened SpanDigits
  import opened SpanParse
  import opened SpanFormat
  import opened SpanText
  import opened SpanUnits
  import SpanReadback

  /** A whole number of units and a fraction of one, its digits counted as
      written; the sum is cut to whole nanoseconds and panics past
      `u64::MAX` as the whole-unit reading does. */
  function ScaleFraction(whole: string, fract: string, unit: TimeSpan): (r: ParseResult)
    ensures r.Failed? <==> ParseU64(whole).IntErr? || ParseU64(fract).IntErr?
    ensures r.Parsed? ==> ParseU64(whole).IntOk? && ParseU64(fract).IntOk?
  {
    var w := ParseU64(whole);
    var f := ParseU64(fract);
    if w.IntErr? then Failed(IntParseError(w.kind))
    else if f.IntErr? then Failed(IntParseError(f.kind))
    else
      var total := FractionTotal(w.value, f.value, unit.nanos, Pow10(|fract|));
      if total > U64_MAX then Panics else Parsed(TimeSpan(total))
  }

  /** `w` whole units of `u` nanoseconds and `f / p` of one, cut to whole
      nanoseconds. */
  function FractionTotal(w: nat, f: nat, u: nat, p: nat): nat
    requires p >= 1
  {
    DivMod.MulMono(0, w, u);
    DivMod.MulMono(0, f, u);
    w * u + f * u / p
  }

  /** The span read is the exact value of `whole.fract` units cut down to
      whole nanoseconds: less than one nanosecond below it. */
  lemma {:induction false} ScaleFractionBounds(whole: string, fract: string, unit: TimeSpan)
    requires ScaleFraction(whole, fract, unit).Parsed?
    ensures var n := ScaleFraction(whole, fract, unit).span.nanos;
      var exact := (ParseU64(whole).value * Pow10(|fract|) + ParseU64(fract).value) * unit.nanos;
      n * Pow10(|fract|) <= exact < (n + 1) * Pow10(|fract|)
  {
    FractionBounds(ParseU64(whole).value, ParseU64(fract).value, unit.nanos, Pow10(|fract|));
  }

  lemma FractionBounds(w: nat, f: nat, u: nat, p: nat)
    requires p >= 1
    ensures (w * u + f * u / p) * p <= (w * p + f) * u < (w * u + f * u / p + 1) * p
  {
    var q := f * u / p;
    DivMod.DivMulBound(f * u, p);
    assert q * p <= f * u < (q + 1) * p;
    calc {
      (w * u + q) * p;
      == w * u * p + q * p;
      == (w * p) * u + q * p;
    }
    calc {
      (w * u + q + 1) * p;
      == (w * p) * u + (q + 1) * p;
    }
  }

  /** `from_str` with the two unit forms added: a `.` whose next separator
      begins a unit that ends the text, and `ns` after the first number. */
  function FromStrUnits(s: string, exact: bool): (r: ParseResult)
    ensures !FromStrWith(s, exact).Failed? ==> r == FromStrWith(s, exact)
    ensures FromStrWith(s, exact).Failed? && !FromStrWith(s, exact).error.UnexpectedDelimiter?
      ==> r == FromStrWith(s, exact)
  {
    if !AllAscii(s) || |s| > MAX_TIME_SPAN_STRING then FromStrWith(s, exact)
    else
      var seps := Seps(s);
      if |seps| >= 2 && seps[0].delim == '.' && IsUnit(Trim(s[seps[1].pos..])) then
        FractionRefused(s, exact);
        ScaleFraction(Trim(s[..seps[0].pos]), Trim(s[seps[0].pos + 1..seps[1].pos]),
                      UnitSpan(Trim(s[seps[1].pos..])))
      else if |seps| >= 1 && seps[0].delim == 'n' && Trim(s[seps[0].pos..]) == "ns" then
        NanosRefusedAt(s, exact);
        ScaleText(Trim(s[..seps[0].pos]), TimeSpan.NANOSECOND)
      else FromStrWith(s, exact)
  }

  /** A `.` followed by a second separator: `from_str` refuses it there. */
  lemma {:induction false} FractionRefused(s: string, exact: bool)
    requires AllAscii(s) && |s| <= MAX_TIME_SPAN_STRING
    requires |Seps(s)| >= 2 && Seps(s)[0].delim == '.'
    ensures FromStrWith(s, exact) == Failed(Delim(Seps(s)[1]))
  {
    var first := Seps(s)[0];
    assert first.delim !in {'d', 'D', 't', 'T'} && first.delim != ':';
    assert LayoutOf(s, exact) == Refused(Delim(Seps(s)[1]));
  }

  /** An `n` first: `from_str` refuses it there. */
  lemma {:induction false} NanosRefusedAt(s: string, exact: bool)
    requires AllAscii(s) && |s| <= MAX_TIME_SPAN_STRING
    requires |Seps(s)| >= 1 && Seps(s)[0].delim == 'n'
    ensures FromStrWith(s, exact) == Failed(Delim(Seps(s)[0]))
  {
    var first := Seps(s)[0];
    assert first.delim !in {'d', 'D', 't', 'T', ':', '.', 's', 'm', 'u'};
    assert LayoutOf(s, exact) == Refused(Delim(first));
  }

  /** `{}.{:03}` then a unit reads as the whole units plus the thousandths
      of one. */
  lemma {:induction false} FractionUnitRead(s: string, v: nat, f: nat, u: string, exact: bool)
    requires s == Dec(v) + "." + Pad(f, 3) + u && IsUnit(u) && v < 1000 && f < 1000
    ensures FromStrUnits(s, exact).Parsed?
    ensures FromStrUnits(s, exact).span.nanos == v * UnitSpan(u).nanos + f * UnitSpan(u).nanos / 1000
  {
    FractionDispatch(s, v, f, u, exact);
    ThousandthsRead(v, f, UnitSpan(u));
  }

  /** A number and three fraction digits below a thousand each, in units
      of at most a second, read without overflow. */
  lemma {:induction false} ThousandthsRead(v: nat, f: nat, unit: TimeSpan)
    requires v < 1000 && f < 1000 && unit.nanos <= SECOND
    ensures ScaleFraction(Dec(v), Pad(f, 3), unit).Parsed?
    ensures ScaleFraction(Dec(v), Pad(f, 3), unit).span.nanos == v * unit.nanos + f * unit.nanos / 1000
  {
    ParseDec(v);
    ParsePad(f, 3);
    Pow10Six();
    DecLength(f, 3);
    assert |Pad(f, 3)| == 3;
    DivMod.MulMono(v, 1000, unit.nanos);
    DivMod.MulMono(f, 1000, unit.nanos);
    DivMod.MulMono(0, f, unit.nanos);
    DivMod.DivAtMost(f * unit.nanos, 1000);
    assert v * unit.nanos + f * unit.nanos / 1000 <= U64_MAX;
  }

  /** `{}.{:03}` then a unit takes the fraction branch, with the number,
      the fraction and the unit cut out whole. */
  lemma {:induction false} FractionDispatch(s: string, v: nat, f: nat, u: string, exact: bool)
    requires s == Dec(v) + "." + Pad(f, 3) + u && IsUnit(u) && v < 1000 && f < 1000
    ensures FromStrUnits(s, exact) == ScaleFraction(Dec(v), Pad(f, 3), UnitSpan(u))
  {
    ThousandthsText(v, f);
    FractionCuts(s, Dec(v), Pad(f, 3), u);
    FractionBranch(s, exact);
  }

  /** The number and the fraction as `fmt` writes them: digits with
      nothing to trim, at most three of the one and exactly three of the
      other. */
  lemma {:induction false} ThousandthsText(v: nat, f: nat)
    requires v < 1000 && f < 1000
    ensures AllDigits(Dec(v)) && |Dec(v)| <= 3 && Trim(Dec(v)) == Dec(v)
    ensures AllDigits(Pad(f, 3)) && |Pad(f, 3)| == 3 && Trim(Pad(f, 3)) == Pad(f, 3)
  {
    DecLength(v, 3);
    DecLength(f, 3);
    ParseDec(v);
    ParsePad(f, 3);
  }

  /** The same for any digits: a number of at most three, three fraction
      digits and a unit. */
  lemma {:induction false} FractionCuts(s: string, D: string, F: string, u: string)
    requires s == D + "." + F + u && IsUnit(u)
    requires AllDigits(D) && AllDigits(F) && |D| <= 3 && |F| == 3
    requires Trim(D) == D && Trim(F) == F
    ensures AllAscii(s) && |s| <= MAX_TIME_SPAN_STRING
    ensures |Seps(s)| >= 2 && Seps(s)[0].delim == '.'
    ensures Trim(s[Seps(s)[1].pos..]) == u
    ensures Trim(s[..Seps(s)[0].pos]) == D
    ensures Trim(s[Seps(s)[0].pos + 1..Seps(s)[1].pos]) == F
  {
    FractionSeps(s, D, F, u);
    FractionParts(s, D, F, u);
    TrimUnit(u);
  }

  /** The fraction branch, for any text that takes it. */
  lemma {:induction false} FractionBranch(s: string, exact: bool)
    requires AllAscii(s) && |s| <= MAX_TIME_SPAN_STRING
    requires |Seps(s)| >= 2 && Seps(s)[0].delim == '.' && IsUnit(Trim(s[Seps(s)[1].pos..]))
    ensures FromStrUnits(s, exact) == ScaleFraction(Trim(s[..Seps(s)[0].pos]),
      Trim(s[Seps(s)[0].pos + 1..Seps(s)[1].pos]), UnitSpan(Trim(s[Seps(s)[1].pos..])))
  {
  }

  /** The three parts of `{}.{:03}` then a unit, cut at the `.` and at
      the unit's letter. */
  lemma FractionParts(s: string, D: string, F: string, u: string)
    requires s == D + "." + F + u && |F| == 3
    ensures s[..|D|] == D && s[|D| + 1..|D| + 4] == F && s[|D| + 4..] == u
  {
    assert s == D + (['.'] + F + u);
    assert s[|D| + 1..] == F + u;
  }

  /** `{}ns` reads as that many nanoseconds. */
  lemma {:induction false} NanosUnitRead(s: string, v: u64, exact: bool)
    requires s == Dec(v) + "ns"
    requires |s| <= MAX_TIME_SPAN_STRING
    ensures FromStrUnits(s, exact) == Parsed(TimeSpan(v))
  {
    var D := Dec(v);
    SuffixSeps(s, D, "ns");
    var seps := Seps(s);
    assert seps[0] == Sep(|D|, 'n') && s[|D|..] == "ns";
    assert !IsTrimmed('n') && !IsTrimmed('s');
    ParseDec(v);
    assert TimeSpan.NANOSECOND.CheckedMul(v) == Some(TimeSpan(v));
  }

  /** Seconds with milliseconds read as the span cut to milliseconds. */
  lemma {:induction false} SecondsFractionReads(span: TimeSpan, exact: bool)
    requires SECOND <= span.nanos < MINUTE && span.nanos % SECOND >= MILLI
    ensures FromStrUnits(Format(span), exact) == Parsed(Shown(span))
  {
    var n := span.nanos;
    var v, f := n / SECOND, n % SECOND / MILLI;
    SecondsFormat(span, v, f);
    FractionUnitRead(Format(span), v, f, "s", exact);
    ThousandthsValue(n, v, f, SECOND);
  }

  /** Milliseconds with microseconds read as the span cut to microseconds. */
  lemma {:induction false} MillisFractionReads(span: TimeSpan, exact: bool)
    requires MILLI <= span.nanos < SECOND && span.nanos % MILLI >= MICRO
    ensures FromStrUnits(Format(span), exact) == Parsed(Shown(span))
  {
    var n := span.nanos;
    var v, f := n / MILLI, n % MILLI / MICRO;
    MillisFormat(span, v, f);
    FractionUnitRead(Format(span), v, f, "ms", exact);
    ThousandthsValue(n, v, f, MILLI);
  }

  /** Microseconds with nanoseconds read as the span itself. */
  lemma {:induction false} MicrosFractionReads(span: TimeSpan, exact: bool)
    requires MICRO <= span.nanos < MILLI && span.nanos % MICRO > 0
    ensures FromStrUnits(Format(span), exact) == Parsed(Shown(span))
  {
    var n := span.nanos;
    var v, f := n / MICRO, n % MICRO;
    MicrosFormat(span, v, f);
    FractionUnitRead(Format(span), v, f, "us", exact);
    ThousandthsValue(n, v, f, MICRO);
  }

  /** `v` units and `f` thousandths of one, with `v` and `f` the quotient
      and the thousandths of `n`, are `n` cut to a thousandth of the unit. */
  lemma {:induction false} ThousandthsValue(n: nat, v: nat, f: nat, unit: nat)
    requires unit == SECOND || unit == MILLI || unit == MICRO
    requires v == n / unit && f == n % unit / (unit / 1000)
    ensures v * unit + f * unit / 1000 == n / (unit / 1000) * (unit / 1000)
  {
    var t := unit / 1000;
    assert unit == t * 1000;
    assert f * unit / 1000 == f * t by {
      assert f * unit == (f * t) * 1000;
      DivMod.MulDivExact(f * t, 1000);
    }
    var r := n % unit;
    assert n == v * unit + r;
    DivMod.DivMulBound(r, t);
    assert r == f * t + r % t;
    assert n == (v * 1000 + f) * t + r % t;
    DivMod.DivModUnique(n, t, v * 1000 + f, r % t);
  }

  /** Nanoseconds read as the span itself. */
  lemma {:induction false} NanosReads(span: TimeSpan, exact: bool)
    requires 0 < span.nanos < MICRO
    ensures FromStrUnits(Format(span), exact) == Parsed(Shown(span))
  {
    var s := Format(span);
    assert s == Dec(span.nanos) + "ns";
    DecLength(span.nanos, 3);
    NanosUnitRead(s, span.nanos, exact);
  }

  /** With the two unit forms, the text of every span reads back, as the
      span cut to the precision its text shows. */
  lemma {:induction false} FormatParseUnits(span: TimeSpan, exact: bool)
    ensures FromStrUnits(Format(span), exact) == Parsed(Shown(span))
  {
    var n := span.nanos;
    SpanReadback.FormatReadsBack(span, exact);
    if SpanReadback.ReadBack(span).Parsed? {
    } else if n >= SECOND {
      SecondsFractionReads(span, exact);
    } else if n >= MILLI {
      MillisFractionReads(span, exact);
    } else if n >= MICRO {
      MicrosFractionReads(span, exact);
    } else {
      NanosReads(span, exact);
    }
  }
}
