/** `FromStr for TimeSpan` of src/span.rs. The text is cut at its
    separators (characters that are neither ASCII digits nor ASCII white
    space); the kinds and order of the first few separators choose the
    layout, and each field is then trimmed and read with `u64::from_str`. */
module SpanParse {
  import opened Ints
  import opened Wrappers
  import opened Span
  import opened SpanDigits
  import DivMod

  const MAX_TIME_SPAN_STRING: nat := 48

  /** `TimeSpanParseErr`; `IntParseError` keeps the kind of the integer error. */
  datatype ParseError =
    | NonAscii
    | StringTooLarge(len: nat)
    | IntParseError(kind: IntErrorKind)
    | UnexpectedDelimiter(delim: char, pos: nat)
    | UnexpectedEndOfString
    | UnexpectedSuffix
    | HoursOutOfBound(hours: u64)
    | MinutesOutOfBound(minutes: u64)
    | SecondsOutOfBound(seconds: u64)

  /** What `from_str` does with a text: it returns a span or an error, or it
      panics in an overflowing `10u64.pow`, product or sum. */
  datatype ParseResult = Parsed(span: TimeSpan) | Failed(error: ParseError) | Panics

  predicate IsSeparator(c: char) { !IsDigit(c) && !IsAsciiWhitespace(c) }

  predicate AllAscii(s: string) {
    forall i :: 0 <= i < |s| ==> IsAscii(s[i])
  }

  /** One separator: its byte index and the character. */
  datatype Sep = Sep(pos: nat, delim: char)

  /** The separators at index `i` or later, in order of position. */
  function SepsFrom(s: string, i: nat): (r: seq<Sep>)
    requires i <= |s|
    ensures forall k :: 0 <= k < |r| ==> i <= r[k].pos < |s| && s[r[k].pos] == r[k].delim
    ensures forall k :: 0 <= k < |r| ==> IsSeparator(r[k].delim)
    ensures forall k :: 0 <= k < |r| - 1 ==> r[k].pos < r[k + 1].pos
    ensures |r| == 0 <==> forall p :: i <= p < |s| ==> !IsSeparator(s[p])
    decreases |s| - i
  {
    if i == |s| then []
    else if IsSeparator(s[i]) then [Sep(i, s[i])] + SepsFrom(s, i + 1)
    else SepsFrom(s, i + 1)
  }

  /** `s.match_indices(..)` with the separator test. */
  function Seps(s: string): seq<Sep> { SepsFrom(s, 0) }

  /** A half-open range of byte indices. */
  datatype Slice = Slice(lo: nat, hi: nat)

  /** The `Ranges` record: where each field is, and the number of digits the
      fraction is taken to have. */
  datatype Ranges = Ranges(
    days: Option<Slice>, hours: Option<Slice>, minutes: Option<Slice>,
    seconds: Option<Slice>, fract: Option<Slice>, denom: nat)

  predicate SliceFits(f: Option<Slice>, len: nat) {
    f.Some? ==> f.value.lo <= f.value.hi <= len
  }

  predicate RangesFit(r: Ranges, len: nat) {
    SliceFits(r.days, len) && SliceFits(r.hours, len) && SliceFits(r.minutes, len)
    && SliceFits(r.seconds, len) && SliceFits(r.fract, len)
  }

  /** How the separators make `from_str` read the text. */
  datatype Layout =
    | Fields(ranges: Ranges)
    | Suffixed(end: nat, unit: TimeSpan)
    | Bare
    | Refused(error: ParseError)

  /** The errors the dispatch reports: a delimiter found where it is, an
      early end, or a unit suffix followed by other text. */
  predicate LayoutError(s: string, e: ParseError) {
    match e
    case UnexpectedDelimiter(delim, pos) => pos < |s| && s[pos] == delim && IsSeparator(delim)
    case UnexpectedEndOfString => true
    case UnexpectedSuffix => true
    case _ => false
  }

  function Delim(sep: Sep): ParseError { UnexpectedDelimiter(sep.delim, sep.pos) }

  function Min(a: nat, b: nat): nat { if a < b then a else b }

  /** The fraction's digit count for the micro-second scaling. As written it
      is every character after the `.`; `exact` takes the characters of the
      trimmed fraction field instead. */
  function Denom(s: string, sf: nat, hi: nat, exact: bool): nat
    requires sf < hi <= |s| || sf + 1 == hi <= |s|
  {
    if exact then |Trim(s[sf + 1..hi])| else |s| - sf - 1
  }

  /** The dispatch on the first separators. */
  function LayoutOf(s: string, exact: bool): (r: Layout)
    ensures r.Fields? ==> RangesFit(r.ranges, |s|)
    ensures r.Suffixed? ==> r.end <= |s|
    ensures r.Refused? ==> LayoutError(s, r.error)
  {
    var seps := Seps(s);
    var len := |s|;
    if |seps| == 0 then Bare
    else
      var first := seps[0];
      if first.delim in {'d', 'D', 't', 'T'} then
        var dh := first.pos;
        if |seps| == 1 then Refused(UnexpectedEndOfString)
        else if seps[1].delim != ':' then Refused(Delim(seps[1]))
        else
          var hm := seps[1].pos;
          if |seps| == 2 then
            Fields(Ranges(Some(Slice(0, dh)), Some(Slice(dh + 1, hm)), Some(Slice(hm + 1, len)),
                          None, None, 0))
          else if seps[2].delim != ':' then Refused(Delim(seps[2]))
          else
            var ms := seps[2].pos;
            if |seps| == 3 then
              Fields(Ranges(Some(Slice(0, dh)), Some(Slice(dh + 1, hm)), Some(Slice(hm + 1, ms)),
                            Some(Slice(ms + 1, len)), None, 0))
            else if seps[3].delim != '.' then Refused(Delim(seps[3]))
            else if |seps| > 4 then Refused(Delim(seps[4]))
            else
              var sf := seps[3].pos;
              var hi := Min(len, sf + 21);
              Fields(Ranges(Some(Slice(0, dh)), Some(Slice(dh + 1, hm)), Some(Slice(hm + 1, ms)),
                            Some(Slice(ms + 1, sf)), Some(Slice(sf + 1, hi)), Denom(s, sf, hi, exact)))
      else if first.delim == ':' then
        var hms := first.pos;
        if |seps| == 1 then
          Fields(Ranges(None, None, Some(Slice(0, hms)), Some(Slice(hms + 1, len)), None, 0))
        else if seps[1].delim == ':' then
          var ms := seps[1].pos;
          if |seps| == 2 then
            Fields(Ranges(None, Some(Slice(0, hms)), Some(Slice(hms + 1, ms)), Some(Slice(ms + 1, len)),
                          None, 0))
          else if seps[2].delim != '.' then Refused(Delim(seps[2]))
          else if |seps| > 3 then Refused(Delim(seps[3]))
          else
            var sf := seps[2].pos;
            var hi := Min(len, sf + 21);
            Fields(Ranges(None, Some(Slice(0, hms)), Some(Slice(hms + 1, ms)), Some(Slice(ms + 1, sf)),
                          Some(Slice(sf + 1, hi)), Denom(s, sf, hi, exact)))
        else if seps[1].delim == '.' then
          if |seps| > 2 then Refused(Delim(seps[2]))
          else
            var sf := seps[1].pos;
            Fields(Ranges(None, None, Some(Slice(0, hms)), Some(Slice(hms + 1, sf)),
                          Some(Slice(sf + 1, len)), Denom(s, sf, len, exact)))
        else Refused(Delim(seps[1]))
      else if first.delim == '.' then
        if |seps| > 1 then Refused(Delim(seps[1]))
        else
          var sf := first.pos;
          Fields(Ranges(None, None, None, Some(Slice(0, sf)), Some(Slice(sf + 1, len)),
                        Denom(s, sf, len, exact)))
      else if first.delim == 's' then
        if Trim(s[first.pos..]) != "s" then Refused(UnexpectedSuffix)
        else Suffixed(first.pos, TimeSpan.SECOND)
      else if first.delim == 'm' then
        if Trim(s[first.pos..]) != "ms" then Refused(UnexpectedSuffix)
        else Suffixed(first.pos, TimeSpan.MILLISECOND)
      else if first.delim == 'u' then
        if Trim(s[first.pos..]) != "us" then Refused(UnexpectedSuffix)
        else Suffixed(first.pos, TimeSpan.MICROSECOND)
      else Refused(Delim(first))
  }

  /** One field read with `s[r].trim().parse()`; an absent field is 0. */
  function FieldValue(s: string, f: Option<Slice>): IntResult
    requires SliceFits(f, |s|)
  {
    if f.None? then IntOk(0) else ParseU64(Trim(s[f.value.lo..f.value.hi]))
  }

  /** `n * unit`, which panics past `u64::MAX`: the `TimeSpan * u64`
      operator, and a whole number of units. */
  function Scale(n: u64, unit: TimeSpan): (r: ParseResult)
    ensures r.Panics? <==> unit.CheckedMul(n).None?
    ensures r.Parsed? ==> Some(r.span) == unit.CheckedMul(n)
    ensures r.Parsed? && unit.nanos > 0 ==> r.span.nanos / unit.nanos == n && r.span.nanos % unit.nanos == 0
  {
    if n * unit.nanos > U64_MAX then Panics
    else
      WholeUnits(n, unit.nanos);
      Parsed(TimeSpan(n * unit.nanos))
  }

  lemma WholeUnits(n: nat, d: nat)
    ensures d > 0 ==> (n * d) / d == n && (n * d) % d == 0
  {
    if d > 0 {
      DivMod.MulDivExact(n, d);
    }
  }

  /** `acc + n * unit` with the operators of `TimeSpan`, `None` once either
      panics. */
  function AddProduct(acc: Option<TimeSpan>, n: u64, unit: TimeSpan): Option<TimeSpan> {
    if acc.None? then None
    else match unit.CheckedMul(n)
      case None => None
      case Some(p) => acc.value.CheckedAdd(p)
  }

  /** `days * DAY + hours * HOUR + minutes * MINUTE + seconds * SECOND +
      micros * MICROSECOND` evaluated as the source does, left to right, one
      checked operator at a time. */
  function Stepwise(days: u64, hours: u64, minutes: u64, seconds: u64, micros: u64): Option<TimeSpan> {
    var dh := AddProduct(TimeSpan.DAY.CheckedMul(days), hours, TimeSpan.HOUR);
    AddProduct(AddProduct(AddProduct(dh, minutes, TimeSpan.MINUTE), seconds, TimeSpan.SECOND),
               micros, TimeSpan.MICROSECOND)
  }

  /** The closing sum of `Ranges::parse`. Every product and partial sum is at
      most the total, so one of them overflows exactly when the total does:
      the one check agrees with the operators evaluated one by one. */
  function Total(days: u64, hours: u64, minutes: u64, seconds: u64, micros: u64): (r: ParseResult)
    ensures r.Panics? <==> Stepwise(days, hours, minutes, seconds, micros).None?
    ensures r.Parsed? ==> Stepwise(days, hours, minutes, seconds, micros) == Some(r.span)
  {
    var d := days * TimeSpan.DAY.nanos;
    var h := hours * TimeSpan.HOUR.nanos;
    var m := minutes * TimeSpan.MINUTE.nanos;
    var c := seconds * TimeSpan.SECOND.nanos;
    var u := micros * TimeSpan.MICROSECOND.nanos;
    DivMod.MulMono(0, days, TimeSpan.DAY.nanos);
    DivMod.MulMono(0, hours, TimeSpan.HOUR.nanos);
    DivMod.MulMono(0, minutes, TimeSpan.MINUTE.nanos);
    DivMod.MulMono(0, seconds, TimeSpan.SECOND.nanos);
    DivMod.MulMono(0, micros, TimeSpan.MICROSECOND.nanos);
    var t := d + h + m + c + u;
    if t > U64_MAX then Panics else Parsed(TimeSpan(t))
  }

  /** `fract / 10^denom` seconds in whole microseconds, rounded down. As
      written the scaling panics in `10u64.pow` past `u64::MAX` (a fraction
      of 26 digits or more) or in the product (a short fraction too large). */
  function Micros(fract: u64, denom: nat): (r: Option<u64>)
    ensures r.Some? ==> r.value * Pow10(denom) <= fract * Pow10(6) < (r.value + 1) * Pow10(denom)
    ensures r.None? <==> denom >= 26 || (denom < 6 && fract * Pow10(6 - denom) > U64_MAX)
  {
    if denom > 6 then
      var p := Pow10(denom - 6);
      Pow10Fits(denom - 6);
      if p > U64_MAX then None
      else
        DivMod.DivAtMost(fract, p);
        Pow10Add(denom - 6, 6);
        FloorScaled(fract, p, Pow10(6));
        Some(fract / p)
    else
      var m := fract * Pow10(6 - denom);
      DivMod.MulMono(0, fract, Pow10(6 - denom));
      Pow10Add(6 - denom, denom);
      ExactScaled(fract, Pow10(6 - denom), Pow10(denom));
      if m > U64_MAX then None else Some(m)
  }

  /** Dividing by `p` and then scaling by `p * w` rounds `fract * w` down to
      a multiple of `p * w`. */
  lemma FloorScaled(fract: nat, p: nat, w: nat)
    requires p >= 1 && w >= 1
    ensures (fract / p) * (p * w) <= fract * w < (fract / p + 1) * (p * w)
  {
    var q := fract / p;
    DivMod.DivMulBound(fract, p);
    DivMod.MulMono(q * p, fract, w);
    DivMod.MulMono(fract + 1, (q + 1) * p, w);
    assert q * (p * w) == (q * p) * w;
    assert (q + 1) * (p * w) == ((q + 1) * p) * w;
  }

  /** Scaling by `a` and then by `b` is scaling by `a * b`, and stays below
      one more step of `b`. */
  lemma ExactScaled(fract: nat, a: nat, b: nat)
    requires b >= 1
    ensures (fract * a) * b <= fract * (a * b) < (fract * a + 1) * b
  {
    assert (fract * a) * b == fract * (a * b);
    assert (fract * a + 1) * b == (fract * a) * b + b;
  }

  /** The five fields of a `Ranges` as `u64::from_str` reads them. */
  datatype FieldValues = FieldValues(
    seconds: IntResult, minutes: IntResult, hours: IntResult, days: IntResult, fract: IntResult)

  function ReadFields(s: string, r: Ranges): FieldValues
    requires RangesFit(r, |s|)
  {
    FieldValues(FieldValue(s, r.seconds), FieldValue(s, r.minutes), FieldValue(s, r.hours),
                FieldValue(s, r.days), FieldValue(s, r.fract))
  }

  /** Every field reads as a `u64`, and seconds, minutes and hours are
      within the bound that the next larger field, when present, sets. */
  predicate FieldsRead(v: FieldValues, r: Ranges) {
    v.seconds.IntOk? && v.minutes.IntOk? && v.hours.IntOk? && v.days.IntOk? && v.fract.IntOk?
    && (r.minutes.Some? ==> v.seconds.value <= 59)
    && (r.hours.Some? ==> v.minutes.value <= 59)
    && (r.days.Some? ==> v.hours.value <= 23)
  }

  /** The errors of `Ranges::parse`: a field that does not read, or one
      past its bound, reported with its value. */
  predicate RangesError(v: FieldValues, r: Ranges, e: ParseError) {
    match e
    case IntParseError(_) => true
    case SecondsOutOfBound(n) => r.minutes.Some? && v.seconds == IntOk(n) && n > 59
    case MinutesOutOfBound(n) => r.hours.Some? && v.minutes == IntOk(n) && n > 59
    case HoursOutOfBound(n) => r.days.Some? && v.hours == IntOk(n) && n > 23
    case _ => false
  }

  /** The span of fields that read: the sum of the fields in their units,
      the fraction in whole microseconds, evaluated by the operators. */
  predicate SumsTo(v: FieldValues, r: Ranges, span: TimeSpan)
    requires FieldsRead(v, r)
  {
    var micros := Micros(v.fract.value, r.denom);
    micros.Some? && Stepwise(v.days.value, v.hours.value, v.minutes.value, v.seconds.value, micros.value) == Some(span)
  }

  /** The checks and the sum of `Ranges::parse` on the values read:
      seconds, minutes, hours and days in that order, each checked against
      the next larger field when that field is present, then the fraction.
      The fields are read without side effects, so reading all of them
      first changes nothing. */
  function CheckFields(v: FieldValues, r: Ranges): (res: ParseResult)
    ensures res.Failed? <==> !FieldsRead(v, r)
    ensures res.Failed? ==> RangesError(v, r, res.error)
    ensures res.Parsed? ==> FieldsRead(v, r) && SumsTo(v, r, res.span)
  {
    var sec := v.seconds;
    if sec.IntErr? then Failed(IntParseError(sec.kind))
    else if r.minutes.Some? && sec.value > 59 then Failed(SecondsOutOfBound(sec.value))
    else
      var min := v.minutes;
      if min.IntErr? then Failed(IntParseError(min.kind))
      else if r.hours.Some? && min.value > 59 then Failed(MinutesOutOfBound(min.value))
      else
        var hrs := v.hours;
        if hrs.IntErr? then Failed(IntParseError(hrs.kind))
        else if r.days.Some? && hrs.value > 23 then Failed(HoursOutOfBound(hrs.value))
        else
          var days := v.days;
          if days.IntErr? then Failed(IntParseError(days.kind))
          else
            var fract := v.fract;
            if fract.IntErr? then Failed(IntParseError(fract.kind))
            else
              var micros := Micros(fract.value, r.denom);
              if micros.None? then Panics
              else Total(days.value, hrs.value, min.value, sec.value, micros.value)
  }

  /** `Ranges::parse`: it fails exactly when some field does not read or is
      out of bound, with that error; otherwise it yields the sum of the
      fields or panics while computing it. */
  function ParseRanges(s: string, r: Ranges): (res: ParseResult)
    requires RangesFit(r, |s|)
    ensures res.Failed? <==> !FieldsRead(ReadFields(s, r), r)
    ensures res.Failed? ==> RangesError(ReadFields(s, r), r, res.error)
    ensures res.Parsed? ==> FieldsRead(ReadFields(s, r), r) && SumsTo(ReadFields(s, r), r, res.span)
  {
    CheckFields(ReadFields(s, r), r)
  }

  /** `from_str`, with `exact` choosing the fraction's digit count. Text
      that is not ASCII is refused as such whatever else it holds, and
      ASCII text of more than 48 bytes as too large; every reported
      delimiter is a separator found at its reported index. */
  function FromStrWith(s: string, exact: bool): (r: ParseResult)
    ensures r == Failed(NonAscii) <==> !AllAscii(s)
    ensures r.Failed? && r.error.StringTooLarge? <==> AllAscii(s) && |s| > MAX_TIME_SPAN_STRING
    ensures r.Failed? && r.error.StringTooLarge? ==> r.error.len == |s|
    ensures r.Failed? && r.error.UnexpectedDelimiter? ==>
      r.error.pos < |s| && s[r.error.pos] == r.error.delim && IsSeparator(r.error.delim)
  {
    if !AllAscii(s) then Failed(NonAscii)
    else if |s| > MAX_TIME_SPAN_STRING then Failed(StringTooLarge(|s|))
    else
      match LayoutOf(s, exact)
      case Refused(e) => Failed(e)
      case Bare => ScaleText(Trim(s), TimeSpan.SECOND)
      case Suffixed(end, unit) => ScaleText(Trim(s[..end]), unit)
      case Fields(r) => ParseRanges(s, r)
  }

  /** A trimmed field read with `u64::from_str` and multiplied by `unit`:
      it fails exactly when the field does not read. */
  function ScaleText(t: string, unit: TimeSpan): (r: ParseResult)
    ensures r.Failed? <==> ParseU64(t).IntErr?
    ensures r.Failed? ==> r.error == IntParseError(ParseU64(t).kind)
    ensures r.Parsed? ==> Some(r.span) == unit.CheckedMul(ParseU64(t).value)
  {
    var n := ParseU64(t);
    if n.IntErr? then Failed(IntParseError(n.kind)) else Scale(n.value, unit)
  }

  /** Text without a `.`, so without a fraction field. */
  predicate NoFraction(s: string) {
    forall i :: 0 <= i < |s| ==> s[i] != '.'
  }

  /** Of the dispatch, `exact` changes only the fraction's digit count. */
  lemma LayoutExact(s: string)
    ensures LayoutOf(s, true).Fields? == LayoutOf(s, false).Fields?
    ensures !LayoutOf(s, true).Fields? ==> LayoutOf(s, true) == LayoutOf(s, false)
    ensures LayoutOf(s, true).Fields? ==>
      LayoutOf(s, true).ranges.(denom := 0) == LayoutOf(s, false).ranges.(denom := 0)
    ensures NoFraction(s) ==> LayoutOf(s, true) == LayoutOf(s, false)
  {
  }

  /** The checks of `Ranges::parse` do not look at the digit count. */
  lemma CheckFieldsDenom(v: FieldValues, r: Ranges, d: nat)
    ensures CheckFields(v, r).Failed? ==> CheckFields(v, r.(denom := d)) == CheckFields(v, r)
  {
  }

  /** The two readings of the fraction's digit count refuse the same texts
      with the same errors, and agree on text without a fraction. */
  lemma ExactOnlyScales(s: string)
    ensures FromStrWith(s, true).Failed? || FromStrWith(s, false).Failed? ==> FromStrWith(s, true) == FromStrWith(s, false)
    ensures NoFraction(s) ==> FromStrWith(s, true) == FromStrWith(s, false)
  {
    LayoutExact(s);
    if AllAscii(s) && |s| <= MAX_TIME_SPAN_STRING && LayoutOf(s, true).Fields? {
      var a, b := LayoutOf(s, true).ranges, LayoutOf(s, false).ranges;
      assert b == a.(denom := b.denom);
      assert ReadFields(s, a) == ReadFields(s, b);
      CheckFieldsDenom(ReadFields(s, a), a, b.denom);
      CheckFieldsDenom(ReadFields(s, a), b, a.denom);
      assert b.(denom := a.denom) == a;
    }
  }

  /** `from_str` as written: the fraction's digit count is the number of
      characters after the `.`, trailing white space and the characters
      past the twentieth included. It refuses what the exact reading
      refuses, and reads text without a fraction as that does. */
  function FromStrAsWritten(s: string): (r: ParseResult)
    ensures r.Failed? || FromStrWith(s, true).Failed? ==> r == FromStrWith(s, true)
    ensures NoFraction(s) ==> r == FromStrWith(s, true)
  {
    ExactOnlyScales(s);
    FromStrWith(s, false)
  }

  /** `from_str` with the fraction's digit count taken from the trimmed
      field it reads. It refuses what the text as written refuses, and
      reads text without a fraction as that does. */
  function FromStr(s: string): (r: ParseResult)
    ensures r.Failed? || FromStrWith(s, false).Failed? ==> r == FromStrWith(s, false)
    ensures NoFraction(s) ==> r == FromStrWith(s, false)
  {
    ExactOnlyScales(s);
    FromStrWith(s, true)
  }
}
