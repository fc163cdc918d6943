/** How the text form of src/span.rs reads back: which outputs of
    `TimeSpan::fmt` `from_str` accepts, and the span it then returns. */
module SpanText {
  import opened Ints
  import opened Wrappers
  import opened Span
  import opened SpanDigits
  import opened SpanParse
  import opened SpanFormat
  import DivMod

  // ---------------------------------------------------------------------
  // Texts made of plain fields joined by single separators.

  predicate PlainAscii(s: string) {
    forall i :: 0 <= i < |s| ==> !IsSeparator(s[i]) && IsAscii(s[i])
  }

  function Shift(xs: seq<Sep>, d: nat): seq<Sep> {
    seq(|xs|, k requires 0 <= k < |xs| => Sep(xs[k].pos + d, xs[k].delim))
  }

  lemma {:induction false} SkipPlain(s: string, i: nat, j: nat)
    requires i <= j <= |s|
    requires forall p :: i <= p < j ==> !IsSeparator(s[p])
    ensures SepsFrom(s, i) == SepsFrom(s, j)
    decreases j - i
  {
    if i < j {
      SkipPlain(s, i + 1, j);
    }
  }

  lemma {:induction false} SepsFromOffset(x: string, y: string, i: nat)
    requires i <= |y|
    ensures SepsFrom(x + y, |x| + i) == Shift(SepsFrom(y, i), |x|)
    decreases |y| - i
  {
    if i < |y| {
      assert (x + y)[|x| + i] == y[i];
      SepsFromOffset(x, y, i + 1);
    }
  }

  /** A plain field then a separator: the separator comes first, then the
      separators of the rest, moved along. */
  lemma SepsField(x: string, c: char, y: string)
    requires forall i :: 0 <= i < |x| ==> !IsSeparator(x[i])
    requires IsSeparator(c)
    ensures Seps(x + ([c] + y)) == [Sep(|x|, c)] + Shift(Seps(y), |x| + 1)
  {
    var s := x + ([c] + y);
    SkipPlain(s, 0, |x|);
    assert s == (x + [c]) + y;
    SepsFromOffset(x + [c], y, 0);
  }

  lemma SliceAfter(p: string, y: string, a: nat, b: nat)
    requires a <= b <= |y|
    ensures (p + y)[|p| + a..|p| + b] == y[a..b]
  {
  }

  predicate SepAscii(c: char) { IsSeparator(c) && IsAscii(c) }

  lemma DigitsPlain(s: string)
    requires AllDigits(s)
    ensures PlainAscii(s)
  {
    forall i | 0 <= i < |s| ensures !IsSeparator(s[i]) && IsAscii(s[i]) {
      assert IsDigit(s[i]);
    }
  }

  /** A plain field and a separator in front of a text. */
  lemma Prepend(s: string, a: string, x: char, t: string)
    requires s == a + [x] + t
    requires PlainAscii(a) && SepAscii(x) && AllAscii(t)
    ensures AllAscii(s)
    ensures |Seps(s)| == |Seps(t)| + 1 && Seps(s)[0] == Sep(|a|, x)
    ensures forall k :: 0 <= k < |Seps(t)| ==>
      Seps(s)[k + 1] == Sep(Seps(t)[k].pos + |a| + 1, Seps(t)[k].delim)
    ensures s[..|a|] == a && s[|a| + 1..] == t
    ensures forall i, j {:trigger t[i..j]} :: 0 <= i <= j <= |t| ==> s[|a| + 1 + i..|a| + 1 + j] == t[i..j]
  {
    assert s == a + ([x] + t);
    SepsField(a, x, t);
    JoinAscii(s, a, x, t);
    JoinSlices(s, a, x, t);
  }

  /** A field, a separator and a text, all ASCII, make ASCII text. */
  lemma JoinAscii(s: string, a: string, x: char, t: string)
    requires s == a + [x] + t
    requires PlainAscii(a) && SepAscii(x) && AllAscii(t)
    ensures AllAscii(s)
  {
    forall i | 0 <= i < |s| ensures IsAscii(s[i]) {
      if i < |a| {
        assert s[i] == a[i];
      } else if i > |a| {
        assert s[i] == t[i - |a| - 1];
      }
    }
  }

  /** The field in front and every slice of the text after the separator. */
  lemma JoinSlices(s: string, a: string, x: char, t: string)
    requires s == a + [x] + t
    ensures s[..|a|] == a && s[|a| + 1..] == t
    ensures forall i, j {:trigger t[i..j]} :: 0 <= i <= j <= |t| ==> s[|a| + 1 + i..|a| + 1 + j] == t[i..j]
  {
    forall i, j | 0 <= i <= j <= |t| ensures s[|a| + 1 + i..|a| + 1 + j] == t[i..j] {
      SliceAfter(a + [x], t, i, j);
    }
  }

  lemma Shape2(s: string, a: string, x: char, b: string)
    requires s == a + [x] + b
    requires PlainAscii(a) && PlainAscii(b) && SepAscii(x)
    ensures AllAscii(s) && |s| == |a| + 1 + |b|
    ensures |Seps(s)| == 1 && Seps(s)[0] == Sep(|a|, x)
    ensures s[..|a|] == a && s[|a| + 1..] == b
  {
    assert Seps(b) == [] by {
      assert forall p :: 0 <= p < |b| ==> !IsSeparator(b[p]);
    }
    assert AllAscii(b);
    Prepend(s, a, x, b);
  }

  lemma Shape3(s: string, a: string, x: char, b: string, y: char, c: string)
    requires s == a + [x] + b + [y] + c
    requires PlainAscii(a) && PlainAscii(b) && PlainAscii(c) && SepAscii(x) && SepAscii(y)
    ensures AllAscii(s) && |s| == |a| + |b| + |c| + 2
    ensures |Seps(s)| == 2 && Seps(s)[0] == Sep(|a|, x) && Seps(s)[1] == Sep(|a| + 1 + |b|, y)
    ensures s[..|a|] == a && s[|a| + 1..|a| + 1 + |b|] == b && s[|a| + |b| + 2..] == c
  {
    var t := b + [y] + c;
    Shape2(t, b, y, c);
    Prepend(s, a, x, t);
    assert t[0..|b|] == b;
    assert t[|b| + 1..|t|] == c;
  }

  lemma Shape4(s: string, a: string, x: char, b: string, y: char, c: string, z: char, d: string)
    requires s == a + [x] + b + [y] + c + [z] + d
    requires PlainAscii(a) && PlainAscii(b) && PlainAscii(c) && PlainAscii(d)
    requires SepAscii(x) && SepAscii(y) && SepAscii(z)
    ensures AllAscii(s) && |s| == |a| + |b| + |c| + |d| + 3
    ensures |Seps(s)| == 3 && Seps(s)[0] == Sep(|a|, x) && Seps(s)[1] == Sep(|a| + 1 + |b|, y)
    ensures Seps(s)[2] == Sep(|a| + |b| + |c| + 2, z)
    ensures s[..|a|] == a && s[|a| + 1..|a| + 1 + |b|] == b
    ensures s[|a| + |b| + 2..|a| + |b| + 2 + |c|] == c && s[|a| + |b| + |c| + 3..] == d
  {
    var t := b + [y] + c + [z] + d;
    Shape3(t, b, y, c, z, d);
    Prepend(s, a, x, t);
    assert t[0..|b|] == b;
    assert t[|b| + 1..|b| + 1 + |c|] == c;
    assert t[|b| + |c| + 2..|t|] == d;
  }

  lemma Shape5(s: string, a: string, x: char, b: string, y: char, c: string, z: char, d: string,
               w: char, e: string)
    requires s == a + [x] + b + [y] + c + [z] + d + [w] + e
    requires PlainAscii(a) && PlainAscii(b) && PlainAscii(c) && PlainAscii(d) && PlainAscii(e)
    requires SepAscii(x) && SepAscii(y) && SepAscii(z) && SepAscii(w)
    ensures AllAscii(s) && |s| == |a| + |b| + |c| + |d| + |e| + 4
    ensures |Seps(s)| == 4 && Seps(s)[0] == Sep(|a|, x) && Seps(s)[1] == Sep(|a| + 1 + |b|, y)
    ensures Seps(s)[2] == Sep(|a| + |b| + |c| + 2, z) && Seps(s)[3] == Sep(|a| + |b| + |c| + |d| + 3, w)
    ensures s[..|a|] == a && s[|a| + 1..|a| + 1 + |b|] == b
    ensures s[|a| + |b| + 2..|a| + |b| + 2 + |c|] == c
    ensures s[|a| + |b| + |c| + 3..|a| + |b| + |c| + 3 + |d|] == d
    ensures s[|a| + |b| + |c| + |d| + 4..] == e
  {
    var t := b + [y] + c + [z] + d + [w] + e;
    assert s == a + [x] + t;
    Shape4(t, b, y, c, z, d, w, e);
    Lift5(s, a, x, t, b, y, c, z, d, w, e);
  }

  /** `Shape5` from the shape of the text after the first separator. */
  lemma Lift5(s: string, a: string, x: char, t: string, b: string, y: char, c: string, z: char,
              d: string, w: char, e: string)
    requires s == a + [x] + t
    requires PlainAscii(a) && SepAscii(x) && AllAscii(t) && |t| == |b| + |c| + |d| + |e| + 3
    requires |Seps(t)| == 3 && Seps(t)[0] == Sep(|b|, y) && Seps(t)[1] == Sep(|b| + 1 + |c|, z)
    requires Seps(t)[2] == Sep(|b| + |c| + |d| + 2, w)
    requires t[..|b|] == b && t[|b| + 1..|b| + 1 + |c|] == c
    requires t[|b| + |c| + 2..|b| + |c| + 2 + |d|] == d && t[|b| + |c| + |d| + 3..] == e
    ensures AllAscii(s) && |s| == |a| + |b| + |c| + |d| + |e| + 4
    ensures |Seps(s)| == 4 && Seps(s)[0] == Sep(|a|, x) && Seps(s)[1] == Sep(|a| + 1 + |b|, y)
    ensures Seps(s)[2] == Sep(|a| + |b| + |c| + 2, z) && Seps(s)[3] == Sep(|a| + |b| + |c| + |d| + 3, w)
    ensures s[..|a|] == a && s[|a| + 1..|a| + 1 + |b|] == b
    ensures s[|a| + |b| + 2..|a| + |b| + 2 + |c|] == c
    ensures s[|a| + |b| + |c| + 3..|a| + |b| + |c| + 3 + |d|] == d
    ensures s[|a| + |b| + |c| + |d| + 4..] == e
  {
    Prepend(s, a, x, t);
    assert t[0..|b|] == b;
    assert t[|b| + |c| + |d| + 3..|t|] == e;
  }

  // ---------------------------------------------------------------------
  // What the text form denotes.

  /** The span `Format(span)` denotes: cut to whole milliseconds from one
      second on, to whole microseconds from one millisecond on, and exact
      below. */
  function Shown(span: TimeSpan): TimeSpan {
    var n := span.nanos;
    if n >= SECOND then
      DivMod.DivMulBound(n, MILLI);
      TimeSpan(n / MILLI * MILLI)
    else if n >= MILLI then
      DivMod.DivMulBound(n, MICRO);
      TimeSpan(n / MICRO * MICRO)
    else span
  }

  /** The spans whose text `from_str` accepts: zero, the clock forms from a
      minute on, and whole seconds, milliseconds or microseconds. A fraction
      of a second, millisecond or microsecond puts a unit after the `.`, and
      nanoseconds carry the unit `ns`; the parser refuses both. */
  predicate Readable(span: TimeSpan) {
    var n := span.nanos;
    n == 0 || n >= MINUTE
    || (n >= SECOND && n % SECOND < MILLI)
    || (MILLI <= n < SECOND && n % MILLI < MICRO)
    || (MICRO <= n < MILLI && n % MICRO == 0)
  }

  lemma FieldReads(s: string, lo: nat, hi: nat, v: u64, w: nat)
    requires lo <= hi <= |s| && s[lo..hi] == Pad(v, w)
    ensures FieldValue(s, Some(Slice(lo, hi))) == IntOk(v)
  {
    ParsePad(v, w);
  }

  /** Cutting `n` to whole milliseconds, given its clock fields. */
  lemma MilliCut(n: nat, q: nat, rem: nat)
    requires n == q * MILLI + rem && rem < MILLI
    ensures n / MILLI * MILLI == q * MILLI
  {
    DivMod.DivModUnique(n, MILLI, q, rem);
  }

  lemma MicroCut(n: nat, q: nat, rem: nat)
    requires n == q * MILLI + rem && rem < MICRO
    ensures n / MICRO * MICRO == q * MILLI
  {
    DivMod.DivModUnique(n, MICRO, q * 1000, rem);
  }

  lemma Pow10Six()
    ensures Pow10(3) == 1000 && Pow10(6) == 1_000_000
  {
  }

  /** Clock fields that add up to a span of a second or more cut to
      milliseconds make `Ranges::parse` return that cut span. */
  lemma ClockTotal(span: TimeSpan, days: u64, hours: u64, minutes: u64, seconds: u64, millis: u64)
    requires span.nanos >= SECOND
    requires days * DAY + hours * HOUR + minutes * MINUTE + seconds * SECOND + millis * MILLI
             == span.nanos / MILLI * MILLI
    ensures Total(days, hours, minutes, seconds, millis * 1000) == Parsed(Shown(span))
  {
    assert millis * 1000 * MICRO == millis * MILLI;
  }

  /** Fields that read as clock values within their bounds. */
  lemma RangesRead(s: string, r: Ranges, days: u64, hours: u64, minutes: u64, seconds: u64, fract: u64,
                   micros: u64)
    requires RangesFit(r, |s|)
    requires FieldValue(s, r.days) == IntOk(days) && FieldValue(s, r.hours) == IntOk(hours)
    requires FieldValue(s, r.minutes) == IntOk(minutes) && FieldValue(s, r.seconds) == IntOk(seconds)
    requires FieldValue(s, r.fract) == IntOk(fract) && Micros(fract, r.denom) == Some(micros)
    requires hours < 24 && minutes < 60 && seconds < 60
    ensures ParseRanges(s, r) == Total(days, hours, minutes, seconds, micros)
  {
  }

  /** No fraction is no microseconds. */
  lemma NoMicros()
    ensures Micros(0, 0) == Some(0)
  {
    assert Pow10(6) == 1_000_000;
  }

  /** Three fraction digits are milliseconds. */
  lemma MillisMicros(millis: u64)
    requires millis < 1000
    ensures Micros(millis, 3) == Some(millis * 1000)
  {
    Pow10Six();
  }

  lemma FieldReadsDec(s: string, lo: nat, hi: nat, v: u64)
    requires lo <= hi <= |s| && s[lo..hi] == Dec(v)
    ensures FieldValue(s, Some(Slice(lo, hi))) == IntOk(v)
  {
    ParseDec(v);
  }

  /** `from_str` on a text whose layout is that of fields. */
  lemma FromFields(s: string, exact: bool, r: Ranges)
    requires AllAscii(s) && |s| <= MAX_TIME_SPAN_STRING && LayoutOf(s, exact) == Fields(r)
    ensures RangesFit(r, |s|) && FromStrWith(s, exact) == ParseRanges(s, r)
  {
  }

}
