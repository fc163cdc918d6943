/** The short text form of a span, `TimeSpan::fmt` of src/span.rs (what
    `Display` and `Debug` print without the alternate flag). The span is
    split into its largest units, most significant first; spans of a
    second or more show milliseconds, spans of a millisecond or more show
    microseconds, and smaller spans show every nanosecond. */
module SpanFormat {
  import opened Ints
  import opened Span
  import opened SpanDigits
  import DivMod

  const DAY: nat := TimeSpan.DAY.nanos
  const HOUR: nat := TimeSpan.HOUR.nanos
  const MINUTE: nat := TimeSpan.MINUTE.nanos
  const SECOND: nat := TimeSpan.SECOND.nanos
  const MILLI: nat := TimeSpan.MILLISECOND.nanos
  const MICRO: nat := TimeSpan.MICROSECOND.nanos

  /** Every character of `t` is a digit or one of `extra`. */
  predicate CharsIn(t: string, extra: set<char>) {
    forall i :: 0 <= i < |t| ==> IsDigit(t[i]) || t[i] in extra
  }

  /** A digit string has no other character. */
  lemma Digits(t: string)
    requires AllDigits(t)
    ensures forall extra: set<char> {:trigger CharsIn(t, extra)} :: CharsIn(t, extra)
    ensures forall x :: x in t ==> IsDigit(x)
  {
  }

  lemma Lacks(t: string, extra: set<char>)
    requires CharsIn(t, extra)
    ensures forall x :: x in t ==> IsDigit(x) || x in extra
  {
  }

  /** `a`, then `c`, then `b`: the characters of the three, ending as `b`
      ends. */
  lemma Join(a: string, c: char, b: string, extra: set<char>)
    requires CharsIn(a, extra) && CharsIn(b, extra) && c in extra
    ensures CharsIn(a + [c] + b, extra)
    ensures forall x :: x in a + [c] + b <==> x in a || x == c || x in b
    ensures |b| > 0 ==> (a + [c] + b)[|a| + |b|] == b[|b| - 1]
  {
    var t := a + [c] + b;
    forall i | 0 <= i < |t|
      ensures IsDigit(t[i]) || t[i] in extra
    {
      if i < |a| {
        assert t[i] == a[i];
      } else if i > |a| {
        assert t[i] == b[i - |a| - 1];
      }
    }
  }

  /** `a` followed by the letters `u`. */
  lemma Unit(a: string, u: string, extra: set<char>)
    requires CharsIn(a, extra) && forall i :: 0 <= i < |u| ==> u[i] in extra
    ensures CharsIn(a + u, extra)
    ensures forall x :: x in a + u <==> x in a || x in u
  {
    var t := a + u;
    forall i | 0 <= i < |t|
      ensures IsDigit(t[i]) || t[i] in extra
    {
      if i >= |a| {
        assert t[i] == u[i - |a|];
      }
    }
  }

  /** Reducing modulo a multiple of `d` keeps the remainder modulo `d`. */
  lemma ModOfMultiple(n: nat, k: nat, d: nat)
    requires k > 0 && d > 0
    ensures (n % (k * d)) % d == n % d
  {
    var q := n / (k * d);
    var m := n % (k * d);
    DivMod.DivModUnique(m, d, m / d, m % d);
    assert n == (q * k + m / d) * d + m % d;
    DivMod.DivModUnique(n, d, q * k + m / d, m % d);
  }

  /** The seconds left in `n` once the larger units are cut off. */
  lemma SubSecond(n: nat)
    ensures n % DAY % HOUR % MINUTE % SECOND == n % SECOND
    ensures n % HOUR % MINUTE % SECOND == n % SECOND
    ensures n % MINUTE % SECOND == n % SECOND
  {
    ModOfMultiple(n, 24, HOUR);
    ModOfMultiple(n % DAY, 24, HOUR);
    ModOfMultiple(n, 60, MINUTE);
    ModOfMultiple(n % HOUR, 60, MINUTE);
    ModOfMultiple(n, 60, SECOND);
    ModOfMultiple(n % MINUTE, 60, SECOND);
  }

  /** `"{}d{:02}:{:02}"`, with `":{:02}"` for non-zero seconds and
      `".{:03}"` for non-zero milliseconds. */
  function DayText(n: nat): (r: string)
    ensures EndingOf(r) == Digit
    ensures 'd' in r && ':' in r && CharsIn(r, {'d', ':', '.'})
    ensures '.' in r <==> n % SECOND >= MILLI
  {
    var days := n / DAY;
    var r1 := n % DAY;
    var hours := r1 / HOUR;
    var r2 := r1 % HOUR;
    var minutes := r2 / MINUTE;
    var r3 := r2 % MINUTE;
    var seconds := r3 / SECOND;
    var millis := r3 % SECOND / MILLI;
    var ex := {'d', ':', '.'};
    var D, H, M, S := Dec(days), Pad(hours, 2), Pad(minutes, 2), Pad(seconds, 2);
    SubSecond(n);
    Digits(D); Digits(H); Digits(M); Digits(S); Digits(Pad(millis, 3));
    Join(D, 'd', H, ex);
    Join(D + "d" + H, ':', M, ex);
    Join(D + "d" + H + ":" + M, ':', S, ex);
    Join(D + "d" + H + ":" + M + ":" + S, '.', Pad(millis, 3), ex);
    if millis > 0 then
      Dec(days) + "d" + Pad(hours, 2) + ":" + Pad(minutes, 2) + ":" + Pad(seconds, 2) + "." + Pad(millis, 3)
    else if seconds > 0 then
      Dec(days) + "d" + Pad(hours, 2) + ":" + Pad(minutes, 2) + ":" + Pad(seconds, 2)
    else
      Dec(days) + "d" + Pad(hours, 2) + ":" + Pad(minutes, 2)
  }

  /** `"{}:{:02}:{:02}"`, with `".{:03}"` for non-zero milliseconds. */
  function HourText(n: nat): (r: string)
    ensures EndingOf(r) == Digit
    ensures ':' in r && 'd' !in r && CharsIn(r, {':', '.'})
    ensures '.' in r <==> n % SECOND >= MILLI
  {
    var hours := n / HOUR;
    var r2 := n % HOUR;
    var minutes := r2 / MINUTE;
    var r3 := r2 % MINUTE;
    var seconds := r3 / SECOND;
    var millis := r3 % SECOND / MILLI;
    var ex := {':', '.'};
    var H, M, S := Dec(hours), Pad(minutes, 2), Pad(seconds, 2);
    SubSecond(n);
    Digits(H); Digits(M); Digits(S); Digits(Pad(millis, 3));
    Join(H, ':', M, ex);
    Join(H + ":" + M, ':', S, ex);
    Join(H + ":" + M + ":" + S, '.', Pad(millis, 3), ex);
    if millis > 0 then
      Dec(hours) + ":" + Pad(minutes, 2) + ":" + Pad(seconds, 2) + "." + Pad(millis, 3)
    else
      Dec(hours) + ":" + Pad(minutes, 2) + ":" + Pad(seconds, 2)
  }

  /** `"{}:{:02}"`, with `".{:03}"` for non-zero milliseconds. */
  function MinuteText(n: nat): (r: string)
    ensures EndingOf(r) == Digit
    ensures ':' in r && 'd' !in r && CharsIn(r, {':', '.'})
    ensures '.' in r <==> n % SECOND >= MILLI
  {
    var minutes := n / MINUTE;
    var r3 := n % MINUTE;
    var seconds := r3 / SECOND;
    var millis := r3 % SECOND / MILLI;
    var ex := {':', '.'};
    SubSecond(n);
    Digits(Dec(minutes)); Digits(Pad(seconds, 2)); Digits(Pad(millis, 3));
    Join(Dec(minutes), ':', Pad(seconds, 2), ex);
    Join(Dec(minutes) + ":" + Pad(seconds, 2), '.', Pad(millis, 3), ex);
    if millis > 0 then Dec(minutes) + ":" + Pad(seconds, 2) + "." + Pad(millis, 3)
    else Dec(minutes) + ":" + Pad(seconds, 2)
  }

  /** `"{}s"`, or `"{}.{:03}s"` for non-zero milliseconds. */
  function SecondText(n: nat): (r: string)
    ensures EndingOf(r) == SecondUnit
    ensures ':' !in r && 'd' !in r && CharsIn(r, {'.', 's'})
    ensures '.' in r <==> n % SECOND >= MILLI
  {
    var seconds := n / SECOND;
    var millis := n % SECOND / MILLI;
    if millis > 0 then Dec(seconds) + "." + Pad(millis, 3) + "s" else Dec(seconds) + "s"
  }

  /** `"{}ms"`, or `"{}.{:03}ms"` for non-zero microseconds. */
  function MilliText(n: nat): (r: string)
    ensures EndingOf(r) == MilliUnit
    ensures ':' !in r && 'd' !in r && CharsIn(r, {'.', 'm', 's'})
    ensures '.' in r <==> n % MILLI >= MICRO
  {
    var millis := n / MILLI;
    var micros := n % MILLI / MICRO;
    if micros > 0 then Dec(millis) + "." + Pad(micros, 3) + "ms" else Dec(millis) + "ms"
  }

  /** `"{}us"`, or `"{}.{:03}us"` for non-zero nanoseconds. */
  function MicroText(n: nat): (r: string)
    ensures EndingOf(r) == MicroUnit
    ensures ':' !in r && 'd' !in r && CharsIn(r, {'.', 'u', 's'})
    ensures '.' in r <==> n % MICRO > 0
  {
    var micros := n / MICRO;
    var nanos := n % MICRO;
    if nanos > 0 then Dec(micros) + "." + Pad(nanos, 3) + "us" else Dec(micros) + "us"
  }

  /** `TimeSpan::fmt`. The unit the text ends with tells the magnitude of
      the span: a `d` for a day or more, a `:` for a minute or more, a
      plain `s` for seconds, `ms`, `us` and `ns` below that, and `0` alone
      for the empty span. */
  function Format(span: TimeSpan): (r: string)
    ensures r == "0" <==> span.nanos == 0
    ensures 'd' in r <==> span.nanos >= DAY
    ensures ':' in r <==> span.nanos >= MINUTE
  {
    var n := span.nanos;
    if n == 0 then "0"
    else if n >= DAY then DayText(n)
    else if n >= HOUR then HourText(n)
    else if n >= MINUTE then MinuteText(n)
    else if n >= SECOND then SecondText(n)
    else if n >= MILLI then MilliText(n)
    else if n >= MICRO then MicroText(n)
    else
      Digits(Dec(n));
      Unit(Dec(n), "ns", {'n', 's'});
      Lacks(Dec(n) + "ns", {'n', 's'});
      Dec(n) + "ns"
  }

  /** The endings a text of `TimeSpan::fmt` can have. */
  datatype Ending = Digit | SecondUnit | MilliUnit | MicroUnit | NanoUnit | Other

  /** The ending of `t`, read from its last three characters. */
  function EndingOf(t: string): Ending {
    if |t| > 0 && IsDigit(t[|t| - 1]) then Digit
    else if |t| >= 2 && t[|t| - 1] == 's' && IsDigit(t[|t| - 2]) then SecondUnit
    else if |t| >= 3 && t[|t| - 1] == 's' && IsDigit(t[|t| - 3]) && t[|t| - 2] == 'm' then MilliUnit
    else if |t| >= 3 && t[|t| - 1] == 's' && IsDigit(t[|t| - 3]) && t[|t| - 2] == 'u' then MicroUnit
    else if |t| >= 3 && t[|t| - 1] == 's' && IsDigit(t[|t| - 3]) && t[|t| - 2] == 'n' then NanoUnit
    else Other
  }

  /** The ending the text of a span of `n` nanoseconds should have. */
  function EndingFor(n: nat): Ending {
    if n == 0 || n >= MINUTE then Digit
    else if n >= SECOND then SecondUnit
    else if n >= MILLI then MilliUnit
    else if n >= MICRO then MicroUnit
    else NanoUnit
  }

  /** The letters the text ends with tell the magnitude of the span: a
      digit from a minute on, then `s` after a digit for seconds, and
      `ms`, `us` and `ns` after a digit below that. */
  lemma FormatUnit(span: TimeSpan)
    ensures EndingOf(Format(span)) == EndingFor(span.nanos)
  {
    var n, r := span.nanos, Format(span);
    if n == 0 {
      assert r == "0";
    } else if n >= MINUTE {
      assert EndingOf(r) == Digit;
    } else if n >= SECOND {
      assert r == SecondText(n);
    } else if n >= MILLI {
      assert r == MilliText(n);
    } else if n >= MICRO {
      assert r == MicroText(n);
    } else {
      var d := Dec(n);
      assert r == d + "ns";
      assert r[|r| - 3] == d[|d| - 1] && r[|r| - 2] == 'n' && r[|r| - 1] == 's';
    }
  }
}
