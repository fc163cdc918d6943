/** Decimal text as the span parser and formatter of src/span.rs use it:
    the `{}` and `{:0w}` formatting of unsigned integers, `str::trim`, and
    `u64::from_str`, all on ASCII text. */
module SpanDigits {
  import opened Ints

  predicate IsAscii(c: char) { c as int < 128 }

  predicate IsDigit(c: char) { '0' <= c <= '9' }

  /** `char::is_ascii_whitespace`: space, tab, line feed, form feed and
      carriage return (not the vertical tab). */
  predicate IsAsciiWhitespace(c: char) {
    c == ' ' || c as int == 9 || c as int == 10 || c as int == 12 || c as int == 13
  }

  /** What `str::trim` strips from ASCII text: the Unicode white space of
      that range, which includes the vertical tab. */
  predicate IsTrimmed(c: char) { c == ' ' || 9 <= c as int <= 13 }

  predicate AllDigits(s: string) {
    forall i :: 0 <= i < |s| ==> IsDigit(s[i])
  }

  function DigitValue(c: char): (d: nat)
    requires IsDigit(c)
    ensures d < 10
  {
    c as int - '0' as int
  }

  function DigitChar(d: nat): (c: char)
    requires d < 10
    ensures IsDigit(c) && DigitValue(c) == d
  {
    (d + '0' as int) as char
  }

  /** The value of a digit string read in base ten, without any bound. */
  function DigitsValue(s: string): nat
    requires AllDigits(s)
    decreases |s|
  {
    if |s| == 0 then 0 else DigitsValue(s[..|s| - 1]) * 10 + DigitValue(s[|s| - 1])
  }

  /** `{}` of an unsigned integer: its decimal digits without leading zeros. */
  function Dec(n: nat): (r: string)
    ensures |r| >= 1 && AllDigits(r)
    ensures n < 10 <==> |r| == 1
    ensures 10 <= n < 100 ==> |r| == 2
    ensures 100 <= n < 1000 ==> |r| == 3
    decreases n
  {
    if n < 10 then [DigitChar(n)] else Dec(n / 10) + [DigitChar(n % 10)]
  }

  function Pow10(k: nat): (r: nat)
    ensures r >= 1
  {
    if k == 0 then 1 else 10 * Pow10(k - 1)
  }

  /** Powers of ten multiply by adding exponents. */
  lemma {:induction false} Pow10Add(a: nat, b: nat)
    ensures Pow10(a + b) == Pow10(a) * Pow10(b)
    decreases a
  {
    if a > 0 {
      Pow10Add(a - 1, b);
      assert Pow10(a + b) == 10 * Pow10(a - 1 + b);
    }
  }

  /** `10^k` fits in `u64` exactly for `k <= 19`. */
  lemma Pow10Fits(k: nat)
    ensures Pow10(k) <= U64_MAX <==> k <= 19
  {
    assert Pow10(1) == 10;
    assert Pow10(2) == 100;
    assert Pow10(3) == 1000;
    assert Pow10(4) == 10000;
    assert Pow10(5) == 100000;
    assert Pow10(6) == 1000000;
    assert Pow10(7) == 10000000;
    assert Pow10(8) == 100000000;
    assert Pow10(9) == 1000000000;
    assert Pow10(10) == 10000000000;
    assert Pow10(11) == 100000000000;
    assert Pow10(12) == 1000000000000;
    assert Pow10(13) == 10000000000000;
    assert Pow10(14) == 100000000000000;
    assert Pow10(15) == 1000000000000000;
    assert Pow10(16) == 10000000000000000;
    assert Pow10(17) == 100000000000000000;
    assert Pow10(18) == 1000000000000000000;
    assert Pow10(19) == 10000000000000000000;
    assert Pow10(20) == 100000000000000000000;
    if k <= 19 {
      Pow10Add(k, 19 - k);
      assert Pow10(k) * Pow10(19 - k) >= Pow10(k) * 1;
    } else {
      Pow10Add(20, k - 20);
      assert Pow10(20) * Pow10(k - 20) >= Pow10(20) * 1;
    }
  }

  /** A number below `10^k` has at most `k` digits. */
  lemma {:induction false} DecLength(n: nat, k: nat)
    requires k >= 1 && n < Pow10(k)
    ensures |Dec(n)| <= k
    decreases k
  {
    if n >= 10 {
      assert k > 1;
      DecLength(n / 10, k - 1);
    }
  }

  /** `{}` has no leading zero. */
  lemma {:induction false} DecLeading(n: nat)
    ensures |Dec(n)| > 1 ==> Dec(n)[0] != '0'
    decreases n
  {
    if n >= 100 {
      DecLeading(n / 10);
      assert Dec(n)[0] == Dec(n / 10)[0];
    }
  }

  /** `{:0w}`: the decimal digits, left-padded with zeros to `w` characters. */
  function Pad(n: nat, w: nat): (r: string)
    ensures |r| == if |Dec(n)| < w then w else |Dec(n)|
    ensures AllDigits(r)
  {
    if |Dec(n)| < w then seq(w - |Dec(n)|, _ => '0') + Dec(n) else Dec(n)
  }

  /** `{:0w}` is zeros followed by `{}`. */
  lemma PadShape(n: nat, w: nat)
    ensures Pad(n, w)[|Pad(n, w)| - |Dec(n)|..] == Dec(n)
    ensures forall i :: 0 <= i < |Pad(n, w)| - |Dec(n)| ==> Pad(n, w)[i] == '0'
  {
  }

  function TrimStart(s: string): (r: string)
    ensures |r| <= |s| && r == s[|s| - |r|..]
    ensures forall i :: 0 <= i < |s| - |r| ==> IsTrimmed(s[i])
    ensures |r| > 0 ==> !IsTrimmed(r[0])
    decreases |s|
  {
    if |s| > 0 && IsTrimmed(s[0]) then TrimStart(s[1..]) else s
  }

  function TrimEnd(s: string): (r: string)
    ensures |r| <= |s| && r == s[..|r|]
    ensures forall i :: |r| <= i < |s| ==> IsTrimmed(s[i])
    ensures |r| > 0 ==> !IsTrimmed(r[|r| - 1])
    decreases |s|
  {
    if |s| > 0 && IsTrimmed(s[|s| - 1]) then TrimEnd(s[..|s| - 1]) else s
  }

  /** `str::trim`: the middle of `s` between its leading and trailing white
      space; neither end of the result is white space. */
  function Trim(s: string): (r: string)
    ensures |r| > 0 ==> !IsTrimmed(r[0]) && !IsTrimmed(r[|r| - 1])
    ensures |r| <= |s|
    ensures |s| == 0 || (!IsTrimmed(s[0]) && !IsTrimmed(s[|s| - 1])) ==> r == s
  {
    TrimEnd(TrimStart(s))
  }

  datatype IntErrorKind = Empty | InvalidDigit | PosOverflow

  /** The outcome of `u64::from_str`. */
  datatype IntResult = IntOk(value: u64) | IntErr(kind: IntErrorKind)

  /** The digit loop of `u64::from_str`: characters are taken left to right,
      a non-digit fails with `InvalidDigit` and a digit that takes the value
      past `u64::MAX` fails with `PosOverflow`, whichever comes first. */
  function ParseDigits(s: string): (r: IntResult)
    ensures r.IntOk? <==> AllDigits(s) && DigitsValue(s) <= U64_MAX
    ensures r.IntOk? ==> r.value == DigitsValue(s)
    ensures r != IntErr(Empty)
    decreases |s|
  {
    if |s| == 0 then IntOk(0)
    else
      var init := s[..|s| - 1];
      var c := s[|s| - 1];
      assert AllDigits(s) ==> AllDigits(init);
      match ParseDigits(init)
      case IntErr(k) =>
        assert AllDigits(s) ==> DigitsValue(s) >= DigitsValue(init);
        IntErr(k)
      case IntOk(v) =>
        if !IsDigit(c) then IntErr(InvalidDigit)
        else if v * 10 + DigitValue(c) > U64_MAX then IntErr(PosOverflow)
        else IntOk(v * 10 + DigitValue(c))
  }

  /** `u64::from_str`: the empty text fails with `Empty`, a lone sign with
      `InvalidDigit`; one leading `+` is accepted before the digits. */
  function ParseU64(s: string): (r: IntResult)
    ensures |s| == 0 <==> r == IntErr(Empty)
    ensures r.IntOk? ==> (AllDigits(s) && DigitsValue(s) == r.value)
                         || (s[0] == '+' && AllDigits(s[1..]) && DigitsValue(s[1..]) == r.value)
  {
    if |s| == 0 then IntErr(Empty)
    else if (s[0] == '+' || s[0] == '-') && |s| == 1 then IntErr(InvalidDigit)
    else if s[0] == '+' then ParseDigits(s[1..])
    else ParseDigits(s)
  }

  /** Reading the digits of `{}` gives the number back. */
  lemma {:induction false} DecValue(n: nat)
    ensures DigitsValue(Dec(n)) == n
    decreases n
  {
    if n >= 10 {
      var d := Dec(n);
      assert d[..|d| - 1] == Dec(n / 10);
      DecValue(n / 10);
    }
  }

  /** A leading zero does not change the value of a digit string. */
  lemma {:induction false} LeadingZeroValue(s: string)
    requires AllDigits(s)
    ensures AllDigits(['0'] + s) && DigitsValue(['0'] + s) == DigitsValue(s)
    decreases |s|
  {
    var z := ['0'] + s;
    assert AllDigits(z) by {
      forall i | 0 <= i < |z| ensures IsDigit(z[i]) {
        if i > 0 { assert z[i] == s[i - 1]; }
      }
    }
    if |s| > 0 {
      assert z[..|z| - 1] == ['0'] + s[..|s| - 1];
      LeadingZeroValue(s[..|s| - 1]);
    }
  }

  /** Zero padding does not change the value either. */
  lemma {:induction false} PadValue(n: nat, w: nat)
    ensures DigitsValue(Pad(n, w)) == n
    decreases w
  {
    if |Dec(n)| < w {
      var p := Pad(n, w);
      var q := Pad(n, w - 1);
      assert p == ['0'] + q;
      PadValue(n, w - 1);
      LeadingZeroValue(q);
      assert DigitsValue(p) == DigitsValue(q);
      assert DigitsValue(p) == n;
    } else {
      assert Pad(n, w) == Dec(n);
      DecValue(n);
      assert DigitsValue(Pad(n, w)) == n;
    }
  }

  /** Text of digits has nothing to trim. */
  lemma TrimDigits(s: string)
    requires AllDigits(s)
    ensures Trim(s) == s
  {
    if |s| > 0 {
      assert !IsTrimmed(s[0]) && !IsTrimmed(s[|s| - 1]);
    }
  }

  /** `u64::from_str` reads `{:0w}` of a `u64` back. */
  lemma ParsePad(n: u64, w: nat)
    ensures ParseU64(Pad(n, w)) == IntOk(n)
    ensures Trim(Pad(n, w)) == Pad(n, w)
  {
    PadValue(n, w);
    TrimDigits(Pad(n, w));
  }

  /** And `{}` of a `u64`, which is `{:01}`. */
  lemma ParseDec(n: u64)
    ensures ParseU64(Dec(n)) == IntOk(n)
    ensures Trim(Dec(n)) == Dec(n)
  {
    ParsePad(n, 0);
  }
}
