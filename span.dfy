/** Time spans of src/span.rs: a `TimeSpan` is an unsigned 64-bit count of
    nanoseconds, a `NonZeroTimeSpan` one that is never zero. Checked
    operations return `None` where the unsigned arithmetic would fail; the
    operators, which `expect` the checked result, require that it does not. */
module Span {
  import opened Ints
  import opened Wrappers
  import DivMod

  datatype TimeSpan = TimeSpan(nanos: u64)
  {
    static const ZERO: TimeSpan := TimeSpan(0)
    static const NANOSECOND: TimeSpan := TimeSpan(1)
    static const MICROSECOND: TimeSpan := TimeSpan(1_000)
    static const MILLISECOND: TimeSpan := TimeSpan(1_000_000)
    static const SECOND: TimeSpan := TimeSpan(1_000_000_000)
    static const MINUTE: TimeSpan := TimeSpan(60_000_000_000)
    static const HOUR: TimeSpan := TimeSpan(3_600_000_000_000)
    static const DAY: TimeSpan := TimeSpan(86_400_000_000_000)
    static const WEEK: TimeSpan := TimeSpan(604_800_000_000_000)
    static const JULIAN_YEAR: TimeSpan := TimeSpan(31_557_600_000_000_000)
    /** The Gregorian year as the source writes it: a thousandth of the
        365.2425 days its documentation gives. */
    static const GREGORIAN_YEAR_AS_WRITTEN: TimeSpan := TimeSpan(31_556_952_000_000)
    /** The Gregorian year of 365.2425 days. */
    static const GREGORIAN_YEAR: TimeSpan := TimeSpan(31_556_952_000_000_000)
    static const SOLAR_YEAR: TimeSpan := TimeSpan(31_556_925_216_000_000)
    static const YEAR: TimeSpan := SOLAR_YEAR

    /** Whole microseconds in this span. */
    function AsMicros(): (r: u64)
      ensures r * MICROSECOND.nanos <= nanos < (r + 1) * MICROSECOND.nanos
    {
      nanos / MICROSECOND.nanos
    }

    /** Whole milliseconds in this span. */
    function AsMillis(): (r: u64)
      ensures r * MILLISECOND.nanos <= nanos < (r + 1) * MILLISECOND.nanos
    {
      nanos / MILLISECOND.nanos
    }

    /** Whole seconds in this span. */
    function AsSeconds(): (r: u64)
      ensures r * SECOND.nanos <= nanos < (r + 1) * SECOND.nanos
    {
      nanos / SECOND.nanos
    }

    /** Whole minutes in this span. */
    function AsMinutes(): (r: u64)
      ensures r * MINUTE.nanos <= nanos < (r + 1) * MINUTE.nanos
    {
      nanos / MINUTE.nanos
    }

    /** Whole hours in this span. */
    function AsHours(): (r: u64)
      ensures r * HOUR.nanos <= nanos < (r + 1) * HOUR.nanos
    {
      nanos / HOUR.nanos
    }

    /** Whole days in this span. */
    function AsDays(): (r: u64)
      ensures r * DAY.nanos <= nanos < (r + 1) * DAY.nanos
    {
      nanos / DAY.nanos
    }

    /** Whole weeks in this span. */
    function AsWeeks(): (r: u64)
      ensures r * WEEK.nanos <= nanos < (r + 1) * WEEK.nanos
    {
      nanos / WEEK.nanos
    }

    function CheckedAdd(span: TimeSpan): (r: Option<TimeSpan>)
      ensures r.None? <==> nanos + span.nanos > U64_MAX
      ensures r.Some? ==> r.value.nanos - span.nanos == nanos
    {
      if nanos + span.nanos > U64_MAX then None else Some(TimeSpan(nanos + span.nanos))
    }

    function CheckedSub(span: TimeSpan): (r: Option<TimeSpan>)
      ensures r.None? <==> span.nanos > nanos
      ensures r.Some? ==> r.value.nanos + span.nanos == nanos
    {
      if span.nanos > nanos then None else Some(TimeSpan(nanos - span.nanos))
    }

    function CheckedMul(value: u64): (r: Option<TimeSpan>)
      ensures r.None? <==> nanos * value > U64_MAX
      ensures r.Some? ==> r.value.nanos == nanos * value
    {
      if nanos * value > U64_MAX then None else Some(TimeSpan(nanos * value))
    }

    /** Division by a scalar, rounding down; `None` for a zero divisor. */
    function CheckedDiv(value: u64): (r: Option<TimeSpan>)
      ensures r.None? <==> value == 0
      ensures r.Some? ==> r.value.nanos * value <= nanos < (r.value.nanos + 1) * value
    {
      if value == 0 then None else Some(TimeSpan(nanos / value))
    }

    function Div(value: NonZeroU64): (r: TimeSpan)
      ensures r.nanos * value <= nanos < (r.nanos + 1) * value
    {
      TimeSpan(nanos / value)
    }

    /** How many whole `span`s fit in this one; `None` for a zero span. */
    function CheckedDivSpan(span: TimeSpan): (r: Option<u64>)
      ensures r.None? <==> span.nanos == 0
      ensures r.Some? ==> r.value * span.nanos <= nanos < (r.value + 1) * span.nanos
    {
      if span.nanos == 0 then None else Some(nanos / span.nanos)
    }

    function DivSpan(span: NonZeroTimeSpan): (r: u64)
      ensures r * span.nanos <= nanos < (r + 1) * span.nanos
    {
      nanos / span.nanos
    }

    function CheckedRem(value: u64): (r: Option<TimeSpan>)
      ensures r.None? <==> value == 0
      ensures r.Some? ==> r.value.nanos < value && Div(value).nanos * value + r.value.nanos == nanos
    {
      if value == 0 then None else Some(TimeSpan(nanos % value))
    }

    function Rem(value: NonZeroU64): (r: TimeSpan)
      ensures r.nanos < value && Div(value).nanos * value + r.nanos == nanos
    {
      TimeSpan(nanos % value)
    }

    function CheckedRemSpan(span: TimeSpan): (r: Option<TimeSpan>)
      ensures r.None? <==> span.nanos == 0
      ensures r.Some? ==> r.value.nanos < span.nanos && CheckedDivSpan(span).value * span.nanos + r.value.nanos == nanos
    {
      if span.nanos == 0 then None else Some(TimeSpan(nanos % span.nanos))
    }

    function RemSpan(span: NonZeroTimeSpan): (r: TimeSpan)
      ensures r.nanos < span.nanos && DivSpan(span) * span.nanos + r.nanos == nanos
    {
      TimeSpan(nanos % span.nanos)
    }

    /** `TimeSpan + TimeSpan`; panics on overflow. */
    function AddOp(rhs: TimeSpan): (r: TimeSpan)
      requires nanos + rhs.nanos <= U64_MAX
      ensures CheckedAdd(rhs) == Some(r)
    {
      TimeSpan(nanos + rhs.nanos)
    }

    /** `TimeSpan + NonZeroTimeSpan`, computed as `rhs.checked_add(self)`. */
    function AddNonZeroOp(rhs: NonZeroTimeSpan): (r: NonZeroTimeSpan)
      requires nanos + rhs.nanos <= U64_MAX
      ensures r.nanos - rhs.nanos == nanos
    {
      rhs.CheckedAdd(this).value
    }

    /** `TimeSpan - TimeSpan`; panics on underflow. */
    function SubOp(rhs: TimeSpan): (r: TimeSpan)
      requires rhs.nanos <= nanos
      ensures CheckedSub(rhs) == Some(r)
    {
      TimeSpan(nanos - rhs.nanos)
    }

    /** `TimeSpan - NonZeroTimeSpan` as the source writes it:
        `rhs.checked_sub(self)`, the operands swapped. `None` is the panic. */
    function SubNonZeroOpAsWritten(rhs: NonZeroTimeSpan): (r: Option<TimeSpan>)
      ensures r.None? <==> nanos > rhs.nanos
      ensures r.Some? ==> r.value.nanos == rhs.nanos - nanos
    {
      rhs.CheckedSub(this)
    }

    /** `TimeSpan - NonZeroTimeSpan` as evidently intended: `self - rhs`. */
    function SubNonZeroOp(rhs: NonZeroTimeSpan): (r: TimeSpan)
      requires rhs.nanos <= nanos
      ensures r.nanos + rhs.nanos == nanos
    {
      CheckedSub(rhs.Widen()).value
    }

    /** `TimeSpan * u64`; panics on overflow. */
    function MulOp(rhs: u64): (r: TimeSpan)
      requires nanos * rhs <= U64_MAX
      ensures CheckedMul(rhs) == Some(r)
    {
      TimeSpan(nanos * rhs)
    }

    /** `TimeSpan / u64`; panics on a zero divisor. */
    function DivOp(rhs: u64): (r: TimeSpan)
      requires rhs != 0
      ensures CheckedDiv(rhs) == Some(r)
    {
      Div(rhs)
    }

    /** `TimeSpan % u64`; panics on a zero divisor. */
    function RemOp(rhs: u64): (r: TimeSpan)
      requires rhs != 0
      ensures CheckedRem(rhs) == Some(r)
    {
      Rem(rhs)
    }

    /** `TimeSpan / TimeSpan`; panics on a zero divisor. */
    function DivSpanOp(rhs: TimeSpan): (r: u64)
      requires rhs.nanos != 0
      ensures CheckedDivSpan(rhs) == Some(r)
    {
      nanos / rhs.nanos
    }

    /** `TimeSpan % TimeSpan`; panics on a zero divisor. */
    function RemSpanOp(rhs: TimeSpan): (r: TimeSpan)
      requires rhs.nanos != 0
      ensures CheckedRemSpan(rhs) == Some(r)
    {
      TimeSpan(nanos % rhs.nanos)
    }
  }

  datatype NonZeroTimeSpan = NonZeroTimeSpan(nanos: NonZeroU64)
  {
    static const NANOSECOND: NonZeroTimeSpan := NonZeroTimeSpan(1)
    static const MICROSECOND: NonZeroTimeSpan := NonZeroTimeSpan(1_000)
    static const MILLISECOND: NonZeroTimeSpan := NonZeroTimeSpan(1_000_000)
    static const SECOND: NonZeroTimeSpan := NonZeroTimeSpan(1_000_000_000)
    static const MINUTE: NonZeroTimeSpan := NonZeroTimeSpan(60_000_000_000)
    static const HOUR: NonZeroTimeSpan := NonZeroTimeSpan(3_600_000_000_000)
    static const DAY: NonZeroTimeSpan := NonZeroTimeSpan(86_400_000_000_000)
    static const WEEK: NonZeroTimeSpan := NonZeroTimeSpan(604_800_000_000_000)
    static const JULIAN_YEAR: NonZeroTimeSpan := NonZeroTimeSpan(31_557_600_000_000_000)
    /** As written, the same thousandth of a Gregorian year as the plain constant. */
    static const GREGORIAN_YEAR_AS_WRITTEN: NonZeroTimeSpan := NonZeroTimeSpan(31_556_952_000_000)
    static const GREGORIAN_YEAR: NonZeroTimeSpan := NonZeroTimeSpan(31_556_952_000_000_000)
    static const SOLAR_YEAR: NonZeroTimeSpan := NonZeroTimeSpan(31_556_925_216_000_000)
    static const YEAR: NonZeroTimeSpan := SOLAR_YEAR

    /** The `From<NonZeroTimeSpan> for TimeSpan` conversion. */
    function Widen(): (r: TimeSpan)
      ensures r.nanos == nanos && r.nanos != 0
    {
      TimeSpan(nanos)
    }

    /** The `TryFrom<TimeSpan>` conversion: fails exactly for the zero span. */
    static function TryFrom(span: TimeSpan): (r: Option<NonZeroTimeSpan>)
      ensures r.None? <==> span.nanos == 0
      ensures r.Some? ==> r.value.Widen() == span
    {
      if span.nanos == 0 then None else Some(NonZeroTimeSpan(span.nanos))
    }

    function AsMicros(): (r: u64)
      ensures r * MICROSECOND.nanos <= nanos < (r + 1) * MICROSECOND.nanos
    {
      nanos / MICROSECOND.nanos
    }

    function AsMillis(): (r: u64)
      ensures r * MILLISECOND.nanos <= nanos < (r + 1) * MILLISECOND.nanos
    {
      nanos / MILLISECOND.nanos
    }

    function AsSeconds(): (r: u64)
      ensures r * SECOND.nanos <= nanos < (r + 1) * SECOND.nanos
    {
      nanos / SECOND.nanos
    }

    function AsMinutes(): (r: u64)
      ensures r * MINUTE.nanos <= nanos < (r + 1) * MINUTE.nanos
    {
      nanos / MINUTE.nanos
    }

    function AsHours(): (r: u64)
      ensures r * HOUR.nanos <= nanos < (r + 1) * HOUR.nanos
    {
      nanos / HOUR.nanos
    }

    function AsDays(): (r: u64)
      ensures r * DAY.nanos <= nanos < (r + 1) * DAY.nanos
    {
      nanos / DAY.nanos
    }

    function AsWeeks(): (r: u64)
      ensures r * WEEK.nanos <= nanos < (r + 1) * WEEK.nanos
    {
      nanos / WEEK.nanos
    }

    /** Adding any span to a non-zero span gives a non-zero span. */
    function CheckedAdd(span: TimeSpan): (r: Option<NonZeroTimeSpan>)
      ensures r.None? <==> nanos + span.nanos > U64_MAX
      ensures r.Some? ==> r.value.nanos - span.nanos == nanos && r.value.nanos >= 1
    {
      if nanos + span.nanos > U64_MAX then None else Some(NonZeroTimeSpan(nanos + span.nanos))
    }

    function CheckedSub(span: TimeSpan): (r: Option<TimeSpan>)
      ensures r.None? <==> span.nanos > nanos
      ensures r.Some? ==> r.value.nanos + span.nanos == nanos
    {
      Widen().CheckedSub(span)
    }

    function CheckedMul(value: u64): (r: Option<TimeSpan>)
      ensures r.None? <==> nanos * value > U64_MAX
      ensures r.Some? ==> r.value.nanos == nanos * value
    {
      Widen().CheckedMul(value)
    }

    /** A product of two non-zero factors is non-zero. */
    function CheckedMulNonZero(value: NonZeroU64): (r: Option<NonZeroTimeSpan>)
      ensures r.None? <==> nanos * value > U64_MAX
      ensures r.Some? ==> r.value.nanos == nanos * value && r.value.nanos >= 1
    {
      MulPositive(nanos, value);
      if nanos * value > U64_MAX then None else Some(NonZeroTimeSpan(nanos * value))
    }

    function CheckedDiv(value: u64): (r: Option<TimeSpan>)
      ensures r.None? <==> value == 0
      ensures r.Some? ==> r.value.nanos * value <= nanos < (r.value.nanos + 1) * value
    {
      Widen().CheckedDiv(value)
    }

    function Div(value: NonZeroU64): (r: TimeSpan)
      ensures r.nanos * value <= nanos < (r.nanos + 1) * value
    {
      Widen().Div(value)
    }

    function CheckedDivSpan(span: TimeSpan): (r: Option<u64>)
      ensures r.None? <==> span.nanos == 0
      ensures r.Some? ==> r.value * span.nanos <= nanos < (r.value + 1) * span.nanos
    {
      Widen().CheckedDivSpan(span)
    }

    function DivSpan(span: NonZeroTimeSpan): (r: u64)
      ensures r * span.nanos <= nanos < (r + 1) * span.nanos
    {
      Widen().DivSpan(span)
    }

    function CheckedRem(value: u64): (r: Option<TimeSpan>)
      ensures r.None? <==> value == 0
      ensures r.Some? ==> r.value.nanos < value && Div(value).nanos * value + r.value.nanos == nanos
    {
      Widen().CheckedRem(value)
    }

    function Rem(value: NonZeroU64): (r: TimeSpan)
      ensures r.nanos < value && Div(value).nanos * value + r.nanos == nanos
    {
      Widen().Rem(value)
    }

    function CheckedRemSpan(span: TimeSpan): (r: Option<TimeSpan>)
      ensures r.None? <==> span.nanos == 0
      ensures r.Some? ==> r.value.nanos < span.nanos && CheckedDivSpan(span).value * span.nanos + r.value.nanos == nanos
    {
      Widen().CheckedRemSpan(span)
    }

    function RemSpan(span: NonZeroTimeSpan): (r: TimeSpan)
      ensures r.nanos < span.nanos && DivSpan(span) * span.nanos + r.nanos == nanos
    {
      Widen().RemSpan(span)
    }

    /** `NonZeroTimeSpan * NonZeroU64`; panics on overflow. */
    function MulOp(rhs: NonZeroU64): (r: NonZeroTimeSpan)
      requires nanos * rhs <= U64_MAX
      ensures r.nanos == nanos * rhs
    {
      CheckedMulNonZero(rhs).value
    }
  }

  lemma MulPositive(a: int, b: int)
    requires a >= 1 && b >= 1
    ensures a * b >= 1
  {
    assert a * b == (a - 1) * b + b;
    assert (a - 1) * b >= 0;
  }

  /** Each unit is a whole number of the next smaller one. */
  lemma UnitsChain()
    ensures TimeSpan.NANOSECOND.nanos == 1
    ensures TimeSpan.MICROSECOND.nanos == 1000 * TimeSpan.NANOSECOND.nanos
    ensures TimeSpan.MILLISECOND.nanos == 1000 * TimeSpan.MICROSECOND.nanos
    ensures TimeSpan.SECOND.nanos == 1000 * TimeSpan.MILLISECOND.nanos
    ensures TimeSpan.MINUTE.nanos == 60 * TimeSpan.SECOND.nanos
    ensures TimeSpan.HOUR.nanos == 60 * TimeSpan.MINUTE.nanos
    ensures TimeSpan.DAY.nanos == 24 * TimeSpan.HOUR.nanos
    ensures TimeSpan.WEEK.nanos == 7 * TimeSpan.DAY.nanos
    ensures TimeSpan.JULIAN_YEAR.nanos * 100 == 36525 * TimeSpan.DAY.nanos
    ensures TimeSpan.GREGORIAN_YEAR.nanos * 10000 == 3652425 * TimeSpan.DAY.nanos
    ensures TimeSpan.SOLAR_YEAR.nanos * 100000 == 36524219 * TimeSpan.DAY.nanos
    ensures TimeSpan.YEAR == TimeSpan.SOLAR_YEAR
  {
  }

  /** The non-zero constants are the same spans as the plain ones. */
  lemma NonZeroUnitsAgree()
    ensures NonZeroTimeSpan.NANOSECOND.Widen() == TimeSpan.NANOSECOND
    ensures NonZeroTimeSpan.MICROSECOND.Widen() == TimeSpan.MICROSECOND
    ensures NonZeroTimeSpan.MILLISECOND.Widen() == TimeSpan.MILLISECOND
    ensures NonZeroTimeSpan.SECOND.Widen() == TimeSpan.SECOND
    ensures NonZeroTimeSpan.MINUTE.Widen() == TimeSpan.MINUTE
    ensures NonZeroTimeSpan.HOUR.Widen() == TimeSpan.HOUR
    ensures NonZeroTimeSpan.DAY.Widen() == TimeSpan.DAY
    ensures NonZeroTimeSpan.WEEK.Widen() == TimeSpan.WEEK
    ensures NonZeroTimeSpan.JULIAN_YEAR.Widen() == TimeSpan.JULIAN_YEAR
    ensures NonZeroTimeSpan.GREGORIAN_YEAR.Widen() == TimeSpan.GREGORIAN_YEAR
    ensures NonZeroTimeSpan.SOLAR_YEAR.Widen() == TimeSpan.SOLAR_YEAR
    ensures NonZeroTimeSpan.YEAR.Widen() == TimeSpan.YEAR
  {
  }

  /** The written Gregorian year is shorter than a single day, so it cannot
      be the 365.2425 days its documentation states. */
  lemma GregorianYearAsWrittenIsUnderADay()
    ensures TimeSpan.GREGORIAN_YEAR_AS_WRITTEN.nanos < TimeSpan.DAY.nanos
    ensures TimeSpan.GREGORIAN_YEAR_AS_WRITTEN.nanos * 10000 != 3652425 * TimeSpan.DAY.nanos
    ensures TimeSpan.GREGORIAN_YEAR_AS_WRITTEN.nanos * 1000 == TimeSpan.GREGORIAN_YEAR.nanos
    ensures NonZeroTimeSpan.GREGORIAN_YEAR_AS_WRITTEN.Widen() == TimeSpan.GREGORIAN_YEAR_AS_WRITTEN
  {
  }

  /** The operand swap of `TimeSpan - NonZeroTimeSpan`: 5ns - 3ns panics,
      and 1ns - 3ns yields 2ns, where `self - rhs` is intended. */
  lemma SubNonZeroSwapped()
    ensures TimeSpan(5).SubNonZeroOpAsWritten(NonZeroTimeSpan(3)) == None
    ensures TimeSpan(5).SubNonZeroOp(NonZeroTimeSpan(3)) == TimeSpan(2)
    ensures TimeSpan(1).SubNonZeroOpAsWritten(NonZeroTimeSpan(3)) == Some(TimeSpan(2))
  {
  }

  /** Adding and then subtracting the same span is the identity, and
      subtracting and adding back restores the original. */
  lemma AddSubRoundTrip(a: TimeSpan, b: TimeSpan)
    ensures a.CheckedAdd(b).Some? ==> a.CheckedAdd(b).value.CheckedSub(b) == Some(a)
    ensures a.CheckedSub(b).Some? ==> a.CheckedSub(b).value.CheckedAdd(b) == Some(a)
  {
  }

  /** Quotient and remainder by a span recompose the dividend. */
  lemma DivRemRecompose(a: TimeSpan, d: NonZeroTimeSpan)
    ensures a.DivSpan(d) * d.nanos + a.RemSpan(d).nanos == a.nanos
  {
  }

  /** Multiplying by a non-zero scalar and dividing by it again is the identity. */
  lemma MulDivRoundTrip(a: TimeSpan, k: NonZeroU64)
    requires a.CheckedMul(k).Some?
    ensures a.CheckedMul(k).value.Div(k) == a
  {
    var p := a.CheckedMul(k).value;
    assert p.nanos == a.nanos * k;
    DivMod.MulDivExact(a.nanos, k);
  }
}
