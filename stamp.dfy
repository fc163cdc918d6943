/** Time stamps of src/stamp.rs. A stamp stores the nanoseconds elapsed
    since its reference point plus one, so the stored value is never zero;
    the constructors keep it at most `i64::MAX`, the stored value of
    `never()`. */
module Stamp {
  import opened Ints
  import opened Wrappers
  import opened Span

  /** Elapsed nanoseconds plus one. */
  type StampRepr = x: int | 1 <= x <= 0x7FFF_FFFF_FFFF_FFFF witness 1

  /** The largest elapsed count a stamp can hold, that of `never()`. */
  const MAX_ELAPSED: int := I64_MAX - 1

  datatype TimeStamp = TimeStamp(nanos: StampRepr)
  {
    /** The smallest stamp: nothing has elapsed. */
    static function Start(): (r: TimeStamp)
      ensures r.NanosSinceStart() == 0
    {
      TimeStamp(1)
    }

    /** The largest stamp. */
    static function Never(): (r: TimeStamp)
      ensures r.NanosSinceStart() == MAX_ELAPSED
    {
      TimeStamp(I64_MAX)
    }

    /** The stamp `elapsed` nanoseconds after the reference point, or
        `None` when that is beyond `never()`. */
    static function FromElapsed(elapsed: u64): (r: Option<TimeStamp>)
      ensures r.None? <==> elapsed > MAX_ELAPSED
      ensures r.Some? ==> r.value.nanos == elapsed + 1
    {
      if elapsed > MAX_ELAPSED then None else Some(TimeStamp(elapsed + 1))
    }

    /** The private `nanos()` reading, as a signed 64-bit value. */
    function Nanos(): (r: int)
      ensures 0 <= r <= MAX_ELAPSED
      ensures FromElapsed(r) == Some(this)
    {
      nanos - 1
    }

    /** Elapsed nanoseconds since the reference point; `from_elapsed`
        rebuilds the same stamp from it. */
    function NanosSinceStart(): (r: u64)
      ensures r <= MAX_ELAPSED
      ensures FromElapsed(r) == Some(this)
    {
      nanos - 1
    }

    function ElapsedSinceStart(): (r: TimeSpan)
      ensures FromElapsed(r.nanos) == Some(this)
    {
      TimeSpan(Nanos())
    }

    /** The span from `since` to this stamp, or `None` when `since` is the
        later one. */
    function CheckedElapsedSince(since: TimeStamp): (r: Option<TimeSpan>)
      ensures r.None? <==> since.nanos > nanos
      ensures r.Some? ==> r.value.nanos + since.NanosSinceStart() == NanosSinceStart()
    {
      if since.nanos > nanos then None else Some(TimeSpan(Nanos() - since.Nanos()))
    }

    /** Panics, per its message, when `earlier` is greater than this stamp. */
    function ElapsedSince(earlier: TimeStamp): (r: TimeSpan)
      requires earlier.nanos <= nanos
      ensures CheckedElapsedSince(earlier) == Some(r)
    {
      TimeSpan(Nanos() - earlier.Nanos())
    }

    /** `add_span` as written: the i64 sum is refused only beyond
        `i64::MAX`, and the stored value `sum + 1` is returned as is; it can
        exceed the stored value of `never()`. */
    function AddSpanAsWritten(span: TimeSpan): (r: Option<int>)
      ensures r.None? <==> NanosSinceStart() + span.nanos > I64_MAX
      ensures r.Some? ==> r.value == NanosSinceStart() + span.nanos + 1 <= I64_MAX + 1
    {
      var sum := Nanos() + span.nanos;
      if sum > I64_MAX then None else Some(sum + 1)
    }

    /** `add_span`, refusing every sum that is past `never()`. */
    function AddSpan(span: TimeSpan): (r: Option<TimeStamp>)
      ensures r.None? <==> NanosSinceStart() + span.nanos > MAX_ELAPSED
      ensures r.Some? ==> r.value.NanosSinceStart() == NanosSinceStart() + span.nanos
    {
      var sum := Nanos() + span.nanos;
      if sum > MAX_ELAPSED then None else FromElapsed(sum)
    }

    /** `sub_span`: `None` when the span reaches back before the reference point. */
    function SubSpan(span: TimeSpan): (r: Option<TimeStamp>)
      ensures r.None? <==> span.nanos > NanosSinceStart()
      ensures r.Some? ==> r.value.NanosSinceStart() + span.nanos == NanosSinceStart()
    {
      var diff := Nanos() - span.nanos;
      if diff < 0 then None else FromElapsed(diff)
    }

    /** `TimeStamp + TimeSpan` as written, also what `+=` stores: panics
        exactly when `add_span` as written refuses, and otherwise yields
        the stored value, which for a sum of `i64::MAX` is past `never()`. */
    function AddOpAsWritten(span: TimeSpan): (r: int)
      requires NanosSinceStart() + span.nanos <= I64_MAX
      ensures AddSpanAsWritten(span) == Some(r)
      ensures NanosSinceStart() + span.nanos <= MAX_ELAPSED ==> r == AddOp(span).nanos
      ensures NanosSinceStart() + span.nanos == I64_MAX ==> r == I64_MAX + 1 && r > Never().nanos
    {
      AddSpanAsWritten(span).value
    }

    /** `TimeStamp + TimeSpan` over the corrected `add_span`: panics on
        every sum past `never()`. */
    function AddOp(span: TimeSpan): (r: TimeStamp)
      requires NanosSinceStart() + span.nanos <= MAX_ELAPSED
      ensures AddSpan(span) == Some(r)
    {
      AddSpan(span).value
    }

    /** `TimeStamp - TimeSpan`, also what `-=` stores; panics on underflow. */
    function SubOp(span: TimeSpan): (r: TimeStamp)
      requires span.nanos <= NanosSinceStart()
      ensures SubSpan(span) == Some(r)
    {
      SubSpan(span).value
    }

    /** `TimeStamp - TimeStamp`: the elapsed span. */
    function SubStampOp(rhs: TimeStamp): (r: TimeSpan)
      requires rhs.nanos <= nanos
      ensures r.nanos + rhs.NanosSinceStart() == NanosSinceStart()
    {
      ElapsedSince(rhs)
    }
  }

  /** The derived ordering of stamps, which compares the stored field. */
  predicate Before(a: TimeStamp, b: TimeStamp) {
    a.nanos < b.nanos
  }

  /** The derived order is the order of elapsed nanoseconds, with `start()`
      the least and `never()` the greatest stamp. */
  lemma OrderIsElapsedOrder(a: TimeStamp, b: TimeStamp)
    ensures Before(a, b) <==> a.NanosSinceStart() < b.NanosSinceStart()
    ensures !Before(a, TimeStamp.Start()) && !Before(TimeStamp.Never(), a)
    ensures a.CheckedElapsedSince(b).None? <==> Before(a, b)
  {
  }

  /** Adding a span and measuring the elapsed time since the original stamp
      gives the span back; subtracting it again gives the original stamp. */
  lemma AddSpanRoundTrip(s: TimeStamp, d: TimeSpan)
    requires s.AddSpan(d).Some?
    ensures s.AddSpan(d).value.ElapsedSince(s) == d
    ensures s.AddSpan(d).value.SubSpan(d) == Some(s)
  {
    var t := s.AddSpan(d).value;
    assert t.nanos == s.nanos + d.nanos;
  }

  /** Subtracting a span and adding it back gives the original stamp. */
  lemma SubSpanRoundTrip(s: TimeStamp, d: TimeSpan)
    requires s.SubSpan(d).Some?
    ensures s.SubSpan(d).value.AddSpan(d) == Some(s)
    ensures s.ElapsedSince(s.SubSpan(d).value) == d
  {
    var t := s.SubSpan(d).value;
    assert t.nanos + d.nanos == s.nanos;
  }

  /** `never() + 1ns` passes the as-written check and yields the stored
      value `i64::MAX + 1`, past every valid stamp; the corrected `add_span`
      refuses it. */
  lemma AddSpanPastNever()
    ensures TimeStamp.Never().AddSpanAsWritten(TimeSpan.NANOSECOND) == Some(I64_MAX + 1)
    ensures TimeStamp.Never().AddSpan(TimeSpan.NANOSECOND) == None
  {
  }

  /** The two checks agree on every sum that stays within `never()`. */
  lemma AddSpanAgreesBelowNever(s: TimeStamp, d: TimeSpan)
    requires s.NanosSinceStart() + d.nanos <= MAX_ELAPSED
    ensures s.AddSpanAsWritten(d) == Some(s.AddSpan(d).value.nanos)
  {
  }
}

/** The record a clock or ticker step yields (src/clock.rs, src/step.rs). */
module Step {
  import opened Span
  import opened Stamp

  /** The stamp of "now" and the span since the previous step. */
  datatype ClockStep = ClockStep(now: TimeStamp, step: TimeSpan)
}
