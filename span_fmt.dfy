/** `TimeSpan::fmt` of src/span.rs as the code runs it: a local copy of
    the span is cut down by `%=` after each unit is taken off, and the
    pieces are then written. The text it writes is `Format`. */
module SpanFmt {
  import opened Span
  import opened SpanDigits
  import opened SpanFormat

  /** Writes the short text of `self`. */
  method Fmt(self: TimeSpan) returns (text: string)
    ensures text == Format(self)
  {
    if self == TimeSpan.ZERO {
      return "0";
    }
    var span: nat := self.nanos;
    if span >= DAY {
      var days := span / DAY;
      span := span % DAY;
      var hours := span / HOUR;
      span := span % HOUR;
      var minutes := span / MINUTE;
      span := span % MINUTE;
      var seconds := span / SECOND;
      span := span % SECOND;
      var millis := span / MILLI;
      if millis > 0 {
        text := Dec(days) + "d" + Pad(hours, 2) + ":" + Pad(minutes, 2) + ":" + Pad(seconds, 2)
                + "." + Pad(millis, 3);
      } else if seconds > 0 {
        text := Dec(days) + "d" + Pad(hours, 2) + ":" + Pad(minutes, 2) + ":" + Pad(seconds, 2);
      } else {
        text := Dec(days) + "d" + Pad(hours, 2) + ":" + Pad(minutes, 2);
      }
    } else if span >= HOUR {
      var hours := span / HOUR;
      span := span % HOUR;
      var minutes := span / MINUTE;
      span := span % MINUTE;
      var seconds := span / SECOND;
      span := span % SECOND;
      var millis := span / MILLI;
      if millis > 0 {
        text := Dec(hours) + ":" + Pad(minutes, 2) + ":" + Pad(seconds, 2) + "." + Pad(millis, 3);
      } else {
        text := Dec(hours) + ":" + Pad(minutes, 2) + ":" + Pad(seconds, 2);
      }
    } else if span >= MINUTE {
      var minutes := span / MINUTE;
      span := span % MINUTE;
      var seconds := span / SECOND;
      span := span % SECOND;
      var millis := span / MILLI;
      if millis > 0 {
        text := Dec(minutes) + ":" + Pad(seconds, 2) + "." + Pad(millis, 3);
      } else {
        text := Dec(minutes) + ":" + Pad(seconds, 2);
      }
    } else if span >= SECOND {
      var seconds := span / SECOND;
      span := span % SECOND;
      var millis := span / MILLI;
      if millis > 0 {
        text := Dec(seconds) + "." + Pad(millis, 3) + "s";
      } else {
        text := Dec(seconds) + "s";
      }
    } else if span >= MILLI {
      var millis := span / MILLI;
      span := span % MILLI;
      var micros := span / MICRO;
      if micros > 0 {
        text := Dec(millis) + "." + Pad(micros, 3) + "ms";
      } else {
        text := Dec(millis) + "ms";
      }
    } else if span >= MICRO {
      var micros := span / MICRO;
      span := span % MICRO;
      var nanos := span;
      if nanos > 0 {
        text := Dec(micros) + "." + Pad(nanos, 3) + "us";
      } else {
        text := Dec(micros) + "us";
      }
    } else {
      text := Dec(span) + "ns";
    }
  }
}
