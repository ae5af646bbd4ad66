/**
 * Instants and times of day.
 *
 * An instant is an integer number of milliseconds on the server's local
 * time line, so that JavaScript's `setHours(0, 0, 0, 0)` is flooring to a
 * multiple of one day. A time of day is the "HH:mm" string the client sends
 * and the `time` columns store; the services read it through the
 * ECMAScript date-time string format as `1970-01-01THH:mm:00`.
 */
module Clock {
  import opened Common

  /** Milliseconds in one day: 1000 * 60 * 60 * 24. */
  const DayMs: int := 86_400_000

  /** Local midnight of the day holding `t` (`setHours(0, 0, 0, 0)`). */
  function StartOfDay(t: int): (m: int)
    ensures m <= t < m + DayMs
    ensures m % DayMs == 0
  {
    t - t % DayMs
  }

  /** The last millisecond of the day holding `t` (`setHours(23, 59, 59, 999)`). */
  function EndOfDay(t: int): (m: int)
    ensures StartOfDay(m) == StartOfDay(t)
    ensures StartOfDay(m + 1) == StartOfDay(t) + DayMs
  {
    var d := StartOfDay(t);
    MidnightIsStart(d, d + DayMs - 1);
    MidnightIsStart(d + DayMs, d + DayMs);
    d + DayMs - 1
  }

  /** A midnight `m` is the start of every instant of the day that follows it. */
  lemma MidnightIsStart(m: int, t: int)
    requires m % DayMs == 0 && m <= t < m + DayMs
    ensures StartOfDay(t) == m
  {
    var q := m / DayMs;
    assert m == q * DayMs;
    assert t == q * DayMs + (t - m);
    assert t % DayMs == t - m;
  }

  /** Instants are ordered no later than their days are. */
  lemma StartOfDayMonotone(a: int, b: int)
    requires a <= b
    ensures StartOfDay(a) <= StartOfDay(b)
  {
  }

  /**
   * Widening a query to whole days: an instant lies between the start of
   * the day of `s` and the end of the day of `e` exactly when its own day
   * lies between the two days.
   */
  lemma WidenedBetween(s: int, e: int, x: int)
    ensures StartOfDay(s) <= x <= EndOfDay(e)
        <==> StartOfDay(s) <= StartOfDay(x) <= StartOfDay(e)
  {
    var ds, dx, de := StartOfDay(s), StartOfDay(x), StartOfDay(e);
    if ds <= x {
      StartOfDayMonotone(ds, x);
      MidnightIsStart(ds, ds);
    }
    if x <= EndOfDay(e) {
      StartOfDayMonotone(x, EndOfDay(e));
    }
    if ds <= dx {
      assert ds <= x;
    }
    if dx <= de {
      if x > EndOfDay(e) {
        StartOfDayMonotone(EndOfDay(e) + 1, x);
        assert false;
      }
    }
  }

  predicate IsDigit(c: char) {
    '0' <= c <= '9'
  }

  function Digit(c: char): (d: nat)
    requires IsDigit(c)
    ensures d < 10
  {
    c as int - '0' as int
  }

  function DigitChar(d: nat): (c: char)
    requires d < 10
    ensures IsDigit(c) && Digit(c) == d
  {
    ('0' as int + d) as char
  }

  /**
   * Minutes since midnight denoted by an "HH:mm" string, or None where the
   * date-time string format rejects `1970-01-01THH:mm:00` (the engine then
   * yields an invalid date). Hours run from 00 to 23, minutes from 00 to
   * 59, and "24:00" denotes the midnight that ends the day.
   */
  function ParseClock(s: string): (r: Option<nat>)
    ensures r.Some? ==> r.value <= 1440
    ensures r.Some? ==> |s| == 5 && s[2] == ':'
  {
    if |s| == 5 && IsDigit(s[0]) && IsDigit(s[1]) && s[2] == ':' && IsDigit(s[3]) && IsDigit(s[4]) then
      var hh := Digit(s[0]) * 10 + Digit(s[1]);
      var mm := Digit(s[3]) * 10 + Digit(s[4]);
      if hh < 24 && mm < 60 then Some(hh * 60 + mm)
      else if hh == 24 && mm == 0 then Some(1440)
      else None
    else None
  }

  /** The "HH:mm" string the client writes for a time of day (date-fns `format(now, 'HH:mm')`). */
  function FormatClock(m: nat): (s: string)
    requires m <= 1440
    ensures |s| == 5 && s[2] == ':'
  {
    var hh, mm := m / 60, m % 60;
    [DigitChar(hh / 10), DigitChar(hh % 10), ':', DigitChar(mm / 10), DigitChar(mm % 10)]
  }

  /** Every time of day the client writes is read back as the same minute. */
  lemma ParseFormat(m: nat)
    requires m <= 1440
    ensures ParseClock(FormatClock(m)) == Some(m)
  {
    var s := FormatClock(m);
    var hh, mm := m / 60, m % 60;
    assert Digit(s[0]) * 10 + Digit(s[1]) == hh;
    assert Digit(s[3]) * 10 + Digit(s[4]) == mm;
  }

  /** Every string that parses is the client's spelling of its minute. */
  lemma FormatParse(s: string)
    requires ParseClock(s).Some?
    ensures FormatClock(ParseClock(s).value) == s
  {
    var m := ParseClock(s).value;
    var t := FormatClock(m);
    var h0, h1, m0, m1 := Digit(s[0]), Digit(s[1]), Digit(s[3]), Digit(s[4]);
    if m == 1440 {
      assert h0 * 10 + h1 == 24 && m0 * 10 + m1 == 0;
    } else {
      assert m / 60 == h0 * 10 + h1 && m % 60 == m0 * 10 + m1;
    }
    assert t[0] == s[0] && t[1] == s[1] && t[3] == s[3] && t[4] == s[4];
    assert t == s;
  }
}
