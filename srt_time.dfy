/**
 * `timedelta_to_str`: an offset from the start of the audio, held as the
 * whole number of microseconds that `datetime.timedelta(seconds=...)` stores,
 * rendered as the SubRip time stamp `HH:MM:SS,mmm`.
 *
 * The hours are `delta.seconds // 3600`, and `delta.seconds` leaves out the
 * whole days, so an offset of 24 hours or more wraps around; milliseconds are
 * `delta.microseconds // 1000`, so sub-millisecond parts are cut off, not
 * rounded.
 */
module SrtTime {
  import opened Options
  import opened Decimal

  const MicrosPerSecond: nat := 1000000
  const SecondsPerDay: nat := 86400
  const MillisPerDay: nat := 86400000

  /** Python's normalised `timedelta`: whole days, then `0 <= seconds < 86400`, then `0 <= microseconds < 10^6`. */
  datatype Delta = Delta(days: nat, seconds: nat, microseconds: nat)

  /** `timedelta(microseconds=us)` for `us >= 0`. */
  function ToTimedelta(us: nat): (d: Delta)
    ensures d.seconds < SecondsPerDay && d.microseconds < MicrosPerSecond
    ensures (d.days * SecondsPerDay + d.seconds) * MicrosPerSecond + d.microseconds == us
  {
    var total := us / MicrosPerSecond;
    Delta(total / SecondsPerDay, total % SecondsPerDay, us % MicrosPerSecond)
  }

  /** The offset cut down to whole milliseconds and taken modulo one day. */
  function MillisOfDay(us: nat): (ms: nat)
    ensures ms < MillisPerDay
  {
    (us / 1000) % MillisPerDay
  }

  /** `timedelta_to_str(seconds)`, where `us` is the offset in microseconds. */
  function TimedeltaToStr(us: nat): (r: string)
    ensures IsTimestamp(r)
  {
    var delta := ToTimedelta(us);
    var h, m, s, ms := delta.seconds / 3600, (delta.seconds / 60) % 60, delta.seconds % 60, delta.microseconds / 1000;
    FieldDigits(h, m, s, ms);
    LayoutIsTimestamp(h, m, s, ms);
    ZeroPad(h, 2) + ":" + ZeroPad(m, 2) + ":" + ZeroPad(s, 2) + "," + ZeroPad(ms, 3)
  }

  /** The value of the two digits at `i` and `i + 1`. */
  function TwoDigits(t: string, i: nat): nat
    requires i + 1 < |t| && IsDigit(t[i]) && IsDigit(t[i + 1])
  {
    10 * DigitValue(t[i]) + DigitValue(t[i + 1])
  }

  /**
   * The layout of a time stamp: 12 characters, digits at 0,1,3,4,6,7,9,10,11,
   * ':' at 2 and 5, ',' at 8; hours below 24, minutes and seconds below 60.
   */
  predicate IsTimestamp(t: string) {
    && |t| == 12
    && IsDigit(t[0]) && IsDigit(t[1]) && t[2] == ':'
    && IsDigit(t[3]) && IsDigit(t[4]) && t[5] == ':'
    && IsDigit(t[6]) && IsDigit(t[7]) && t[8] == ','
    && IsDigit(t[9]) && IsDigit(t[10]) && IsDigit(t[11])
    && TwoDigits(t, 0) < 24 && TwoDigits(t, 3) < 60 && TwoDigits(t, 6) < 60
  }

  /** The milliseconds since midnight that a time stamp stands for. */
  function TimestampMillis(t: string): (ms: nat)
    requires IsTimestamp(t)
    ensures ms < MillisPerDay
  {
    Millis(TwoDigits(t, 0), TwoDigits(t, 3), TwoDigits(t, 6), 100 * DigitValue(t[9]) + 10 * DigitValue(t[10]) + DigitValue(t[11]))
  }

  /** The milliseconds in `h` hours, `m` minutes, `s` seconds and `ms` milliseconds. */
  function Millis(h: nat, m: nat, s: nat, ms: nat): nat {
    h * 3600000 + m * 60000 + s * 1000 + ms
  }

  /** Reads a time stamp back; `None` for text that is not laid out as one. */
  function ParseTimestamp(t: string): Option<nat> {
    if IsTimestamp(t) then Some(TimestampMillis(t)) else None
  }

  /** The twelve characters of a time stamp with the given fields. */
  function Layout(h: nat, m: nat, s: nat, ms: nat): string
    requires h < 100 && m < 100 && s < 100 && ms < 1000
  {
    [DigitChar(h / 10), DigitChar(h % 10), ':', DigitChar(m / 10), DigitChar(m % 10), ':',
     DigitChar(s / 10), DigitChar(s % 10), ',', DigitChar(ms / 100), DigitChar(ms / 10 % 10), DigitChar(ms % 10)]
  }

  /** The padded fields joined by the separators, one character at a time. */
  lemma FieldDigits(h: nat, m: nat, s: nat, ms: nat)
    requires h < 100 && m < 100 && s < 100 && ms < 1000
    ensures ZeroPad(h, 2) + ":" + ZeroPad(m, 2) + ":" + ZeroPad(s, 2) + "," + ZeroPad(ms, 3) == Layout(h, m, s, ms)
  {
    ZeroPadTwo(h);
    ZeroPadTwo(m);
    ZeroPadTwo(s);
    ZeroPadThree(ms);
  }

  /** A layout with fields in range is a time stamp for those fields. */
  lemma LayoutIsTimestamp(h: nat, m: nat, s: nat, ms: nat)
    requires h < 24 && m < 60 && s < 60 && ms < 1000
    ensures IsTimestamp(Layout(h, m, s, ms))
    ensures TimestampMillis(Layout(h, m, s, ms)) == Millis(h, m, s, ms)
  {
    var t := Layout(h, m, s, ms);
    assert TwoDigits(t, 0) == h && TwoDigits(t, 3) == m && TwoDigits(t, 6) == s;
    assert 100 * (ms / 100) + 10 * (ms / 10 % 10) + ms % 10 == ms;
  }

  lemma MulAtLeast(k: int, b: int)
    requires k >= 1 && b > 0
    ensures k * b >= b
  {
  }

  lemma MulZero(k: int, b: int)
    requires b > 0 && -b < k * b < b
    ensures k == 0
  {
    if k > 0 {
      MulAtLeast(k, b);
    } else if k < 0 {
      MulAtLeast(-k, b);
    }
  }

  /** Quotient and remainder are determined by `a == q * b + r` with `0 <= r < b`. */
  lemma DivModUnique(a: int, b: int, q: int, r: int)
    requires b > 0 && 0 <= r < b && a == q * b + r
    ensures a / b == q && a % b == r
  {
    var q', r' := a / b, a % b;
    assert (q - q') * b == r' - r;
    MulZero(q - q', b);
  }

  /** Hours, minutes and seconds of a time of day add back up to it. */
  lemma {:induction false} SecondsOfDay(s: nat)
    ensures (s / 3600) * 3600 + ((s / 60) % 60) * 60 + s % 60 == (s / 60) * 60 + s % 60 == s
  {
    var m := s / 60;
    DivModUnique(s, 60, m, s % 60);
    DivModUnique(m, 60, m / 60, m % 60);
    DivModUnique(s, 3600, m / 60, (m % 60) * 60 + s % 60);
  }

  /**
   * Decoding the four fields gives back the offset cut down to whole
   * milliseconds, modulo one day.
   */
  lemma {:induction false} FieldsOfDay(us: nat)
    ensures var delta := ToTimedelta(us);
      (delta.seconds / 3600) * 3600000 + ((delta.seconds / 60) % 60) * 60000
        + (delta.seconds % 60) * 1000 + delta.microseconds / 1000
      == MillisOfDay(us)
  {
    var delta := ToTimedelta(us);
    var sec, micro := delta.seconds, delta.microseconds;
    SecondsOfDay(sec);
    var ms := sec * 1000 + micro / 1000;
    // us == (days * 86400 + sec) * 10^6 + micro, so us / 1000 == days * 86400000 + ms
    DivModUnique(micro, 1000, micro / 1000, micro % 1000);
    DivModUnique(us, 1000, delta.days * MillisPerDay + ms, micro % 1000);
    DivModUnique(us / 1000, MillisPerDay, delta.days, ms);
  }

  /** Every time stamp reads back as the offset's milliseconds of the day. */
  lemma TimestampRoundTrip(us: nat)
    ensures ParseTimestamp(TimedeltaToStr(us)) == Some(MillisOfDay(us))
  {
    var delta := ToTimedelta(us);
    var h, m, s, ms := delta.seconds / 3600, (delta.seconds / 60) % 60, delta.seconds % 60, delta.microseconds / 1000;
    FieldDigits(h, m, s, ms);
    LayoutIsTimestamp(h, m, s, ms);
    FieldsOfDay(us);
  }

  /** Two digits whose value is `n` are the digits of `n`. */
  lemma TwoDigitsOf(t: string, i: nat)
    requires i + 1 < |t| && IsDigit(t[i]) && IsDigit(t[i + 1])
    ensures var n := TwoDigits(t, i); t[i] == DigitChar(n / 10) && t[i + 1] == DigitChar(n % 10)
  {
    DivModUnique(TwoDigits(t, i), 10, DigitValue(t[i]), DigitValue(t[i + 1]));
    DigitCharOfValue(t[i]);
    DigitCharOfValue(t[i + 1]);
  }

  /** Three digits whose value is `n` are the digits of `n`. */
  lemma ThreeDigitsOf(a: char, b: char, c: char)
    requires IsDigit(a) && IsDigit(b) && IsDigit(c)
    ensures var n := 100 * DigitValue(a) + 10 * DigitValue(b) + DigitValue(c);
      a == DigitChar(n / 100) && b == DigitChar(n / 10 % 10) && c == DigitChar(n % 10)
  {
    var n := 100 * DigitValue(a) + 10 * DigitValue(b) + DigitValue(c);
    DivModUnique(n, 100, DigitValue(a), 10 * DigitValue(b) + DigitValue(c));
    DivModUnique(n, 10, 10 * DigitValue(a) + DigitValue(b), DigitValue(c));
    DivModUnique(n / 10, 10, DigitValue(a), DigitValue(b));
    DigitCharOfValue(a);
    DigitCharOfValue(b);
    DigitCharOfValue(c);
  }

  /** A time stamp is the layout of its own fields. */
  lemma TimestampIsLayout(t: string)
    requires IsTimestamp(t)
    ensures t == Layout(TwoDigits(t, 0), TwoDigits(t, 3), TwoDigits(t, 6),
                        100 * DigitValue(t[9]) + 10 * DigitValue(t[10]) + DigitValue(t[11]))
  {
    TwoDigitsOf(t, 0);
    TwoDigitsOf(t, 3);
    TwoDigitsOf(t, 6);
    ThreeDigitsOf(t[9], t[10], t[11]);
  }

  /** The fields the formatter computes for a time of day given in milliseconds. */
  lemma FieldsOfMillis(h: nat, m: nat, s: nat, ms: nat)
    requires h < 24 && m < 60 && s < 60 && ms < 1000
    ensures var delta := ToTimedelta(Millis(h, m, s, ms) * 1000);
      delta.seconds / 3600 == h && (delta.seconds / 60) % 60 == m && delta.seconds % 60 == s
      && delta.microseconds / 1000 == ms
  {
    var sec := h * 3600 + m * 60 + s;
    var us := Millis(h, m, s, ms) * 1000;
    assert us == sec * MicrosPerSecond + ms * 1000;
    DivModUnique(us, MicrosPerSecond, sec, ms * 1000);
    DivModUnique(sec, SecondsPerDay, 0, sec);
    DivModUnique(ms * 1000, 1000, ms, 0);
    DivModUnique(sec, 3600, h, m * 60 + s);
    DivModUnique(sec, 60, h * 60 + m, s);
    DivModUnique(h * 60 + m, 60, h, m);
  }

  /** Every well-formed time stamp is produced, by the offset it stands for. */
  lemma TimestampOnto(t: string)
    requires IsTimestamp(t)
    ensures TimedeltaToStr(TimestampMillis(t) * 1000) == t
  {
    var h, m, s := TwoDigits(t, 0), TwoDigits(t, 3), TwoDigits(t, 6);
    var ms := 100 * DigitValue(t[9]) + 10 * DigitValue(t[10]) + DigitValue(t[11]);
    FieldsOfMillis(h, m, s, ms);
    TimedeltaToStrLayout(Millis(h, m, s, ms) * 1000);
    TimestampIsLayout(t);
  }

  /** The time stamp is the layout of the four fields the formatter computes. */
  lemma TimedeltaToStrLayout(us: nat)
    ensures var delta := ToTimedelta(us);
      TimedeltaToStr(us)
      == Layout(delta.seconds / 3600, (delta.seconds / 60) % 60, delta.seconds % 60, delta.microseconds / 1000)
  {
    var delta := ToTimedelta(us);
    FieldDigits(delta.seconds / 3600, (delta.seconds / 60) % 60, delta.seconds % 60, delta.microseconds / 1000);
  }

  /** Two offsets print the same time stamp exactly when they agree to the millisecond, modulo one day. */
  lemma TimestampEqual(a: nat, b: nat)
    ensures TimedeltaToStr(a) == TimedeltaToStr(b) <==> MillisOfDay(a) == MillisOfDay(b)
  {
    TimestampRoundTrip(a);
    TimestampRoundTrip(b);
    if MillisOfDay(a) == MillisOfDay(b) {
      TimestampOnto(TimedeltaToStr(a));
      TimestampOnto(TimedeltaToStr(b));
    }
  }

  /** The time stamp of an offset whose time of day is given as hours, minutes, seconds and milliseconds. */
  lemma TimestampOf(us: nat, h: nat, m: nat, s: nat, ms: nat)
    requires h < 24 && m < 60 && s < 60 && ms < 1000
    requires MillisOfDay(us) == Millis(h, m, s, ms)
    ensures TimedeltaToStr(us) == Layout(h, m, s, ms)
  {
    var t := Layout(h, m, s, ms);
    LayoutIsTimestamp(h, m, s, ms);
    TimestampOnto(t);
    TimestampEqual(us, TimestampMillis(t) * 1000);
    TimestampRoundTrip(TimestampMillis(t) * 1000);
  }

  /** The layouts of the worked instances below, character by character. */
  lemma ExampleLayouts()
    ensures Layout(1, 1, 1, 500) == "01:01:01,500"
    ensures Layout(0, 0, 0, 0) == "00:00:00,000"
    ensures Layout(0, 0, 59, 999) == "00:00:59,999"
    ensures Layout(0, 0, 2, 500) == "00:00:02,500"
  {
  }

  /** Worked instance: 3661.5 s is one hour, one minute, one second and 500 ms. */
  lemma TimestampExampleHour()
    ensures TimedeltaToStr(3661500000) == "01:01:01,500"
  {
    TimestampOf(3661500000, 1, 1, 1, 500);
    ExampleLayouts();
  }

  /** Every offset that is a whole number of days, to the millisecond, prints as midnight. */
  lemma TimestampMidnight(us: nat)
    requires MillisOfDay(us) == 0
    ensures TimedeltaToStr(us) == "00:00:00,000"
  {
    TimestampOf(us, 0, 0, 0, 0);
    ExampleLayouts();
  }

  /** Worked instance: zero, and exactly one day, whose day is dropped. */
  lemma TimestampExampleZero()
    ensures TimedeltaToStr(0) == "00:00:00,000"
    ensures TimedeltaToStr(86400000000) == "00:00:00,000"
  {
    TimestampMidnight(0);
    TimestampMidnight(86400000000);
  }

  /** Worked instance: 59.999 s. */
  lemma TimestampExampleMillis()
    ensures TimedeltaToStr(59999000) == "00:00:59,999"
  {
    TimestampOf(59999000, 0, 0, 59, 999);
    ExampleLayouts();
  }

  /** Worked instance: 59.999999 s, whose last microseconds are cut off rather than rounded up to a minute. */
  lemma TimestampExampleTruncation()
    ensures TimedeltaToStr(59999999) == "00:00:59,999"
  {
    TimestampOf(59999999, 0, 0, 59, 999);
    ExampleLayouts();
  }

  /** Worked instance: 2.5 s. */
  lemma TimestampExampleSeconds()
    ensures TimedeltaToStr(2500000) == "00:00:02,500"
  {
    TimestampOf(2500000, 0, 0, 2, 500);
    ExampleLayouts();
  }
}
