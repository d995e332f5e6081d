/**
 * Duration rendering of the stopwatch: `pad2` and `formatTime`
 * (docs/app.js:144-165), together with a reference parser that reads a
 * rendered duration back, so that the rendering is proved lossless down to
 * the centisecond.
 */
module TimeFormat {
  import opened Wrappers

  predicate IsDigit(c: char) { '0' <= c <= '9' }

  predicate AllDigits(s: string) { forall i :: 0 <= i < |s| ==> IsDigit(s[i]) }

  /** The value of a decimal numeral (most significant digit first). */
  function DigitsValue(s: string): nat
    requires AllDigits(s)
  {
    if s == [] then 0
    else DigitsValue(s[..|s| - 1]) * 10 + (s[|s| - 1] as int - '0' as int)
  }

  function DigitChar(d: nat): (c: char)
    requires d < 10
    ensures IsDigit(c) && c as int - '0' as int == d
  {
    (d + '0' as int) as char
  }

  /** `String(n)` for a non-negative integer: its shortest decimal numeral. */
  function NatToString(n: nat): (s: string)
    ensures AllDigits(s) && DigitsValue(s) == n
    ensures |s| >= 1 && (|s| > 1 ==> s[0] != '0')
    ensures n < 10 <==> |s| == 1
    ensures 10 <= n < 100 <==> |s| == 2
  {
    if n < 10 then [DigitChar(n)]
    else
      var front := NatToString(n / 10);
      var s := front + [DigitChar(n % 10)];
      assert s[..|s| - 1] == front;
      s
  }

  /** `String(n).padStart(2, '0')`: a numeral shorter than two characters gets a leading zero. */
  function Pad2(n: nat): (s: string)
    ensures AllDigits(s) && DigitsValue(s) == n
    ensures n < 100 <==> |s| == 2
    ensures |s| >= 2
    ensures n < 10 ==> s == "0" + NatToString(n)
    ensures n >= 10 ==> s == NatToString(n)
  {
    var digits := NatToString(n);
    if |digits| < 2 then
      var s := "0" + digits;
      assert s[..|s| - 1] == "0";
      s
    else digits
  }

  /** The `mm:ss.cc` part of a rendering, from fields below 100. */
  function ClockTail(minutes: nat, seconds: nat, centis: nat): (r: string)
    requires minutes < 100 && seconds < 100 && centis < 100
    ensures |r| == 8 && r[2] == ':' && r[5] == '.'
    ensures r[0..2] == Pad2(minutes) && r[3..5] == Pad2(seconds) && r[6..] == Pad2(centis)
  {
    Pad2(minutes) + ":" + Pad2(seconds) + "." + Pad2(centis)
  }

  /** A rendering assembled from its fields: the hours and a colon only when there are hours. */
  function Layout(hours: nat, minutes: nat, seconds: nat, centis: nat): string
    requires minutes < 100 && seconds < 100 && centis < 100
  {
    if hours > 0 then NatToString(hours) + ":" + ClockTail(minutes, seconds, centis)
    else ClockTail(minutes, seconds, centis)
  }

  /**
   * `formatTime(ms)`: truncate to whole centiseconds, split them into
   * centiseconds (below 100), seconds and minutes (below 60) and unbounded
   * hours, and render `[h:]mm:ss.cc`, the hours part present only when it is
   * not zero and never padded.
   */
  function FormatTime(ms: nat): (r: string)
    ensures |r| >= 8 && (|r| == 8 <==> ms < 3600000)
  {
    var totalCentis := ms / 10;
    var centis := totalCentis % 100;
    var totalSeconds := totalCentis / 100;
    var seconds := totalSeconds % 60;
    var totalMinutes := totalSeconds / 60;
    var minutes := totalMinutes % 60;
    var hours := totalMinutes / 60;
    assert hours == 0 <==> ms < 3600000;
    if hours > 0 then
      NatToString(hours) + ":" + Pad2(minutes) + ":" + Pad2(seconds) + "." + Pad2(centis)
    else
      Pad2(minutes) + ":" + Pad2(seconds) + "." + Pad2(centis)
  }

  /** Regrouping a seven-piece concatenation so that the hours and their colon stand apart from the tail. */
  lemma RegroupConcat(h: string, x: string, p: string, y: string, q: string, z: string, c: string)
    ensures h + x + p + y + q + z + c == h + x + (p + y + q + z + c)
  {
  }

  /** `formatTime` lays out the fields computed by its chain of floor divisions. */
  lemma FormatIsLayout(ms: nat)
    ensures FormatTime(ms) == Layout(ms / 10 / 100 / 60 / 60, ms / 10 / 100 / 60 % 60, ms / 10 / 100 % 60, ms / 10 % 100)
  {
    var hours, minutes, seconds, centis := ms / 10 / 100 / 60 / 60, ms / 10 / 100 / 60 % 60, ms / 10 / 100 % 60, ms / 10 % 100;
    RegroupConcat(NatToString(hours), ":", Pad2(minutes), ":", Pad2(seconds), ".", Pad2(centis));
  }

  /** Whole centiseconds from hours, minutes, seconds and centiseconds. */
  function Centiseconds(hours: nat, minutes: nat, seconds: nat, centis: nat): nat
  {
    hours * 360000 + (minutes * 60 + seconds) * 100 + centis
  }

  /** The fields of `formatTime`, recomposed, give back the whole centiseconds. */
  lemma Recompose(totalCentis: nat)
    ensures totalCentis ==
      Centiseconds(totalCentis / 100 / 60 / 60, totalCentis / 100 / 60 % 60, totalCentis / 100 % 60, totalCentis % 100)
  {
    var totalSeconds := totalCentis / 100;
    var totalMinutes := totalSeconds / 60;
    assert totalCentis == totalSeconds * 100 + totalCentis % 100;
    assert totalSeconds == totalMinutes * 60 + totalSeconds % 60;
    assert totalMinutes == totalMinutes / 60 * 60 + totalMinutes % 60;
  }

  /** Reads an eight-character `mm:ss.cc` back into whole centiseconds. */
  function ParseClock(t: string): (r: Option<nat>)
    requires |t| == 8
  {
    if t[2] != ':' || t[5] != '.' || !(AllDigits(t[0..2]) && AllDigits(t[3..5]) && AllDigits(t[6..])) then None
    else Some((DigitsValue(t[0..2]) * 60 + DigitsValue(t[3..5])) * 100 + DigitsValue(t[6..]))
  }

  /**
   * Reads a string of the shape `[h:]mm:ss.cc` back into whole centiseconds;
   * `None` for any other shape.
   */
  function ParseTime(s: string): (r: Option<nat>)
  {
    if |s| < 8 then None
    else
      var clock := ParseClock(s[|s| - 8..]);
      if clock.None? || |s| == 8 then clock
      else if |s| == 9 || s[|s| - 9] != ':' || !AllDigits(s[..|s| - 9]) then None
      else Some(DigitsValue(s[..|s| - 9]) * 360000 + clock.value)
  }

  lemma HoursPrefix(h: string, tail: string)
    requires |tail| == 8
    ensures var r := h + ":" + tail;
      r[|r| - 8..] == tail && r[..|r| - 9] == h && r[|r| - 9] == ':' &&
      r[|r| - 2..] == tail[6..] && r[|r| - 5..|r| - 3] == tail[3..5] && r[|r| - 8..|r| - 6] == tail[0..2]
  {
  }

  lemma ParseClockOf(minutes: nat, seconds: nat, centis: nat)
    requires minutes < 100 && seconds < 100 && centis < 100
    ensures ParseClock(ClockTail(minutes, seconds, centis)) == Some(Centiseconds(0, minutes, seconds, centis))
  {
  }

  lemma ParseBare(tail: string)
    requires |tail| == 8
    ensures ParseTime(tail) == ParseClock(tail)
  {
    assert tail[|tail| - 8..] == tail;
  }

  lemma ParseWithHours(r: string, h: string, tail: string)
    requires |h| >= 1 && AllDigits(h) && |tail| == 8 && ParseClock(tail).Some?
    requires |r| > 9 && r[|r| - 8..] == tail && r[..|r| - 9] == h && r[|r| - 9] == ':'
    ensures ParseTime(r) == Some(DigitsValue(h) * 360000 + ParseClock(tail).value)
  {
  }

  lemma ParseHoursLayout(hours: nat, tail: string, value: nat)
    requires hours > 0 && |tail| == 8 && ParseClock(tail) == Some(value)
    ensures ParseTime(NatToString(hours) + ":" + tail) == Some(hours * 360000 + value)
  {
    var h := NatToString(hours);
    HoursPrefix(h, tail);
    ParseWithHours(h + ":" + tail, h, tail);
  }

  lemma ParseLayout(hours: nat, minutes: nat, seconds: nat, centis: nat)
    requires minutes < 100 && seconds < 100 && centis < 100
    ensures ParseTime(Layout(hours, minutes, seconds, centis)) == Some(Centiseconds(hours, minutes, seconds, centis))
  {
    var tail := ClockTail(minutes, seconds, centis);
    var value := Centiseconds(0, minutes, seconds, centis);
    ParseClockOf(minutes, seconds, centis);
    if hours > 0 {
      ParseHoursLayout(hours, tail, value);
      assert hours * 360000 + value == Centiseconds(hours, minutes, seconds, centis);
    } else {
      ParseBare(tail);
    }
  }

  lemma ParseFormatFields(ms: nat)
    ensures ParseTime(FormatTime(ms)) ==
      Some(Centiseconds(ms / 10 / 100 / 60 / 60, ms / 10 / 100 / 60 % 60, ms / 10 / 100 % 60, ms / 10 % 100))
  {
    FormatIsLayout(ms);
    ParseLayout(ms / 10 / 100 / 60 / 60, ms / 10 / 100 / 60 % 60, ms / 10 / 100 % 60, ms / 10 % 100);
  }

  /** The rendering loses nothing above the centisecond: reading it back gives `ms / 10`. */
  lemma ParseFormat(ms: nat)
    ensures ParseTime(FormatTime(ms)) == Some(ms / 10)
  {
    ParseFormatFields(ms);
    Recompose(ms / 10);
  }

  /** Truncation, not rounding: two durations render alike exactly when they agree in whole centiseconds. */
  lemma FormatTimeTruncates(a: nat, b: nat)
    ensures FormatTime(a) == FormatTime(b) <==> a / 10 == b / 10
  {
    if FormatTime(a) == FormatTime(b) {
      ParseFormat(a);
      ParseFormat(b);
    }
  }

  lemma ThousandthsOfTenths(x: nat)
    ensures x / 10 / 100 == x / 1000 && x / 10 % 100 == x % 1000 / 10
  {
    var q, r := x / 1000, x % 1000;
    assert x == q * 1000 + r;
    assert x / 10 == q * 100 + r / 10;
  }

  lemma MinutesOfSeconds(x: nat)
    ensures x / 1000 / 60 == x / 60000
  {
    var q, r := x / 60000, x % 60000;
    assert x == q * 60000 + r;
    assert x / 1000 == q * 60 + r / 1000;
  }

  lemma HoursOfMinutes(x: nat)
    ensures x / 60000 / 60 == x / 3600000
  {
    var q, r := x / 3600000, x % 3600000;
    assert x == q * 3600000 + r;
    assert x / 60000 == q * 60 + r / 60000;
  }

  /** Each field of the rendering, in terms of the milliseconds. */
  lemma Fields(ms: nat)
    ensures ms / 10 % 100 == (ms % 1000) / 10
    ensures ms / 10 / 100 % 60 == (ms / 1000) % 60
    ensures ms / 10 / 100 / 60 % 60 == (ms / 60000) % 60
    ensures ms / 10 / 100 / 60 / 60 == ms / 3600000
  {
    ThousandthsOfTenths(ms);
    MinutesOfSeconds(ms);
    HoursOfMinutes(ms);
  }

  lemma LayoutFields(hours: nat, minutes: nat, seconds: nat, centis: nat)
    requires minutes < 100 && seconds < 100 && centis < 100
    ensures var r := Layout(hours, minutes, seconds, centis);
      && |r| >= 8 && r[|r| - 3] == '.' && r[|r| - 6] == ':'
      && r[|r| - 2..] == Pad2(centis) && r[|r| - 5..|r| - 3] == Pad2(seconds) && r[|r| - 8..|r| - 6] == Pad2(minutes)
      && (|r| > 8 <==> hours > 0)
      && (hours > 0 ==> r[|r| - 9] == ':' && r[..|r| - 9] == NatToString(hours))
  {
    var tail := ClockTail(minutes, seconds, centis);
    if hours > 0 {
      HoursPrefix(NatToString(hours), tail);
    } else {
      assert Layout(hours, minutes, seconds, centis) == tail;
    }
  }

  /**
   * The fields of a rendering: two-digit centiseconds, seconds below 60 and
   * minutes below 60, then, only from one hour on, the unpadded hours.
   */
  lemma FormatTimeFields(ms: nat)
    ensures var r := FormatTime(ms);
      && |r| >= 8 && r[|r| - 3] == '.' && r[|r| - 6] == ':'
      && r[|r| - 2..] == Pad2((ms % 1000) / 10) && (ms % 1000) / 10 < 100
      && r[|r| - 5..|r| - 3] == Pad2((ms / 1000) % 60)
      && r[|r| - 8..|r| - 6] == Pad2((ms / 60000) % 60)
      && (|r| > 8 <==> ms >= 3600000)
      && (ms >= 3600000 ==> r[|r| - 9] == ':' && r[..|r| - 9] == NatToString(ms / 3600000))
  {
    Fields(ms);
    FormatIsLayout(ms);
    LayoutFields(ms / 3600000, (ms / 60000) % 60, (ms / 1000) % 60, (ms % 1000) / 10);
  }

  /** A rendering is known once the fields of `ms` and their layout are. */
  lemma FormatsAs(ms: nat, hours: nat, minutes: nat, seconds: nat, centis: nat, text: string)
    requires ms / 10 / 100 / 60 / 60 == hours && ms / 10 / 100 / 60 % 60 == minutes
    requires ms / 10 / 100 % 60 == seconds && ms / 10 % 100 == centis
    requires minutes < 100 && seconds < 100 && centis < 100
    requires Layout(hours, minutes, seconds, centis) == text
    ensures FormatTime(ms) == text
  {
    FormatIsLayout(ms);
  }

  lemma Fixture0()
    ensures FormatTime(0) == "00:00.00"
  {
    FormatsAs(0, 0, 0, 0, 0, "00:00.00");
  }

  lemma Fixture999()
    ensures FormatTime(999) == "00:00.99"
  {
    FormatsAs(999, 0, 0, 0, 99, "00:00.99");
  }

  lemma Fixture1500()
    ensures FormatTime(1500) == "00:01.50"
  {
    FormatsAs(1500, 0, 0, 1, 50, "00:01.50");
  }

  lemma Fixture61000()
    ensures FormatTime(61000) == "01:01.00"
  {
    FormatsAs(61000, 0, 1, 1, 0, "01:01.00");
  }

  lemma Fixture3600000()
    ensures FormatTime(3600000) == "1:00:00.00"
  {
    FormatsAs(3600000, 1, 0, 0, 0, "1:00:00.00");
  }

  lemma Fixture3661234()
    ensures FormatTime(3661234) == "1:01:01.23"
  {
    FormatsAs(3661234, 1, 1, 1, 23, "1:01:01.23");
  }

  /** Known renderings, among them the truncation of 999 ms to 99 centiseconds. */
  lemma FormatTimeFixtures()
    ensures FormatTime(0) == "00:00.00"
    ensures FormatTime(999) == "00:00.99"
    ensures FormatTime(1500) == "00:01.50"
    ensures FormatTime(61000) == "01:01.00"
    ensures FormatTime(3600000) == "1:00:00.00"
    ensures FormatTime(3661234) == "1:01:01.23"
  {
    Fixture0();
    Fixture999();
    Fixture1500();
    Fixture61000();
    Fixture3600000();
    Fixture3661234();
  }
}
