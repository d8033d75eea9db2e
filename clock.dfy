/**
 * What update_time writes: the time text "HH:MM" or "HH|MM" and the date text
 * "Mon DD", built the way strftime builds %H, %I, %M, %b and %d in the C
 * locale. The parsers at the end read the texts back; the round-trip lemmas
 * show that no information is lost or invented by the formatting.
 */
module Clock {

  datatype Option<T> = None | Some(value: T)

  /** The broken-down time fields update_time reads from localtime. */
  datatype Tm = Tm(hour: nat, min: nat, mon: nat, mday: nat)

  predicate ValidTm(t: Tm)
  {
    t.hour < 24 && t.min < 60 && t.mon < 12 && 1 <= t.mday <= 31
  }

  predicate IsDigit(c: char)
  {
    '0' <= c <= '9'
  }

  function DigitValue(c: char): int
  {
    c as int - '0' as int
  }

  /** The decimal digit for `d`. */
  function DigitChar(d: nat): (c: char)
    requires d < 10
    ensures IsDigit(c) && DigitValue(c) == d
  {
    ('0' as int + d) as char
  }

  /** Two zero-padded decimal digits of `n`, as %H, %I, %M and %d give them. */
  function TwoDigits(n: nat): (r: string)
    requires n < 100
    ensures |r| == 2 && IsDigit(r[0]) && IsDigit(r[1])
    ensures 10 * DigitValue(r[0]) + DigitValue(r[1]) == n
  {
    [DigitChar(n / 10), DigitChar(n % 10)]
  }

  /** %I: the hour on a 12-hour dial, where 0 and 12 both read 12. */
  function Hour12(h: nat): (r: nat)
    requires h < 24
    ensures 1 <= r <= 12
    ensures r % 12 == h % 12
  {
    if h % 12 == 0 then 12 else h % 12
  }

  /** The usual 12-hour convention: 0 -> 12, 1..12 unchanged, 13..23 -> 1..11. */
  lemma Hour12Convention(h: nat)
    requires h < 24
    ensures h == 0 ==> Hour12(h) == 12
    ensures 1 <= h <= 12 ==> Hour12(h) == h
    ensures 13 <= h ==> Hour12(h) == h - 12
  {
  }

  /** The hour shown: %H in 24-hour style, %I otherwise. */
  function DisplayHour(h: nat, is24h: bool): (r: nat)
    requires h < 24
    ensures is24h ==> r == h
    ensures !is24h ==> 1 <= r <= 12 && r % 12 == h % 12
  {
    if is24h then h else Hour12(h)
  }

  const MonthNames: seq<string> :=
    ["Jan", "Feb", "Mar", "Apr", "May", "Jun",
     "Jul", "Aug", "Sep", "Oct", "Nov", "Dec"]

  /** %b: the three-letter month abbreviation of month `mon` (0 is January). */
  function MonthAbbrev(mon: nat): (r: string)
    requires mon < 12
    ensures |r| == 3 && 'A' <= r[0] <= 'Z'
    ensures 'a' <= r[1] <= 'z' && 'a' <= r[2] <= 'z'
  {
    MonthNames[mon]
  }

  /** The separator update_time picks: ':' unless count is not 0 and flash is 1. */
  function Separator(count: int, flash: int): (c: char)
    ensures c == ':' || c == '|'
    ensures c == '|' <==> count != 0 && flash == 1
  {
    if count == 0 || flash != 1 then ':' else '|'
  }

  /** On the states the watch face reaches, '|' shows exactly when both bits are 1. */
  lemma SeparatorOnBits(count: int, flash: int)
    requires count == 0 || count == 1
    requires flash == 0 || flash == 1
    ensures Separator(count, flash) == '|' <==> count == 1 && flash == 1
    ensures Separator(count, flash) == ':' <==> count == 0 || flash == 0
  {
  }

  /** Two digits, the separator, two digits. */
  function ClockText(h: nat, sep: char, m: nat): (r: string)
    requires h < 100 && m < 100
    ensures |r| == 5 && r[2] == sep
    ensures r[..2] == TwoDigits(h) && r[3..] == TwoDigits(m)
  {
    TwoDigits(h) + [sep] + TwoDigits(m)
  }

  /** The time text update_time writes for `t` with separator `sep`. */
  function TimeText(t: Tm, is24h: bool, sep: char): (r: string)
    requires ValidTm(t)
    ensures |r| == 5 && r[2] == sep
    ensures IsDigit(r[0]) && IsDigit(r[1]) && IsDigit(r[3]) && IsDigit(r[4])
    ensures 10 * DigitValue(r[3]) + DigitValue(r[4]) == t.min
    ensures is24h ==> 10 * DigitValue(r[0]) + DigitValue(r[1]) == t.hour
    ensures !is24h ==> 10 * DigitValue(r[0]) + DigitValue(r[1]) == Hour12(t.hour)
  {
    ClockText(DisplayHour(t.hour, is24h), sep, t.min)
  }

  /** The hour digits read 00..23 in 24-hour style and 01..12 otherwise. */
  lemma TimeTextHourRange(t: Tm, is24h: bool, sep: char)
    requires ValidTm(t)
    ensures var r := TimeText(t, is24h, sep);
      var h := 10 * DigitValue(r[0]) + DigitValue(r[1]);
      (is24h ==> 0 <= h <= 23) && (!is24h ==> 1 <= h <= 12)
  {
  }

  /** The date text update_time writes: month abbreviation, a space, two-digit day. */
  function DateText(t: Tm): (r: string)
    requires ValidTm(t)
    ensures |r| == 6 && r[..3] == MonthAbbrev(t.mon) && r[3] == ' '
    ensures IsDigit(r[4]) && IsDigit(r[5])
    ensures 10 * DigitValue(r[4]) + DigitValue(r[5]) == t.mday
  {
    MonthAbbrev(t.mon) + " " + TwoDigits(t.mday)
  }

  /** The date text depends on the month and day only. */
  lemma DateTextIgnoresTime(t: Tm, u: Tm)
    requires ValidTm(t) && ValidTm(u)
    requires t.mon == u.mon && t.mday == u.mday
    ensures DateText(t) == DateText(u)
  {
  }

  /** 14:05 on 3 March, in both styles and with both separators. */
  lemma FormatExamples()
    ensures TimeText(Tm(14, 5, 2, 3), true, ':') == "14:05"
    ensures TimeText(Tm(14, 5, 2, 3), true, '|') == "14|05"
    ensures TimeText(Tm(14, 5, 2, 3), false, ':') == "02:05"
    ensures TimeText(Tm(0, 30, 0, 1), false, ':') == "12:30"
    ensures DateText(Tm(14, 5, 2, 3)) == "Mar 03"
  {
  }

  // ---------------------------------------------------------------------
  // Reading the texts back

  /** The value of two decimal digits, if they are digits. */
  function ParseTwoDigits(s: string): (r: Option<nat>)
    requires |s| == 2
    ensures r.Some? ==> r.value < 100 && TwoDigits(r.value) == s
  {
    if IsDigit(s[0]) && IsDigit(s[1])
    then Some(10 * DigitValue(s[0]) + DigitValue(s[1]))
    else None
  }

  lemma TwoDigitsRoundTrip(n: nat)
    requires n < 100
    ensures ParseTwoDigits(TwoDigits(n)) == Some(n)
  {
  }

  /** The index of the month whose abbreviation is `s`, searching from `from`. */
  function MonthIndexFrom(s: string, from: nat): (r: Option<nat>)
    requires from <= 12
    ensures r.Some? ==> from <= r.value < 12 && MonthAbbrev(r.value) == s
    ensures r.None? ==> forall m :: from <= m < 12 ==> MonthAbbrev(m) != s
    decreases 12 - from
  {
    if from == 12 then None
    else if MonthNames[from] == s then Some(from)
    else MonthIndexFrom(s, from + 1)
  }

  function MonthIndex(s: string): (r: Option<nat>)
    ensures r.Some? ==> r.value < 12 && MonthAbbrev(r.value) == s
    ensures r.None? ==> forall m :: 0 <= m < 12 ==> MonthAbbrev(m) != s
  {
    MonthIndexFrom(s, 0)
  }

  /** No two months share an abbreviation. */
  lemma MonthAbbrevInjective(m1: nat, m2: nat)
    requires m1 < 12 && m2 < 12 && m1 != m2
    ensures MonthAbbrev(m1) != MonthAbbrev(m2)
  {
    assert MonthAbbrev(m1)[..3] != MonthAbbrev(m2)[..3];
  }

  lemma {:induction false} MonthIndexFromFinds(m: nat, from: nat)
    requires from <= m < 12
    ensures MonthIndexFrom(MonthAbbrev(m), from) == Some(m)
    decreases 12 - from
  {
    if from < m {
      MonthAbbrevInjective(from, m);
      MonthIndexFromFinds(m, from + 1);
    }
  }

  lemma MonthRoundTrip(m: nat)
    requires m < 12
    ensures MonthIndex(MonthAbbrev(m)) == Some(m)
  {
    MonthIndexFromFinds(m, 0);
  }

  datatype ClockFields = ClockFields(hour: nat, sep: char, min: nat)

  /** Reads "HH?MM" back into its hour, separator and minute. */
  function ParseClock(s: string): (r: Option<ClockFields>)
    ensures r.Some? ==> r.value.hour < 100 && r.value.min < 100
  {
    if |s| != 5 then None
    else match (ParseTwoDigits(s[..2]), ParseTwoDigits(s[3..]))
      case (Some(h), Some(m)) => Some(ClockFields(h, s[2], m))
      case _ => None
  }

  lemma ClockRoundTrip(h: nat, sep: char, m: nat)
    requires h < 100 && m < 100
    ensures ParseClock(ClockText(h, sep, m)) == Some(ClockFields(h, sep, m))
  {
    TwoDigitsRoundTrip(h);
    TwoDigitsRoundTrip(m);
  }

  lemma ClockParseFormats(s: string)
    requires ParseClock(s).Some?
    ensures var f := ParseClock(s).value; ClockText(f.hour, f.sep, f.min) == s
  {
    var f := ParseClock(s).value;
    assert s == s[..2] + [s[2]] + s[3..];
  }

  /** The time text carries the displayed hour, the separator and the minute. */
  lemma TimeRoundTrip(t: Tm, is24h: bool, sep: char)
    requires ValidTm(t)
    ensures ParseClock(TimeText(t, is24h, sep))
         == Some(ClockFields(DisplayHour(t.hour, is24h), sep, t.min))
  {
    ClockRoundTrip(DisplayHour(t.hour, is24h), sep, t.min);
  }

  datatype DateFields = DateFields(mon: nat, mday: nat)

  /** Reads "Mon DD" back into its month index and day. */
  function ParseDate(s: string): (r: Option<DateFields>)
    ensures r.Some? ==> r.value.mon < 12 && r.value.mday < 100
  {
    if |s| != 6 || s[3] != ' ' then None
    else match (MonthIndex(s[..3]), ParseTwoDigits(s[4..]))
      case (Some(mon), Some(d)) => Some(DateFields(mon, d))
      case _ => None
  }

  lemma DateRoundTrip(t: Tm)
    requires ValidTm(t)
    ensures ParseDate(DateText(t)) == Some(DateFields(t.mon, t.mday))
  {
    var r := DateText(t);
    MonthRoundTrip(t.mon);
    TwoDigitsRoundTrip(t.mday);
    assert r[4..] == TwoDigits(t.mday);
  }

  lemma DateParseFormats(s: string)
    requires ParseDate(s).Some?
    ensures var f := ParseDate(s).value;
      MonthAbbrev(f.mon) + " " + TwoDigits(f.mday) == s
  {
    assert s == s[..3] + [s[3]] + s[4..];
  }
}
