/**
 * Weekdays and 12-hour clock times as the open-status check reads them:
 * the weekday key that `datetime.now().strftime('%a').upper()` yields in the C locale,
 * and `datetime.strptime(s, '%I:%M%p')` followed by `hour * 60 + minute`.
 */
module Clock {
  import opened Wrappers

  datatype Day = Mon | Tue | Wed | Thu | Fri | Sat | Sun

  /** The three-letter upper-case key of a weekday, as the hours strings spell it. */
  function DayName(d: Day): (r: string)
    ensures |r| == 3
    ensures forall i :: 0 <= i < 3 ==> 'A' <= r[i] <= 'Z'
  {
    match d
    case Mon => "MON"
    case Tue => "TUE"
    case Wed => "WED"
    case Thu => "THU"
    case Fri => "FRI"
    case Sat => "SAT"
    case Sun => "SUN"
  }

  /** Different weekdays have different keys. */
  lemma DayNameInjective(d1: Day, d2: Day)
    ensures DayName(d1) == DayName(d2) ==> d1 == d2
  {
  }

  /** Minutes since midnight: what `now.hour * 60 + now.minute` can be. */
  type MinuteOfDay = m: int | 0 <= m < 1440

  type Hour12 = h: int | 1 <= h <= 12 witness 1

  type Minute = m: int | 0 <= m < 60

  /** A time of day on the 12-hour clock, as `%I`, `%M` and `%p` describe it. */
  datatype ClockTime = ClockTime(hour: Hour12, minute: Minute, pm: bool)

  /**
   * Minutes since midnight of a 12-hour time, with strptime's rule for `%I` and `%p`:
   * 12 AM is hour 0, 12 PM is hour 12, any other PM hour gains 12.
   */
  function Minutes(t: ClockTime): (r: int)
    ensures 0 <= r < 1440
    ensures r % 60 == t.minute
    ensures t.pm <==> r >= 720
    ensures (r / 60) % 12 == t.hour % 12
  {
    var hour := if t.hour == 12 then 0 else t.hour;
    (if t.pm then hour + 12 else hour) * 60 + t.minute
  }

  /** The 12-hour reading of a minute of the day. */
  function FromMinutes(m: MinuteOfDay): ClockTime {
    var h := m / 60;
    ClockTime(if h % 12 == 0 then 12 else h % 12, m % 60, h >= 12)
  }

  /** `Minutes` is a bijection between 12-hour times and the minutes of a day. */
  lemma MinutesBijective(t: ClockTime, m: MinuteOfDay)
    ensures FromMinutes(Minutes(t)) == t
    ensures Minutes(FromMinutes(m)) == m
  {
    var r := Minutes(t);
    assert r == (r / 60) * 60 + t.minute;
    var u := FromMinutes(m);
    assert m == (m / 60) * 60 + m % 60;
  }

  /** Midnight and noon: the two cases where `%I` reads 12. */
  lemma TwelveOClock(minute: Minute)
    ensures Minutes(ClockTime(12, minute, false)) == minute
    ensures Minutes(ClockTime(12, minute, true)) == 720 + minute
  {
  }

  predicate IsDigit(c: char) {
    '0' <= c <= '9'
  }

  function DigitValue(c: char): (r: int)
    requires IsDigit(c)
    ensures 0 <= r <= 9
  {
    c as int - '0' as int
  }

  function DigitChar(d: int): (c: char)
    requires 0 <= d <= 9
    ensures IsDigit(c) && DigitValue(c) == d
  {
    ('0' as int + d) as char
  }

  /** ASCII upper-casing of one character (what `%p`'s case-insensitive match ignores). */
  function Upper(c: char): char {
    if 'a' <= c <= 'z' then (c as int - 32) as char else c
  }

  function AsciiUpper(s: string): (r: string)
    ensures |r| == |s|
  {
    seq(|s|, i requires 0 <= i < |s| => Upper(s[i]))
  }

  lemma AsciiUpperDrop(s: string, k: nat)
    requires k <= |s|
    ensures AsciiUpper(s)[k..] == AsciiUpper(s[k..])
  {
  }

  lemma AsciiUpperAppend(a: string, b: string)
    ensures AsciiUpper(a + b) == AsciiUpper(a) + AsciiUpper(b)
  {
  }

  /** `%I`, the regular expression `1[0-2]|0[1-9]|[1-9]`: the hour read and the input after it. */
  function ParseHour(s: string): (r: Option<(Hour12, string)>)
    ensures r.Some? ==> 1 <= |s| - |r.value.1| <= 2 && r.value.1 == s[|s| - |r.value.1|..]
  {
    if |s| >= 2 && s[0] == '1' && '0' <= s[1] <= '2' then Some((10 + DigitValue(s[1]), s[2..]))
    else if |s| >= 2 && s[0] == '0' && '1' <= s[1] <= '9' then Some((DigitValue(s[1]), s[2..]))
    else if |s| >= 1 && '1' <= s[0] <= '9' then Some((DigitValue(s[0]), s[1..]))
    else None
  }

  /** `%M`, the regular expression `[0-5]\d|\d`: the minute read and the input after it. */
  function ParseMinute(s: string): (r: Option<(Minute, string)>)
    ensures r.Some? ==> 1 <= |s| - |r.value.1| <= 2 && r.value.1 == s[|s| - |r.value.1|..]
  {
    if |s| >= 2 && '0' <= s[0] <= '5' && IsDigit(s[1]) then
      Some((10 * DigitValue(s[0]) + DigitValue(s[1]), s[2..]))
    else if |s| >= 1 && IsDigit(s[0]) then Some((DigitValue(s[0]), s[1..]))
    else None
  }

  /**
   * `%p` in the C locale, matched ignoring case, as the last directive: the whole rest
   * of the input must be `AM` or `PM` (anything after it is "unconverted data").
   * The result says whether it was PM.
   */
  function ParseMeridiem(s: string): (r: Option<bool>)
    ensures r.Some? ==> |s| == 2
  {
    if |s| == 2 && Upper(s[1]) == 'M' && (Upper(s[0]) == 'A' || Upper(s[0]) == 'P') then
      Some(Upper(s[0]) == 'P')
    else None
  }

  /** `ParseMeridiem` accepts exactly the two-letter strings that upper-case to AM or PM. */
  lemma ParseMeridiemUpper(s: string)
    ensures ParseMeridiem(s) == (if AsciiUpper(s) == "AM" then Some(false) else if AsciiUpper(s) == "PM" then Some(true) else None)
  {
    if |s| == 2 {
      assert AsciiUpper(s) == [Upper(s[0]), Upper(s[1])];
    }
  }

  /**
   * `datetime.strptime(s, '%I:%M%p')`: `None` where strptime raises `ValueError`.
   * The alternatives of `%I` and `%M` exclude one another once the literal `:` and
   * the letters of `%p` that follow them are taken into account, so reading them in
   * order, without backtracking, accepts exactly what the regular expression accepts.
   */
  function ParseClock(s: string): (r: Option<ClockTime>)
    ensures r.Some? ==> 5 <= |s| <= 7
  {
    var hr := ParseHour(s);
    if hr.None? then None else ParseClockRest(hr.value.0, hr.value.1)
  }

  /** The part of `ParseClock` after the hour: the literal `:`, `%M`, then `%p`. */
  function ParseClockRest(hour: Hour12, rest: string): (r: Option<ClockTime>)
    ensures r.Some? ==> 4 <= |rest| <= 5 && r.value.hour == hour
  {
    if rest == [] || rest[0] != ':' then None
    else
      var mr := ParseMinute(rest[1..]);
      if mr.None? then None
      else
        var pm := ParseMeridiem(mr.value.1);
        if pm.None? then None else Some(ClockTime(hour, mr.value.0, pm.value))
  }

  /** `%I` written out: one digit or, with `padded`, a leading zero below ten. */
  function HourText(h: Hour12, padded: bool): (r: string)
    ensures |r| == (if h < 10 && !padded then 1 else 2)
    ensures forall i :: 0 <= i < |r| ==> IsDigit(r[i])
  {
    if h >= 10 then [DigitChar(h / 10), DigitChar(h % 10)]
    else if padded then ['0', DigitChar(h)]
    else [DigitChar(h)]
  }

  /** `%M` written out: two digits or, below ten and without `padded`, one. */
  function MinuteText(m: Minute, padded: bool): (r: string)
    ensures |r| == (if m < 10 && !padded then 1 else 2)
    ensures forall i :: 0 <= i < |r| ==> IsDigit(r[i])
  {
    if m >= 10 || padded then [DigitChar(m / 10), DigitChar(m % 10)]
    else [DigitChar(m)]
  }

  /** The characters a formatted clock time is made of. */
  predicate ClockChar(c: char) {
    IsDigit(c) || c == ':' || c == 'A' || c == 'P' || c == 'M'
  }

  function MeridiemText(pm: bool): string {
    if pm then "PM" else "AM"
  }

  /** A 12-hour time spelled the way `%I:%M%p` reads it, for example `9:00AM` or `09:05PM`. */
  function FormatClock(t: ClockTime, padHour: bool, padMinute: bool): (r: string)
    ensures 5 <= |r| <= 7 && r[|r| - 1] == 'M' && IsDigit(r[0])
  {
    HourText(t.hour, padHour) + ":" + MinuteText(t.minute, padMinute) + MeridiemText(t.pm)
  }

  lemma FormatClockChars(t: ClockTime, padHour: bool, padMinute: bool)
    ensures var f := FormatClock(t, padHour, padMinute); forall i :: 0 <= i < |f| ==> ClockChar(f[i])
  {
  }

  lemma ParseHourText(h: Hour12, padded: bool, rest: string)
    requires rest != [] && rest[0] == ':'
    ensures ParseHour(HourText(h, padded) + rest) == Some((h, rest))
  {
    var s := HourText(h, padded) + rest;
    assert s[|HourText(h, padded)|..] == rest;
  }

  lemma ParseMeridiemText(pm: bool)
    ensures ParseMeridiem(MeridiemText(pm)) == Some(pm)
  {
    assert AsciiUpper(MeridiemText(pm)) == MeridiemText(pm);
  }

  lemma ParseMinuteText(m: Minute, padded: bool, pm: bool)
    ensures ParseMinute(MinuteText(m, padded) + MeridiemText(pm)) == Some((m, MeridiemText(pm)))
  {
    var s := MinuteText(m, padded) + MeridiemText(pm);
    assert s[|MinuteText(m, padded)|..] == MeridiemText(pm);
  }

  /** Every spelling `FormatClock` produces is read back as the time it spells. */
  lemma ParseFormatClock(t: ClockTime, padHour: bool, padMinute: bool)
    ensures ParseClock(FormatClock(t, padHour, padMinute)) == Some(t)
  {
    var ht, mt, ap := HourText(t.hour, padHour), MinuteText(t.minute, padMinute), MeridiemText(t.pm);
    var rest := ":" + mt + ap;
    assert FormatClock(t, padHour, padMinute) == ht + rest;
    ParseHourText(t.hour, padHour, rest);
    ParseClockRestText(t, padMinute);
  }

  lemma ParseClockRestText(t: ClockTime, padMinute: bool)
    ensures ParseClockRest(t.hour, ":" + MinuteText(t.minute, padMinute) + MeridiemText(t.pm)) == Some(t)
  {
    var rest := ":" + MinuteText(t.minute, padMinute) + MeridiemText(t.pm);
    assert rest[1..] == MinuteText(t.minute, padMinute) + MeridiemText(t.pm);
    ParseMinuteText(t.minute, padMinute, t.pm);
    ParseMeridiemText(t.pm);
  }

  lemma UpperDigit(c: char)
    requires IsDigit(c) || c == ':'
    ensures Upper(c) == c
  {
  }

  lemma ParseHourIgnoresCase(s: string)
    ensures var hr, ur := ParseHour(s), ParseHour(AsciiUpper(s));
      ur.Some? == hr.Some? && (hr.Some? ==> ur.value == (hr.value.0, AsciiUpper(hr.value.1)))
  {
    var u := AsciiUpper(s);
    if |s| >= 1 && IsDigit(s[0]) { UpperDigit(s[0]); }
    if |s| >= 2 && IsDigit(s[1]) { UpperDigit(s[1]); }
    if |s| >= 1 && !IsDigit(s[0]) { assert !IsDigit(u[0]); }
    if |s| >= 2 && !IsDigit(s[1]) { assert !IsDigit(u[1]); }
    if ParseHour(s).Some? {
      AsciiUpperDrop(s, |s| - |ParseHour(s).value.1|);
    }
  }

  lemma ParseMinuteIgnoresCase(s: string)
    ensures var mr, ur := ParseMinute(s), ParseMinute(AsciiUpper(s));
      ur.Some? == mr.Some? && (mr.Some? ==> ur.value == (mr.value.0, AsciiUpper(mr.value.1)))
  {
    var u := AsciiUpper(s);
    if |s| >= 1 && IsDigit(s[0]) { UpperDigit(s[0]); }
    if |s| >= 2 && IsDigit(s[1]) { UpperDigit(s[1]); }
    if |s| >= 1 && !IsDigit(s[0]) { assert !IsDigit(u[0]); }
    if |s| >= 2 && !IsDigit(s[1]) { assert !IsDigit(u[1]); }
    if ParseMinute(s).Some? {
      AsciiUpperDrop(s, |s| - |ParseMinute(s).value.1|);
    }
  }

  lemma AsciiUpperIdempotent(s: string)
    ensures AsciiUpper(AsciiUpper(s)) == AsciiUpper(s)
  {
  }

  lemma ParseMeridiemIgnoresCase(s: string)
    ensures ParseMeridiem(AsciiUpper(s)) == ParseMeridiem(s)
  {
    ParseMeridiemUpper(s);
    ParseMeridiemUpper(AsciiUpper(s));
    AsciiUpperIdempotent(s);
  }

  lemma ParseClockRestIgnoresCase(hour: Hour12, rest: string)
    ensures ParseClockRest(hour, AsciiUpper(rest)) == ParseClockRest(hour, rest)
  {
    var ur := AsciiUpper(rest);
    if rest != [] {
      assert ur[0] == Upper(rest[0]);
      if rest[0] == ':' {
        UpperDigit(rest[0]);
        AsciiUpperDrop(rest, 1);
        ParseMinuteIgnoresCase(rest[1..]);
        var mr := ParseMinute(rest[1..]);
        if mr.Some? {
          ParseMeridiemIgnoresCase(mr.value.1);
        }
      } else {
        assert ur[0] != ':';
      }
    }
  }

  /** Upper-casing does not change what a clock string reads as: `%p` ignores case. */
  lemma ParseClockIgnoresCase(s: string)
    ensures ParseClock(AsciiUpper(s)) == ParseClock(s)
  {
    ParseHourIgnoresCase(s);
    var hr := ParseHour(s);
    if hr.Some? {
      ParseClockRestIgnoresCase(hr.value.0, hr.value.1);
    }
  }

  lemma ParseHourSound(s: string)
    requires ParseHour(s).Some?
    ensures var (h, rest) := ParseHour(s).value;
      s == HourText(h, |s| - |rest| == 2) + rest
  {
    var (h, rest) := ParseHour(s).value;
    var n := |s| - |rest|;
    assert s == s[..n] + rest;
    if n == 2 && h >= 10 {
      assert s[0] == '1';
    }
    assert s[..n] == HourText(h, n == 2);
  }

  lemma ParseMinuteSound(s: string)
    requires ParseMinute(s).Some?
    ensures var (m, rest) := ParseMinute(s).value;
      s == MinuteText(m, |s| - |rest| == 2) + rest
  {
    var (m, rest) := ParseMinute(s).value;
    var n := |s| - |rest|;
    assert s == s[..n] + rest;
    assert s[..n] == MinuteText(m, n == 2);
  }

  lemma AsciiUpperDigits(s: string)
    requires forall i :: 0 <= i < |s| ==> IsDigit(s[i]) || s[i] == ':'
    ensures AsciiUpper(s) == s
  {
    forall i | 0 <= i < |s| ensures AsciiUpper(s)[i] == s[i] { UpperDigit(s[i]); }
  }

  /** An accepted string is an hour, a colon, a minute and a meridiem, in that order. */
  lemma ParseClockPieces(s: string) returns (padHour: bool, padMinute: bool, tail: string)
    requires ParseClock(s).Some?
    ensures var t := ParseClock(s).value;
      s == HourText(t.hour, padHour) + ":" + MinuteText(t.minute, padMinute) + tail &&
      ParseMeridiem(tail) == Some(t.pm)
  {
    var hr := ParseHour(s).value;
    ParseHourSound(s);
    padHour := |s| - |hr.1| == 2;
    padMinute, tail := ParseClockRestPieces(hr.0, hr.1);
  }

  lemma ParseClockRestPieces(hour: Hour12, rest: string) returns (padMinute: bool, tail: string)
    requires ParseClockRest(hour, rest).Some?
    ensures var t := ParseClockRest(hour, rest).value;
      t.hour == hour && rest == ":" + MinuteText(t.minute, padMinute) + tail && ParseMeridiem(tail) == Some(t.pm)
  {
    var mr := ParseMinute(rest[1..]).value;
    tail := mr.1;
    padMinute := |rest| - 1 - |tail| == 2;
    ParseMinuteSound(rest[1..]);
    assert rest == [':'] + rest[1..];
  }

  lemma ClockDigits(h: Hour12, m: Minute, padHour: bool, padMinute: bool)
    ensures var d := HourText(h, padHour) + ":" + MinuteText(m, padMinute);
      forall i :: 0 <= i < |d| ==> IsDigit(d[i]) || d[i] == ':'
  {
  }

  /**
   * The converse of `ParseFormatClock`: whatever strptime accepts is, up to the case of
   * its letters, one of the spellings of the time it yields.
   */
  lemma ParseClockSound(s: string) returns (padHour: bool, padMinute: bool)
    requires ParseClock(s).Some?
    ensures AsciiUpper(s) == FormatClock(ParseClock(s).value, padHour, padMinute)
  {
    var t := ParseClock(s).value;
    var tail;
    padHour, padMinute, tail := ParseClockPieces(s);
    var digits := HourText(t.hour, padHour) + ":" + MinuteText(t.minute, padMinute);
    ClockDigits(t.hour, t.minute, padHour, padMinute);
    AsciiUpperDigits(digits);
    AsciiUpperAppend(digits, tail);
    ParseMeridiemUpper(tail);
  }

  // Examples of what `%I:%M%p` accepts.

  /** Lower case and a leading zero are accepted. */
  lemma LowerCaseClockExample()
    ensures ParseClock("09:00am") == Some(ClockTime(9, 0, false))
  {
    assert ParseHour("09:00am") == Some((9, ":00am"));
    assert ParseMinute("00am") == Some((0, "am"));
  }

  /** A space before the meridiem is not. */
  lemma SpacedMeridiemExample()
    ensures ParseClock("9:00 AM") == None
  {
    assert ParseHour("9:00 AM") == Some((9, ":00 AM"));
    assert ParseMinute("00 AM") == Some((0, " AM"));
  }

  /** Nor is hour 13, read as hour 1 followed by a stray `3`. */
  lemma ThirteenOClockExample()
    ensures ParseClock("13:00PM") == None
  {
    assert ParseHour("13:00PM") == Some((1, "3:00PM"));
  }

  /** Nor a time without its meridiem. */
  lemma NoMeridiemExample()
    ensures ParseClock("9:00") == None
  {
    assert ParseHour("9:00") == Some((9, ":00"));
    assert ParseMinute("00") == Some((0, ""));
  }

  /** 12AM is midnight. */
  lemma MidnightExample()
    ensures ParseClock("12:00AM").Some? && Minutes(ParseClock("12:00AM").value) == 0
  {
    assert ParseHour("12:00AM") == Some((12, ":00AM"));
    assert ParseMinute("00AM") == Some((0, "AM"));
  }

  /** 12:30PM is half past noon. */
  lemma HalfPastNoonExample()
    ensures ParseClock("12:30PM").Some? && Minutes(ParseClock("12:30PM").value) == 750
  {
    assert ParseHour("12:30PM") == Some((12, ":30PM"));
    assert ParseMinute("30PM") == Some((30, "PM"));
  }
}
