/**
 * The weekly-hours string of a cooling center, for example `MON:9:00AM-5:00PM;TUE:CLOSED`,
 * the dictionary `_parse_hours` and `_is_center_open` build from it (utils/data.py),
 * and the open-or-closed verdict for a given weekday and minute of the day.
 */
module Hours {
  import opened Wrappers
  import opened PyStr
  import opened Clock

  /** The quote characters removed from both ends of the whole string. */
  const Quotes: set<char> := {'"', '\''}

  /** `hours_str.strip('"\'').split(';')`. */
  function Clauses(h: string): (r: seq<string>)
    ensures |r| >= 1 && forall i :: 0 <= i < |r| ==> ';' !in r[i]
  {
    Split(StripChars(h, Quotes), ';')
  }

  /**
   * What one clause adds to the dictionary: the text before its first colon and the
   * text after it, both stripped of whitespace; nothing when there is no colon.
   */
  function ClauseEntry(clause: string): (r: Option<(string, string)>)
    ensures r.None? <==> ':' !in clause
  {
    match SplitFirst(clause, ':')
    case None => None
    case Some((day, time)) => Some((Strip(day), Strip(time)))
  }

  /** The clause sets the entry for key `k`. */
  predicate Defines(clause: string, k: string) {
    ClauseEntry(clause).Some? && ClauseEntry(clause).value.0 == k
  }

  /** `f` applied to every element, in order. */
  function MapSeq<A, B>(f: A -> B, s: seq<A>): (r: seq<B>)
    ensures |r| == |s| && forall i :: 0 <= i < |s| ==> r[i] == f(s[i])
  {
    seq(|s|, i requires 0 <= i < |s| => f(s[i]))
  }

  lemma MapSeqSnoc<A, B>(f: A -> B, s: seq<A>, x: A)
    ensures MapSeq(f, s + [x]) == MapSeq(f, s) + [f(x)]
  {
  }

  /** The entry each clause contributes, in order. */
  function Entries(clauses: seq<string>): seq<Option<(string, string)>> {
    MapSeq(ClauseEntry, clauses)
  }

  /** Dictionary assignment in order, one per present entry: later entries overwrite. */
  function DictOf(entries: seq<Option<(string, string)>>): map<string, string>
    decreases |entries|
  {
    if entries == [] then map[]
    else
      var d := DictOf(entries[..|entries| - 1]);
      var last := entries[|entries| - 1];
      if last.None? then d else d[last.value.0 := last.value.1]
  }

  /** The dictionary after the loop has seen `clauses`. */
  function HoursDict(clauses: seq<string>): map<string, string> {
    DictOf(Entries(clauses))
  }

  /** `_parse_hours`: a missing (NaN) cell gives the empty dictionary. */
  function HoursOf(hours: Option<string>): (d: map<string, string>)
    ensures hours.None? ==> d == map[]
  {
    match hours
    case None => map[]
    case Some(h) => HoursDict(Clauses(h))
  }

  /**
   * The verdict for today's entry once it is neither missing nor `CLOSED`: it must split
   * on `-` into exactly two parts, each a `%I:%M%p` time once stripped, and the minute
   * must lie between them, both ends included.
   */
  function SpanContains(span: string, now: MinuteOfDay): (r: bool)
    ensures r ==> |Split(span, '-')| == 2
  {
    var parts := Split(span, '-');
    |parts| == 2 &&
    var from, until := ParseClock(Strip(parts[0])), ParseClock(Strip(parts[1]));
    from.Some? && until.Some? && Minutes(from.value) <= now <= Minutes(until.value)
  }

  /** The verdict once the dictionary is built. */
  function OpenFromDict(d: map<string, string>, today: Day, now: MinuteOfDay): bool {
    var key := DayName(today);
    key in d && d[key] != "CLOSED" && SpanContains(d[key], now)
  }

  /**
   * `_is_center_open` with today's weekday and the current minute of the day passed in:
   * every failure, whether a missing cell, an empty string, a missing day, `CLOSED`,
   * a bad span or a bad clock time, reads as closed.
   */
  function OpenStatus(hours: Option<string>, today: Day, now: MinuteOfDay): (r: bool)
    ensures r ==> hours.Some? && hours.value != "" && DayName(today) in HoursOf(hours)
  {
    match hours
    case None => false
    case Some(h) => h != "" && OpenFromDict(HoursDict(Clauses(h)), today, now)
  }

  lemma PrefixSnoc<T>(s: seq<T>, i: nat)
    requires i < |s|
    ensures s[..i + 1] == s[..i] + [s[i]]
  {
  }

  /** One more clause: the dictionary gains that clause's entry, if it has one. */
  lemma HoursDictSnoc(clauses: seq<string>, clause: string)
    ensures var e := ClauseEntry(clause);
      HoursDict(clauses + [clause]) == if e.None? then HoursDict(clauses) else HoursDict(clauses)[e.value.0 := e.value.1]
  {
    MapSeqSnoc(ClauseEntry, clauses, clause);
    DictOfSnoc(Entries(clauses), ClauseEntry(clause));
  }

  lemma DictOfSnoc(entries: seq<Option<(string, string)>>, e: Option<(string, string)>)
    ensures DictOf(entries + [e]) == if e.None? then DictOf(entries) else DictOf(entries)[e.value.0 := e.value.1]
  {
    assert (entries + [e])[..|entries|] == entries;
  }

  /** The loop shared by `_parse_hours` and `_is_center_open`: one dictionary update per clause with a colon. */
  method BuildHoursDict(clauses: seq<string>) returns (d: map<string, string>)
    ensures d == HoursDict(clauses)
  {
    d := map[];
    for i := 0 to |clauses|
      invariant d == HoursDict(clauses[..i])
    {
      var clause := clauses[i];
      PrefixSnoc(clauses, i);
      HoursDictSnoc(clauses[..i], clause);
      if ':' in clause {
        var (day, time) := SplitFirst(clause, ':').value;
        assert ClauseEntry(clause) == Some((Strip(day), Strip(time)));
        d := d[Strip(day) := Strip(time)];
      }
    }
    assert clauses[..|clauses|] == clauses;
  }

  /** `_parse_hours`. */
  method ParseHours(hours: Option<string>) returns (d: map<string, string>)
    ensures d == HoursOf(hours)
  {
    if hours.None? {
      return map[];
    }
    d := BuildHoursDict(Clauses(hours.value));
  }

  /** `_is_center_open`, with the clock replaced by the `today` and `now` parameters. */
  method IsCenterOpen(hours: Option<string>, today: Day, now: MinuteOfDay) returns (open: bool)
    ensures open == OpenStatus(hours, today, now)
  {
    if hours.None? || hours.value == "" {
      return false;
    }
    var d := BuildHoursDict(Clauses(hours.value));
    assert OpenStatus(hours, today, now) == OpenFromDict(d, today, now);
    var key := DayName(today);
    if key !in d {
      return false;
    }
    var todayHours := d[key];
    if todayHours == "CLOSED" {
      return false;
    }
    assert OpenFromDict(d, today, now) == SpanContains(todayHours, now);
    var parts := Split(todayHours, '-');
    if |parts| != 2 {
      return false;
    }
    var openTime := ParseClock(Strip(parts[0]));
    var closeTime := ParseClock(Strip(parts[1]));
    if openTime.None? || closeTime.None? {
      return false;
    }
    open := Minutes(openTime.value) <= now <= Minutes(closeTime.value);
  }

  // ---------------------------------------------------------------------------
  // The dictionary
  // ---------------------------------------------------------------------------

  /** Only the first colon divides a clause: the time keeps its own colons. */
  lemma ClauseEntryFirstColon(day: string, time: string)
    requires ':' !in day
    ensures ClauseEntry(day + ":" + time) == Some((Strip(day), Strip(time)))
  {
    SplitFirstAt(day, time, ':');
  }

  /** The entry for a key is the one of the last entry that sets it. */
  lemma {:induction false} DictOfLastWins(entries: seq<Option<(string, string)>>, i: nat)
    requires i < |entries| && entries[i].Some?
    requires forall j :: i < j < |entries| ==> entries[j].None? || entries[j].value.0 != entries[i].value.0
    ensures entries[i].value.0 in DictOf(entries) && DictOf(entries)[entries[i].value.0] == entries[i].value.1
    decreases |entries|
  {
    var n := |entries| - 1;
    var init := entries[..n];
    if i < n {
      assert init[i] == entries[i];
      forall j | i < j < |init| ensures init[j].None? || init[j].value.0 != init[i].value.0 {
        assert init[j] == entries[j];
      }
      DictOfLastWins(init, i);
    }
  }

  /** Every key of the dictionary comes from the last entry that sets it. */
  lemma {:induction false} DictOfKeySource(entries: seq<Option<(string, string)>>, k: string) returns (i: nat)
    requires k in DictOf(entries)
    ensures i < |entries| && entries[i] == Some((k, DictOf(entries)[k]))
    ensures forall j :: i < j < |entries| ==> entries[j].None? || entries[j].value.0 != k
    decreases |entries|
  {
    var n := |entries| - 1;
    var init := entries[..n];
    if entries[n].Some? && entries[n].value.0 == k {
      i := n;
    } else {
      i := DictOfKeySource(init, k);
      assert entries[i] == init[i];
      forall j | i < j < |entries| ensures entries[j].None? || entries[j].value.0 != k {
        if j < n { assert init[j] == entries[j]; }
      }
    }
  }

  /** The entry for a day comes from the last clause that sets it. */
  lemma HoursDictLastWins(clauses: seq<string>, i: nat)
    requires i < |clauses| && ClauseEntry(clauses[i]).Some?
    requires forall j :: i < j < |clauses| ==> !Defines(clauses[j], ClauseEntry(clauses[i]).value.0)
    ensures var (k, v) := ClauseEntry(clauses[i]).value;
      k in HoursDict(clauses) && HoursDict(clauses)[k] == v
  {
    var es := Entries(clauses);
    forall j | i < j < |es| ensures es[j].None? || es[j].value.0 != es[i].value.0 {
      assert !Defines(clauses[j], ClauseEntry(clauses[i]).value.0);
    }
    DictOfLastWins(es, i);
  }

  /**
   * Every key of the dictionary comes from a clause with a colon: the last clause that
   * sets it, and its value is that clause's time.
   */
  lemma HoursDictKeySource(clauses: seq<string>, k: string) returns (i: nat)
    requires k in HoursDict(clauses)
    ensures i < |clauses| && ClauseEntry(clauses[i]) == Some((k, HoursDict(clauses)[k]))
    ensures forall j :: i < j < |clauses| ==> !Defines(clauses[j], k)
  {
    var es := Entries(clauses);
    i := DictOfKeySource(es, k);
    forall j | i < j < |clauses| ensures !Defines(clauses[j], k) {
      assert es[j] == ClauseEntry(clauses[j]);
    }
  }

  /** An empty hours string has no clause with a colon, hence no entries. */
  lemma EmptyHoursDict()
    ensures HoursDict(Clauses("")) == map[]
  {
    StripCharsNoop("", Quotes);
    SplitNoSeparator("", ';');
    assert Clauses("") == [""];
    assert HoursDict([""]) == HoursDict([]);
  }

  // ---------------------------------------------------------------------------
  // The verdict
  // ---------------------------------------------------------------------------

  /** A missing cell or an empty string is closed. */
  lemma NoHoursIsClosed(today: Day, now: MinuteOfDay)
    ensures !OpenStatus(None, today, now)
    ensures !OpenStatus(Some(""), today, now)
  {
  }

  /** A day without an entry, or whose entry is `CLOSED`, is closed. */
  lemma MissingOrClosedDayIsClosed(hours: Option<string>, today: Day, now: MinuteOfDay)
    requires DayName(today) !in HoursOf(hours) || HoursOf(hours)[DayName(today)] == "CLOSED"
    ensures !OpenStatus(hours, today, now)
  {
  }

  /**
   * Malformed entries are closed: a span without exactly one `-`, or with a side that
   * is not a `%I:%M%p` time.
   */
  lemma MalformedSpanIsClosed(hours: Option<string>, today: Day, now: MinuteOfDay)
    requires DayName(today) in HoursOf(hours)
    requires var parts := Split(HoursOf(hours)[DayName(today)], '-');
      |parts| != 2 || ParseClock(Strip(parts[0])).None? || ParseClock(Strip(parts[1])).None?
    ensures !OpenStatus(hours, today, now)
  {
  }

  /** A verdict of open means the minute lies inside a well-formed span for today. */
  lemma OpenMeansWithinSpan(hours: Option<string>, today: Day, now: MinuteOfDay)
    requires OpenStatus(hours, today, now)
    ensures hours.Some? && DayName(today) in HoursOf(hours)
    ensures var parts := Split(HoursOf(hours)[DayName(today)], '-');
      |parts| == 2 && ParseClock(Strip(parts[0])).Some? && ParseClock(Strip(parts[1])).Some? &&
      Minutes(ParseClock(Strip(parts[0])).value) <= now <= Minutes(ParseClock(Strip(parts[1])).value)
  {
  }

  /** A span that ends before it starts (an overnight span) is never open. */
  lemma OvernightSpanNeverOpen(hours: Option<string>, today: Day, now: MinuteOfDay)
    requires DayName(today) in HoursOf(hours)
    requires var parts := Split(HoursOf(hours)[DayName(today)], '-');
      |parts| == 2 && ParseClock(Strip(parts[0])).Some? && ParseClock(Strip(parts[1])).Some? &&
      Minutes(ParseClock(Strip(parts[1])).value) < Minutes(ParseClock(Strip(parts[0])).value)
    ensures !OpenStatus(hours, today, now)
  {
  }

  /** `from-until`, each side written the way `%I:%M%p` reads it. */
  function SpanText(from: ClockTime, until: ClockTime, padHour: bool): string {
    FormatClock(from, padHour, true) + "-" + FormatClock(until, padHour, true)
  }

  lemma StripClock(t: ClockTime, padHour: bool, padMinute: bool)
    ensures Strip(FormatClock(t, padHour, padMinute)) == FormatClock(t, padHour, padMinute)
  {
    StripCharsNoop(FormatClock(t, padHour, padMinute), Whitespace);
  }

  lemma NoDashInClock(t: ClockTime, padHour: bool, padMinute: bool)
    ensures '-' !in FormatClock(t, padHour, padMinute)
  {
    FormatClockChars(t, padHour, padMinute);
  }

  /** A span made of two dash-free, already stripped sides is read side by side. */
  lemma SpanContainsOfSides(f: string, u: string, now: MinuteOfDay)
    requires '-' !in f && '-' !in u
    requires Strip(f) == f && Strip(u) == u
    ensures SpanContains(f + "-" + u, now) ==
      (ParseClock(f).Some? && ParseClock(u).Some? && Minutes(ParseClock(f).value) <= now <= Minutes(ParseClock(u).value))
  {
    SplitPair(f, u, '-');
  }

  /** A side that reads back as a time, with no dash and no surrounding space. */
  predicate CleanSide(side: string, t: ClockTime) {
    '-' !in side && Strip(side) == side && ParseClock(side) == Some(t)
  }

  lemma FormattedSideIsClean(t: ClockTime, padHour: bool)
    ensures CleanSide(FormatClock(t, padHour, true), t)
  {
    NoDashInClock(t, padHour, true);
    StripClock(t, padHour, true);
    ParseFormatClock(t, padHour, true);
  }

  lemma CleanSidesRead(f: string, u: string, from: ClockTime, until: ClockTime, now: MinuteOfDay)
    requires CleanSide(f, from) && CleanSide(u, until)
    ensures SpanContains(f + "-" + u, now) <==> Minutes(from) <= now <= Minutes(until)
  {
    SpanContainsOfSides(f, u, now);
  }

  lemma FormattedSidesRead(f: string, u: string, from: ClockTime, until: ClockTime, padHour: bool, now: MinuteOfDay)
    requires f == FormatClock(from, padHour, true) && u == FormatClock(until, padHour, true)
    ensures SpanContains(f + "-" + u, now) <==> Minutes(from) <= now <= Minutes(until)
  {
    FormattedSideIsClean(from, padHour);
    FormattedSideIsClean(until, padHour);
    CleanSidesRead(f, u, from, until, now);
  }

  /** A well-formed span splits into its two times, each of which reads back as itself. */
  lemma SpanTextReads(from: ClockTime, until: ClockTime, padHour: bool, now: MinuteOfDay)
    ensures SpanText(from, until, padHour) != "CLOSED"
    ensures SpanContains(SpanText(from, until, padHour), now) <==> Minutes(from) <= now <= Minutes(until)
  {
    FormatClockChars(from, padHour, true);
    FormattedSidesRead(FormatClock(from, padHour, true), FormatClock(until, padHour, true), from, until, padHour, now);
  }

  /**
   * For a well-formed `H:MMAM-H:MMPM` entry today, the verdict is open exactly when the
   * opening minute <= now <= the closing minute.
   */
  lemma OpenIffWithinSpan(hours: Option<string>, today: Day, now: MinuteOfDay, from: ClockTime, until: ClockTime, padHour: bool)
    requires DayName(today) in HoursOf(hours)
    requires HoursOf(hours)[DayName(today)] == SpanText(from, until, padHour)
    ensures OpenStatus(hours, today, now) <==> Minutes(from) <= now <= Minutes(until)
  {
    SpanTextReads(from, until, padHour, now);
    if hours == Some("") {
      EmptyHoursDict();
    }
  }

  /** Quote characters wrapped around the whole string do not change the verdict. */
  lemma QuotesIgnored(a: string, h: string, b: string, today: Day, now: MinuteOfDay)
    requires AllIn(a, Quotes) && AllIn(b, Quotes)
    ensures OpenStatus(Some(a + h + b), today, now) == OpenStatus(Some(h), today, now)
  {
    StripCharsIgnoresPadding(a, h, b, Quotes);
    SameClausesSameStatus(a + h + b, h, today, now);
    if h == "" {
      EmptyHoursDict();
    }
  }

  lemma SameClausesSameStatus(x: string, y: string, today: Day, now: MinuteOfDay)
    requires StripChars(x, Quotes) == StripChars(y, Quotes)
    ensures Clauses(x) == Clauses(y)
    ensures x != "" && y != "" ==> OpenStatus(Some(x), today, now) == OpenStatus(Some(y), today, now)
  {
  }
}
