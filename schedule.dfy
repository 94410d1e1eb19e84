/**
 * A reference reading of well-formed weekly hours. A schedule is a list of day entries,
 * each `CLOSED` or a span between two clock times; written out the way the data files
 * spell hours (`MON:9:00AM-5:00PM;TUE:CLOSED`), `_is_center_open` (utils/data.py) gives
 * the verdict that the last entry for today gives directly.
 */
module Schedule {
  import opened Wrappers
  import opened PyStr
  import opened Clock
  import opened Hours

  datatype DayHours = Closed | Open(from: ClockTime, until: ClockTime)

  datatype Entry = Entry(day: Day, hours: DayHours)

  /** The text after the colon of one clause. */
  function HoursText(h: DayHours, padHour: bool): string {
    match h
    case Closed => "CLOSED"
    case Open(from, until) => SpanText(from, until, padHour)
  }

  /** One clause, `DAY:hours`. */
  function EntryText(e: Entry, padHour: bool): string {
    DayName(e.day) + ":" + HoursText(e.hours, padHour)
  }

  function EntryTexts(es: seq<Entry>, padHour: bool): seq<string> {
    MapSeq((e: Entry) => EntryText(e, padHour), es)
  }

  /** The whole hours string: the clauses joined by `;`. */
  function ScheduleText(es: seq<Entry>, padHour: bool): string {
    Join(EntryTexts(es, padHour), ';')
  }

  /** The hours of the last entry for `day`, if any. */
  function LastEntry(es: seq<Entry>, day: Day): Option<DayHours>
    decreases |es|
  {
    if es == [] then None
    else if es[|es| - 1].day == day then Some(es[|es| - 1].hours)
    else LastEntry(es[..|es| - 1], day)
  }

  /** The reference verdict: open exactly within today's last listed span. */
  function ScheduledOpen(es: seq<Entry>, day: Day, now: MinuteOfDay): bool {
    match LastEntry(es, day)
    case None => false
    case Some(Closed) => false
    case Some(Open(from, until)) => Minutes(from) <= now <= Minutes(until)
  }

  /** The dictionary a schedule should produce: one key per day, the last entry winning. */
  function ScheduleMap(es: seq<Entry>, padHour: bool): map<string, string>
    decreases |es|
  {
    if es == [] then map[]
    else
      var e := es[|es| - 1];
      ScheduleMap(es[..|es| - 1], padHour)[DayName(e.day) := HoursText(e.hours, padHour)]
  }

  // ---------------------------------------------------------------------------
  // The characters of a written schedule
  // ---------------------------------------------------------------------------

  /** The text after the colon starts with a letter or a digit and ends with a letter. */
  lemma HoursTextShape(h: DayHours, padHour: bool)
    ensures var t := HoursText(h, padHour);
      t != [] && ';' !in t && ('A' <= t[0] <= 'Z' || IsDigit(t[0])) && 'A' <= t[|t| - 1] <= 'Z'
  {
    if h.Open? {
      var f, u := FormatClock(h.from, padHour, true), FormatClock(h.until, padHour, true);
      FormatClockChars(h.from, padHour, true);
      FormatClockChars(h.until, padHour, true);
      assert SpanText(h.from, h.until, padHour) == f + "-" + u;
      assert ';' !in f && ';' !in u;
    }
  }

  /** A clause has no `;`, and it starts and ends with a character neither `strip` removes. */
  lemma EntryTextShape(e: Entry, padHour: bool)
    ensures var t := EntryText(e, padHour);
      t != [] && ';' !in t && 'A' <= t[0] <= 'Z' && 'A' <= t[|t| - 1] <= 'Z'
  {
    HoursTextShape(e.hours, padHour);
    var d := DayName(e.day);
    assert ';' !in d by { forall i | 0 <= i < |d| ensures d[i] != ';' { } }
  }

  /** A clause of two parts that are already stripped, the first without a colon. */
  lemma ClauseOfParts(d: string, h: string)
    requires ':' !in d && EndsOutside(d, Whitespace) && EndsOutside(h, Whitespace)
    ensures ClauseEntry(d + ":" + h) == Some((d, h))
  {
    ClauseEntryFirstColon(d, h);
    StripCharsNoop(d, Whitespace);
    StripCharsNoop(h, Whitespace);
  }

  /** A clause reads back as its day's name and its hours text. */
  lemma EntryTextEntry(e: Entry, padHour: bool)
    ensures ClauseEntry(EntryText(e, padHour)) == Some((DayName(e.day), HoursText(e.hours, padHour)))
  {
    var d := DayName(e.day);
    assert ':' !in d by { forall i | 0 <= i < |d| ensures d[i] != ':' { } }
    HoursTextShape(e.hours, padHour);
    ClauseOfParts(d, HoursText(e.hours, padHour));
  }

  /** A clause that survives both `strip('"\'')` at the ends of the string and `split(';')`. */
  predicate CleanClause(t: string) {
    t != [] && ';' !in t && t[0] !in Quotes && t[|t| - 1] !in Quotes
  }

  lemma CleanClausesSplit(ts: seq<string>)
    requires ts != [] && forall i :: 0 <= i < |ts| ==> CleanClause(ts[i])
    ensures Join(ts, ';') != "" && Clauses(Join(ts, ';')) == ts
  {
    JoinFirst(ts, ';');
    JoinLast(ts, ';');
    StripCharsNoop(Join(ts, ';'), Quotes);
    SplitJoin(ts, ';');
  }

  /** The string of a non-empty schedule is split back into its clauses. */
  lemma ScheduleClauses(es: seq<Entry>, padHour: bool)
    requires es != []
    ensures ScheduleText(es, padHour) != ""
    ensures Clauses(ScheduleText(es, padHour)) == EntryTexts(es, padHour)
  {
    var ts := EntryTexts(es, padHour);
    forall i | 0 <= i < |ts| ensures CleanClause(ts[i]) {
      EntryTextShape(es[i], padHour);
    }
    CleanClausesSplit(ts);
  }

  // ---------------------------------------------------------------------------
  // The dictionary of a written schedule
  // ---------------------------------------------------------------------------

  /** Reading the clauses of a schedule builds exactly `ScheduleMap`. */
  lemma {:induction false} ScheduleDict(es: seq<Entry>, padHour: bool)
    ensures HoursDict(EntryTexts(es, padHour)) == ScheduleMap(es, padHour)
    decreases |es|
  {
    if es != [] {
      var init, e := es[..|es| - 1], es[|es| - 1];
      assert es == init + [e];
      MapSeqSnoc((e: Entry) => EntryText(e, padHour), init, e);
      ScheduleDict(init, padHour);
      HoursDictSnoc(EntryTexts(init, padHour), EntryText(e, padHour));
      EntryTextEntry(e, padHour);
    }
  }

  /** A day is a key of `ScheduleMap` exactly when it has an entry, and maps to the last one. */
  lemma {:induction false} ScheduleMapLookup(es: seq<Entry>, padHour: bool, day: Day)
    ensures DayName(day) in ScheduleMap(es, padHour) <==> LastEntry(es, day).Some?
    ensures LastEntry(es, day).Some? ==>
      ScheduleMap(es, padHour)[DayName(day)] == HoursText(LastEntry(es, day).value, padHour)
    decreases |es|
  {
    if es != [] {
      DayNameInjective(es[|es| - 1].day, day);
      ScheduleMapLookup(es[..|es| - 1], padHour, day);
    }
  }

  // ---------------------------------------------------------------------------
  // The verdict
  // ---------------------------------------------------------------------------

  /** Today's hours text decides the verdict the way the reference reading does. */
  lemma HoursTextVerdict(h: DayHours, padHour: bool, now: MinuteOfDay)
    ensures var t := HoursText(h, padHour);
      (t != "CLOSED" && SpanContains(t, now)) ==
      (match h case Closed => false case Open(from, until) => Minutes(from) <= now <= Minutes(until))
  {
    if h.Open? {
      SpanTextReads(h.from, h.until, padHour, now);
    }
  }

  /** Looking today up in `ScheduleMap` gives the reference verdict. */
  lemma ScheduleMapVerdict(es: seq<Entry>, padHour: bool, day: Day, now: MinuteOfDay)
    ensures OpenFromDict(ScheduleMap(es, padHour), day, now) == ScheduledOpen(es, day, now)
  {
    ScheduleMapLookup(es, padHour, day);
    var last := LastEntry(es, day);
    if last.Some? {
      HoursTextVerdict(last.value, padHour, now);
    }
  }

  /**
   * For every schedule, written with the hours of all its times zero-padded or all unpadded
   * (`padHour`; the minutes are always two digits), `_is_center_open` on its written form is
   * open exactly when today's last entry is a span containing the minute.
   */
  lemma ScheduleVerdict(es: seq<Entry>, padHour: bool, day: Day, now: MinuteOfDay)
    ensures OpenStatus(Some(ScheduleText(es, padHour)), day, now) == ScheduledOpen(es, day, now)
  {
    if es == [] {
      assert ScheduleText(es, padHour) == "";
    } else {
      ScheduleClauses(es, padHour);
      ScheduleDict(es, padHour);
      ScheduleMapVerdict(es, padHour, day, now);
    }
  }

  // ---------------------------------------------------------------------------
  // Examples
  // ---------------------------------------------------------------------------

  lemma ExampleClocks()
    ensures FormatClock(ClockTime(9, 0, false), false, true) == "9:00AM"
    ensures FormatClock(ClockTime(5, 0, true), false, true) == "5:00PM"
  {
    assert HourText(9, false) == "9" && HourText(5, false) == "5";
    assert MinuteText(0, true) == "00";
  }

  /** The single entry `MON 9:00AM-5:00PM`, written out. */
  lemma ExampleText()
    ensures ScheduleText([Entry(Mon, Open(ClockTime(9, 0, false), ClockTime(5, 0, true)))], false) == "MON:9:00AM-5:00PM"
  {
    var es := [Entry(Mon, Open(ClockTime(9, 0, false), ClockTime(5, 0, true)))];
    ExampleClocks();
    assert EntryText(es[0], false) == "MON:9:00AM-5:00PM";
    assert EntryTexts(es, false) == ["MON:9:00AM-5:00PM"];
  }

  /** `MON:9:00AM-5:00PM`: open on Monday at 10:00, closed at 18:00 and all Tuesday. */
  lemma WeekdaySpanExample()
    ensures OpenStatus(Some("MON:9:00AM-5:00PM"), Mon, 600)
    ensures !OpenStatus(Some("MON:9:00AM-5:00PM"), Mon, 1080)
    ensures !OpenStatus(Some("MON:9:00AM-5:00PM"), Tue, 600)
  {
    var es := [Entry(Mon, Open(ClockTime(9, 0, false), ClockTime(5, 0, true)))];
    ExampleText();
    ScheduleVerdict(es, false, Mon, 600);
    ScheduleVerdict(es, false, Mon, 1080);
    ScheduleVerdict(es, false, Tue, 600);
  }
}
