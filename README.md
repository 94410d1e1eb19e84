# Seattle cooling-center finder: data core

A model of `utils/data.py`, the data layer of a small locator for public cooling centers. The
`CoolingCenterData` class loads a table of centers, one row per center. Each row has a name,
an address, a type, a `"lat,lng"` coordinates string, a weekly hours string such as
`MON:9:00AM-5:00PM;TUE:CLOSED`, a features list written as a Python list literal, and notes.
The class answers three queries:

- the nearest centers within a radius, optionally only the open ones, sorted by distance and
  optionally truncated;
- the centers of given types;
- the centers open now.

The project is organised in six modules:

- `Wrappers` holds the `Option` type: `None` is a missing (NaN) cell or a failed parse.
- `PyStr` gives the Python string operations the code relies on: `strip()`, `strip(chars)`,
  `split(sep)` and `split(sep, 1)`, with Join as the inverse of Split.
- `Clock` covers weekdays and `datetime.strptime(s, '%I:%M%p')`. The parser follows CPython's
  regular expressions for `%I` (`1[0-2]|0[1-9]|[1-9]`), `%M` (`[0-5]\d|\d`) and `%p` (AM or PM,
  ignoring case), with a full-string match. It also gives the conversion to minutes since
  midnight, where 12 AM is hour 0 and 12 PM is hour 12.
- `Hours` covers `_parse_hours` and `_is_center_open`. The dictionary-building loop is a method
  proved against the function `HoursDict`. The verdict is the function `OpenStatus`, proved
  equal to the method `IsCenterOpen`.
- `Schedule` is an independent reference reading of well-formed weekly hours: a list of day
  entries, each closed or a span, written out the way the data spells them. `ScheduleVerdict`
  proves that `_is_center_open` on that text gives the verdict of the last entry for today.
- `Centers` covers row loading (`_parse_coordinates` and the features lambda of `__init__`) and
  the class `CoolingCenterData`. The class has a `rows` field, a constructor that rewrites every
  row, and the three queries.

Calls the model cannot see are parameters:

- the clock is `today: Day` and `now: MinuteOfDay`;
- the geodesic distance in miles is `geodesic`;
- Python's `float` is `parseFloat`, which returns `None` where `float` raises.

Two behaviours of the code worth knowing:

- **Empty features.** Only a missing (NaN) cell gives `[]`. The cell `[]` gives `[""]`
  (`Centers.EmptyListCell`).
- **Ties.** `sort_values('distance')` uses pandas' default sort, which is not stable. The model
  promises only sorted order and the same multiset of rows.

## Model

| member | source | states |
|---|---|---|
| PyStr.StripChars | utils/data.py:42 | `s.strip(cs)`: the result is no longer than `s`, and neither of its ends is in `cs` |
| PyStr.StripCharsSlice | utils/data.py:42 | the stripped string is a slice of the input, and everything cut from both sides is in `cs` |
| PyStr.StripCharsUnique | utils/data.py:42 | `a + m + b`, with `a` and `b` made only of `cs` and `m`'s ends outside `cs`, strips to exactly `m` |
| PyStr.StripCharsIgnoresPadding | utils/data.py:42 | padding made only of `cs`, around any string, does not change the result of strip |
| PyStr.Strip | utils/data.py:47 | `s.strip()` is `strip` with CPython's whitespace set: no longer than `s`, and neither end is whitespace |
| PyStr.StripCharsNoop | utils/data.py:47 | strip leaves alone a string whose ends are outside `cs` |
| PyStr.Split | utils/data.py:42 | `split(sep)` gives at least one piece, no piece contains `sep`, and joining the pieces with `sep` gives back the input |
| PyStr.SplitCount | utils/data.py:42 | the number of pieces is the number of separators plus one |
| PyStr.SplitNoSeparator | utils/data.py:42 | a string without the separator is one piece |
| PyStr.SplitAtFirst | utils/data.py:42 | splitting `a + sep + t`, where `a` has no separator, gives `a` followed by the pieces of `t` |
| PyStr.SplitJoin | utils/data.py:42 | splitting a join of separator-free pieces gives back the pieces (the inverse of `Split`'s join law) |
| PyStr.SplitPair | utils/data.py:82 | `a + sep + b`, with neither part containing `sep`, splits into exactly `[a, b]` |
| PyStr.SplitFirst | utils/data.py:46 | `split(sep, 1)` fails exactly when `sep` is absent; otherwise the head has no `sep` and head + sep + tail is the input |
| PyStr.SplitFirstAt | utils/data.py:46 | for `a` without `sep`, `split(sep, 1)` of `a + sep + b` is `(a, b)`, even when `b` contains `sep` |
| PyStr.SplitFirstIsFirstPiece | utils/data.py:46 | the head of `split(sep, 1)` is the first piece of `split(sep)` |
| Clock.DayName | utils/data.py:62 | the weekday key is three upper-case letters |
| Clock.DayNameInjective | utils/data.py:62 | different weekdays have different keys |
| Clock.Minutes | utils/data.py:88-93 | `hour * 60 + minute` after strptime: in 0..1439, the minute is preserved, PM exactly when at least 720, and the hour agrees modulo 12 |
| Clock.MinutesBijective | utils/data.py:88-93 | 12-hour times and minutes of the day correspond one to one |
| Clock.TwelveOClock | utils/data.py:88-93 | 12 AM falls in 0..59 and 12 PM at 720 plus the minute |
| Clock.ParseHour | utils/data.py:88 | `%I` consumes one or two characters, and the rest is a suffix of the input |
| Clock.ParseMinute | utils/data.py:88 | `%M` consumes one or two characters, and the rest is a suffix of the input |
| Clock.ParseMeridiem | utils/data.py:88 | `%p` as the last directive consumes the whole rest, exactly two characters; ParseMeridiemUpper says which |
| Clock.ParseMeridiemUpper | utils/data.py:88 | `%p` accepts exactly the strings that upper-case to `AM` or `PM` |
| Clock.ParseClock | utils/data.py:88-92 | `strptime(s, '%I:%M%p')`: an accepted string has 5 to 7 characters; ParseFormatClock and ParseClockSound characterise exactly what it accepts and reads |
| Clock.ParseFormatClock | utils/data.py:88-92 | every 12-hour time, written with or without zero padding, parses back to itself |
| Clock.ParseClockIgnoresCase | utils/data.py:88-92 | upper-casing the input does not change what strptime reads |
| Clock.ParseClockSound | utils/data.py:88-92 | any accepted string is, once upper-cased, the written form of the time it parses to: strptime accepts nothing else |
| Clock.LowerCaseClockExample | utils/data.py:88 | `09:00am` reads as 9:00 AM |
| Clock.SpacedMeridiemExample | utils/data.py:88 | `9:00 AM` is rejected |
| Clock.ThirteenOClockExample | utils/data.py:88 | `13:00PM` is rejected |
| Clock.NoMeridiemExample | utils/data.py:88 | `9:00` is rejected |
| Clock.MidnightExample | utils/data.py:88-89 | `12:00AM` is minute 0 |
| Clock.HalfPastNoonExample | utils/data.py:88-89 | `12:30PM` is minute 750 |
| Hours.Clauses | utils/data.py:42 | `hours_str.strip('"\'').split(';')` gives at least one clause, none containing `;` |
| Hours.ClauseEntry | utils/data.py:45-47 | a clause adds an entry exactly when it contains `:` |
| Hours.BuildHoursDict | utils/data.py:44-47 | the loop builds `HoursDict` of the clauses |
| Hours.HoursOf | utils/data.py:35-49 | the dictionary `_parse_hours` returns: empty for a missing cell; HoursDictLastWins and HoursDictKeySource give its keys and values |
| Hours.ParseHours | utils/data.py:35-49 | `_parse_hours` gives the empty dictionary for a missing cell, otherwise the dictionary of the quote-stripped, `;`-split clauses |
| Hours.SpanContains | utils/data.py:82-96 | today's entry contains the minute only if it splits on `-` into exactly two parts; SpanTextReads and MalformedSpanIsClosed give both directions |
| Hours.OpenStatus | utils/data.py:51-100 | the verdict of `_is_center_open`: open only for a present, non-empty cell with an entry for today; the lemmas below characterise it |
| Hours.IsCenterOpen | utils/data.py:51-100 | `_is_center_open` returns `OpenStatus`, whose properties are the lemmas below |
| Hours.ClauseEntryFirstColon | utils/data.py:46-47 | only the first colon divides a clause; the key and the value are the stripped parts before and after it |
| Hours.HoursDictLastWins | utils/data.py:44-47 | a clause whose key no later clause sets determines that key's value |
| Hours.HoursDictKeySource | utils/data.py:44-47 | every key comes from a clause with a colon, the last one that sets it, with that clause's value |
| Hours.EmptyHoursDict | utils/data.py:42-47 | the empty string yields no entries |
| Hours.NoHoursIsClosed | utils/data.py:56-57 | a missing (NaN) cell and the empty string are closed |
| Hours.MissingOrClosedDayIsClosed | utils/data.py:73-79 | a day without an entry, or whose entry is `CLOSED`, is closed |
| Hours.MalformedSpanIsClosed | utils/data.py:82-100 | a span without exactly two `-` parts, or with a side strptime rejects, is closed |
| Hours.OpenMeansWithinSpan | utils/data.py:82-96 | open implies that today has a well-formed span and open ≤ now ≤ close |
| Hours.OvernightSpanNeverOpen | utils/data.py:96 | a span whose close precedes its open is closed at every minute |
| Hours.SpanTextReads | utils/data.py:82-93 | a written span is not `CLOSED`, and contains the minute exactly when open ≤ now ≤ close |
| Hours.OpenIffWithinSpan | utils/data.py:73-96 | for a well-formed span today: open if and only if open ≤ now ≤ close, both ends included |
| Hours.QuotesIgnored | utils/data.py:66 | quotes wrapped around the whole string do not change the verdict |
| Hours.SameClausesSameStatus | utils/data.py:66 | two strings that strip to the same text have the same clauses and, when non-empty, the same verdict |
| Schedule.EntryTextEntry | utils/data.py:68-70 | a written clause `DAY:hours` reads back as the day's key and its hours text |
| Schedule.ScheduleClauses | utils/data.py:66 | the written schedule splits back into its clauses |
| Schedule.ScheduleDict | utils/data.py:65-70 | reading a written schedule builds exactly the reference `ScheduleMap`, where the last entry per day wins |
| Schedule.ScheduleMapLookup | utils/data.py:73-77 | a day is a key exactly when it has an entry, and it maps to its last entry's hours |
| Schedule.ScheduleVerdict | utils/data.py:51-100 | for every schedule, `_is_center_open` on its text equals the reference verdict: open exactly within today's last listed span |
| Schedule.ExampleText | utils/data.py:54 | the entry Monday 9 AM to 5 PM is written `MON:9:00AM-5:00PM` |
| Schedule.WeekdaySpanExample | utils/data.py:54 | `MON:9:00AM-5:00PM` is open Monday at 10:00, closed Monday at 18:00 and closed on Tuesday |
| Centers.ParseCoordinates | utils/data.py:26-33 | a missing cell gives (0, 0), and any other result needs exactly two comma pieces |
| Centers.CoordinatesOfPair | utils/data.py:29-30 | two numbers joined by one comma read as (lat, lng) |
| Centers.CoordinatesNeedOneComma | utils/data.py:29-33 | any number of commas other than one gives (0, 0) |
| Centers.CoordinatesNotNumbers | utils/data.py:29-33 | a piece that is not a number gives (0, 0) |
| Centers.FeatureItem | utils/data.py:22 | `f.strip().strip("'")` is no longer than the piece and neither of its ends is an apostrophe |
| Centers.SplitFeatures | utils/data.py:20-24 | a missing cell gives `[]`; otherwise there is one feature per comma piece of the stripped cell |
| Centers.FeatureCount | utils/data.py:22 | a present cell gives one feature more than the commas it contains once stripped, hence never `[]` |
| Centers.EmptyListCell | utils/data.py:21-22 | the cell `[]` gives `[""]` |
| Centers.PyListRoundTrip | utils/data.py:20-24 | Python's list text `['a', 'b']` of clean features reads back as exactly those features. Clean means non-empty printable ASCII, with no backslash, apostrophe or comma, and neither end a space or list punctuation; `repr` writes such a string unescaped |
| Centers.LoadRow | utils/data.py:13-24 | a loaded row has the parsed coordinates as lat and lng, the split features, and every other column unchanged |
| Centers.Filter | utils/data.py:161 | a boolean mask keeps at most the rows it is given, only ones the mask accepts |
| Centers.FilterCount | utils/data.py:161 | a mask keeps every accepted row as often as it occurs, and no other row |
| Centers.FilterAppend | utils/data.py:161 | a mask preserves row order: filtering a concatenation filters each part |
| Centers.Insert | utils/data.py:140 | inserting into a sorted list keeps it sorted and adds exactly the new row |
| Centers.SortByDistance | utils/data.py:140 | the result is sorted by distance and is a permutation of the input |
| Centers.Head | utils/data.py:146-147 | `if limit: head(limit)`: None and 0 keep everything, a positive limit keeps that many leading rows, a negative one drops that many trailing rows; always a prefix |
| Centers.HeadOfSorted | utils/data.py:146-147 | the head of a sorted list is sorted and no farther than any row it drops |
| Centers.HeadSubset | utils/data.py:146-147 | the head is a sub-multiset of the rows |
| Centers.Candidates | utils/data.py:122-137 | the rows that pass the distance mask and, when asked, the open mask, measured, in table order; CandidatesCount and CandidatesWithin characterise it |
| Centers.CandidatesCount | utils/data.py:122-137 | a measured row appears among the candidates exactly as often as its center appears in the table, if it is within the radius (and open, when asked), and otherwise not at all |
| Centers.CandidatesWithin | utils/data.py:130-137 | every candidate is a table row, carries its own distance and status, and is within the radius (and open, when asked) |
| Centers.NearestResult | utils/data.py:140-147 | the sorted, truncated candidates are sorted, each is a kept table row, none is farther than a dropped one, and they are a sub-multiset of the candidates |
| Centers.CoolingCenterData.constructor | utils/data.py:7-24 | every loaded row is its CSV row with coordinates and features rewritten, in order |
| Centers.CoolingCenterData.GetNearestCenters | utils/data.py:105-149 | before truncation: the candidates, sorted. The result is their head under `limit`: sorted, within the radius (and open, when asked), the nearest ones |
| Centers.CoolingCenterData.CentersByType | utils/data.py:159-161 | exactly the rows whose type is listed, each as often as it occurs |
| Centers.CoolingCenterData.GetOpenCenters | utils/data.py:163-167 | exactly the rows `_is_center_open` accepts at (today, now), in table order |

## Left out

- The clock: `datetime.now()` and `strftime('%a').upper()` become the parameters `today` and `now`. The C locale's English weekday names are assumed.
- `_calculate_distance`: the geodesic distance in miles (geopy) is the parameter `geodesic`, over unbounded reals, and it is total. geopy raises `ValueError` for a latitude outside [-90, 90]. Nothing at lines 122-127 catches it, so in the code the error reaches the caller of `get_nearest_centers`. The model does not have this error path. NaN and infinite distances are not modelled.
- Python's `float` on a coordinate piece is the parameter `parseFloat`. NaN and infinite coordinates are not modelled.
- Clock.ParseClock: Python's `\d` also accepts non-ASCII decimal digits, and `re.IGNORECASE` folds Unicode case. The model accepts ASCII digits and ASCII case only.
- `pd.read_csv` and every pandas mechanism are left out: the CSV file, column types, the index and boolean-mask alignment. The constructor takes the rows already read. An empty (NaN) cell is `None` in the coordinates, hours, features and notes columns.
- Centers.RawRow: the name, address and type are always strings. A row with an empty one of these cells cannot be represented, for instance a NaN type, which `isin` at line 161 never matches. Non-string cells other than NaN are not modelled either.
- The `coordinates` tuple column that `__init__` keeps next to `lat` and `lng` is not kept.
- Centers.CoolingCenterData.GetNearestCenters: the distance mask, the open-status column and the open mask are fused into one pass per row. `_is_center_open` is called only for rows within the radius, as in the code.
- The second, identical recomputation of the `is_open` column after sorting is left out. Because the clock is a parameter it gives the same values.
- Centers.SortByDistance: the order of rows at equal distance is not specified. pandas' default sort is not stable, so the code promises no tie order.
- Centers.CoolingCenterData.GetOpenCenters: returns the open rows without the added `is_open` column, which is true on every one of them.
- Centers.CoolingCenterData.constructor on an empty table: the model builds a table with no rows, but the code raises `ValueError` at lines 14-17. There, `pd.DataFrame([], index=...)` has no columns, and assigning it to `self.df[['lat', 'lng']]` fails pandas' key-length check. So no query ever runs on an empty table in the code.
- Centers.CoolingCenterData.GetNearestCenters with `show_only_open` set and no row within the radius: the model returns the empty list, but the code raises `KeyError`. The empty `is_open` column has object type, not boolean, and pandas does not take an empty object column as a boolean mask. So `centers[centers['is_open']]` (line 137) selects zero columns, and `sort_values('distance')` (line 140) raises.
- `get_all_centers` returns the table unchanged: it is the `rows` field.
- The console messages printed on coordinate and hours errors are left out. They do not change the results.
- The map and page code (maps.py and app.py) is not part of this model.
