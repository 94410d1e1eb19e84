/**
 * The cooling-center table of utils/data.py: the row normalisation done when the CSV is
 * loaded (coordinates and features), and the three queries over the loaded rows
 * (`get_nearest_centers`, `get_centers_by_type`, `get_open_centers`).
 */
module Centers {
  import opened Wrappers
  import opened PyStr
  import opened Clock
  import opened Hours

  /** One CSV row as pandas reads it; `None` is a missing (NaN) cell. */
  datatype RawRow = RawRow(
    name: string, address: string, kind: string,
    coordinates: Option<string>, hours: Option<string>, features: Option<string>, notes: Option<string>)

  /** One row after loading: coordinates split into `lat`/`lng`, features into a list. */
  datatype Center = Center(
    name: string, address: string, kind: string,
    lat: real, lng: real, hours: Option<string>, features: seq<string>, notes: Option<string>)

  // ---------------------------------------------------------------------------
  // Coordinates
  // ---------------------------------------------------------------------------

  /**
   * `_parse_coordinates`: `lat, lng = map(float, coord_str.split(','))`, or `(0, 0)` when
   * that raises: a missing cell, a number of pieces other than two, or a piece that is
   * not a number. `parseFloat` is Python's `float` on one piece.
   */
  function ParseCoordinates(coord: Option<string>, parseFloat: string -> Option<real>): (r: (real, real))
    ensures coord.None? ==> r == (0.0, 0.0)
    ensures r != (0.0, 0.0) ==> coord.Some? && |Split(coord.value, ',')| == 2
  {
    if coord.None? then (0.0, 0.0)
    else
      var pieces := Split(coord.value, ',');
      if |pieces| != 2 then (0.0, 0.0)
      else
        var lat, lng := parseFloat(pieces[0]), parseFloat(pieces[1]);
        if lat.Some? && lng.Some? then (lat.value, lng.value) else (0.0, 0.0)
  }

  /** Two numbers joined by a comma are read as latitude and longitude. */
  lemma CoordinatesOfPair(a: string, b: string, lat: real, lng: real, parseFloat: string -> Option<real>)
    requires ',' !in a && ',' !in b
    requires parseFloat(a) == Some(lat) && parseFloat(b) == Some(lng)
    ensures ParseCoordinates(Some(a + "," + b), parseFloat) == (lat, lng)
  {
    SplitPair(a, b, ',');
  }

  /** Any number of commas other than one gives the default `(0, 0)`. */
  lemma CoordinatesNeedOneComma(c: string, parseFloat: string -> Option<real>)
    requires multiset(c)[','] != 1
    ensures ParseCoordinates(Some(c), parseFloat) == (0.0, 0.0)
  {
    SplitCount(c, ',');
  }

  /** A side that is not a number gives the default `(0, 0)`. */
  lemma CoordinatesNotNumbers(a: string, b: string, parseFloat: string -> Option<real>)
    requires ',' !in a && ',' !in b
    requires parseFloat(a).None? || parseFloat(b).None?
    ensures ParseCoordinates(Some(a + "," + b), parseFloat) == (0.0, 0.0)
  {
    SplitPair(a, b, ',');
  }

  // ---------------------------------------------------------------------------
  // Features
  // ---------------------------------------------------------------------------

  /** The characters `x.strip('[]"\'')` removes from both ends of the cell. */
  const ListPunctuation: set<char> := {'[', ']', '"', '\''}

  const Apostrophe: set<char> := {'\''}

  /** `f.strip().strip("'")`. */
  function FeatureItem(piece: string): (r: string)
    ensures |r| <= |piece| && EndsOutside(r, Apostrophe)
  {
    StripChars(Strip(piece), Apostrophe)
  }

  /** The features lambda of `__init__`: `[]` for a missing cell, else one item per comma-separated piece. */
  function SplitFeatures(cell: Option<string>): (r: seq<string>)
    ensures cell.None? ==> r == []
    ensures cell.Some? ==> |r| == |Split(StripChars(cell.value, ListPunctuation), ',')|
  {
    if cell.None? then [] else MapSeq(FeatureItem, Split(StripChars(cell.value, ListPunctuation), ','))
  }

  /** A present cell gives one feature more than the commas left once the ends are stripped. */
  lemma FeatureCount(s: string)
    ensures |SplitFeatures(Some(s))| == multiset(StripChars(s, ListPunctuation))[','] + 1
    ensures SplitFeatures(Some(s)) != []
  {
    SplitCount(StripChars(s, ListPunctuation), ',');
  }

  /** The cell `[]` gives one empty feature, not an empty list. */
  lemma EmptyListCell()
    ensures SplitFeatures(Some("[]")) == [""]
  {
    var inner := StripChars("[]", ListPunctuation);
    assert StripChars("[]", ListPunctuation) == StripChars("]", ListPunctuation);
    assert inner == "";
    SplitNoSeparator("", ',');
    StripCharsNoop("", Whitespace);
    StripCharsNoop("", Apostrophe);
  }

  /**
   * A feature that Python's `repr` writes unchanged between single quotes (printable
   * ASCII, no backslash, no apostrophe) and that the lambda reads back intact: not
   * empty, no comma, and neither end a space or list punctuation.
   */
  predicate CleanFeature(f: string) {
    f != [] && (forall i :: 0 <= i < |f| ==> ' ' <= f[i] <= '~') &&
    '\\' !in f && ',' !in f && '\'' !in f &&
    f[0] !in ListPunctuation && f[|f| - 1] !in ListPunctuation &&
    f[0] !in Whitespace && f[|f| - 1] !in Whitespace
  }

  /** How the `i`-th of `n` features appears between the commas once the brackets are stripped. */
  function InnerItem(f: string, first: bool, last: bool): string {
    (if first then "" else " '") + f + (if last then "" else "'")
  }

  function InnerItems(fs: seq<string>): (r: seq<string>)
    ensures |r| == |fs|
  {
    seq(|fs|, i requires 0 <= i < |fs| => InnerItem(fs[i], i == 0, i == |fs| - 1))
  }

  /**
   * `str(fs)` for a non-empty list of strings that `repr` writes without escapes, such as
   * the clean features: `['a', 'b']`.
   */
  function PyListText(fs: seq<string>): string {
    "['" + Join(InnerItems(fs), ',') + "']"
  }

  lemma InnerItemReads(f: string, first: bool, last: bool)
    requires CleanFeature(f)
    ensures ',' !in InnerItem(f, first, last)
    ensures FeatureItem(InnerItem(f, first, last)) == f
  {
    var lead, trail := if first then "" else "'", if last then "" else "'";
    var pad := if first then "" else " ";
    assert InnerItem(f, first, last) == pad + (lead + f + trail) + "";
    StripPad(pad, lead + f + trail);
    StripQuotes(lead, f, trail);
  }

  lemma StripPad(pad: string, m: string)
    requires pad == "" || pad == " "
    requires m != [] && m[0] !in Whitespace && m[|m| - 1] !in Whitespace
    ensures Strip(pad + m + "") == m
  {
    StripCharsUnique(pad, m, "", Whitespace);
  }

  lemma StripQuotes(lead: string, f: string, trail: string)
    requires lead == "" || lead == "'"
    requires trail == "" || trail == "'"
    requires CleanFeature(f)
    ensures StripChars(lead + f + trail, Apostrophe) == f
  {
    StripCharsUnique(lead, f, trail, Apostrophe);
  }

  /** Stripping `[]"'` from `['...']` leaves the text between the outer quotes. */
  lemma StripListText(fs: seq<string>)
    requires fs != [] && forall i :: 0 <= i < |fs| ==> CleanFeature(fs[i])
    ensures StripChars(PyListText(fs), ListPunctuation) == Join(InnerItems(fs), ',')
  {
    var items := InnerItems(fs);
    assert items[0] == fs[0] + (if |fs| == 1 then "" else "'");
    assert items[|fs| - 1] == (if |fs| == 1 then "" else " '") + fs[|fs| - 1];
    JoinFirst(items, ',');
    JoinLast(items, ',');
    assert AllIn("['", ListPunctuation) && AllIn("']", ListPunctuation);
    StripCharsUnique("['", Join(items, ','), "']", ListPunctuation);
  }

  lemma MapFeatureItems(items: seq<string>, fs: seq<string>)
    requires |items| == |fs| && forall i :: 0 <= i < |fs| ==> FeatureItem(items[i]) == fs[i]
    ensures MapSeq(FeatureItem, items) == fs
  {
  }

  /** Python's list text of clean features reads back as those features. */
  lemma PyListRoundTrip(fs: seq<string>)
    requires fs != [] && forall i :: 0 <= i < |fs| ==> CleanFeature(fs[i])
    ensures SplitFeatures(Some(PyListText(fs))) == fs
  {
    var items := InnerItems(fs);
    forall i | 0 <= i < |items| ensures ',' !in items[i] && FeatureItem(items[i]) == fs[i] {
      InnerItemReads(fs[i], i == 0, i == |fs| - 1);
    }
    StripListText(fs);
    SplitJoin(items, ',');
    MapFeatureItems(items, fs);
  }

  // ---------------------------------------------------------------------------
  // Loading
  // ---------------------------------------------------------------------------

  /** One row after `__init__` has rewritten its coordinates and features columns. */
  function LoadRow(raw: RawRow, parseFloat: string -> Option<real>): (c: Center)
    ensures (c.lat, c.lng) == ParseCoordinates(raw.coordinates, parseFloat)
    ensures c.features == SplitFeatures(raw.features)
    ensures c.name == raw.name && c.address == raw.address && c.kind == raw.kind
    ensures c.hours == raw.hours && c.notes == raw.notes
  {
    var (lat, lng) := ParseCoordinates(raw.coordinates, parseFloat);
    Center(raw.name, raw.address, raw.kind, lat, lng, raw.hours, SplitFeatures(raw.features), raw.notes)
  }

  // ---------------------------------------------------------------------------
  // Filtering, sorting and truncating rows
  // ---------------------------------------------------------------------------

  /** A boolean mask applied to a frame: the rows for which `p` holds, in their order. */
  function Filter<T>(s: seq<T>, p: T -> bool): (r: seq<T>)
    ensures |r| <= |s|
    ensures forall x :: x in r ==> x in s && p(x)
    decreases |s|
  {
    if s == [] then []
    else Filter(s[..|s| - 1], p) + (if p(s[|s| - 1]) then [s[|s| - 1]] else [])
  }

  lemma FilterSnoc<T>(s: seq<T>, i: nat, p: T -> bool)
    requires i < |s|
    ensures Filter(s[..i + 1], p) == Filter(s[..i], p) + (if p(s[i]) then [s[i]] else [])
  {
    assert s[..i + 1][..i] == s[..i];
  }

  /** The mask keeps every row for which `p` holds, as often as it occurs, and no other. */
  lemma {:induction false} FilterCount<T>(s: seq<T>, p: T -> bool, x: T)
    ensures multiset(Filter(s, p))[x] == if p(x) then multiset(s)[x] else 0
    decreases |s|
  {
    if s != [] {
      var init := s[..|s| - 1];
      assert s == init + [s[|s| - 1]];
      FilterCount(init, p, x);
    }
  }

  /** The mask keeps the order: filtering a concatenation filters each part. */
  lemma {:induction false} FilterAppend<T>(s: seq<T>, t: seq<T>, p: T -> bool)
    ensures Filter(s + t, p) == Filter(s, p) + Filter(t, p)
    decreases |t|
  {
    if t == [] {
      assert s + t == s;
    } else {
      var t', last := t[..|t| - 1], t[|t| - 1];
      var tail := if p(last) then [last] else [];
      assert (s + t)[..|s + t| - 1] == s + t';
      assert (s + t)[|s + t| - 1] == last;
      assert Filter(s + t, p) == Filter(s + t', p) + tail;
      assert Filter(t, p) == Filter(t', p) + tail;
      FilterAppend(s, t', p);
      assert Filter(s, p) + Filter(t', p) + tail == Filter(s, p) + (Filter(t', p) + tail);
    }
  }

  /** A row with its `distance` and `is_open` columns. */
  datatype Located = Located(center: Center, distance: real, isOpen: bool)

  predicate SortedByDistance(s: seq<Located>) {
    forall i, j :: 0 <= i < j < |s| ==> s[i].distance <= s[j].distance
  }

  lemma SortedConcat(a: seq<Located>, b: seq<Located>)
    requires SortedByDistance(a) && SortedByDistance(b)
    requires forall i, j :: 0 <= i < |a| && 0 <= j < |b| ==> a[i].distance <= b[j].distance
    ensures SortedByDistance(a + b)
  {
    forall i, j | 0 <= i < j < |a + b| ensures (a + b)[i].distance <= (a + b)[j].distance {
      if j < |a| {
        assert (a + b)[i] == a[i] && (a + b)[j] == a[j];
      } else if i >= |a| {
        assert (a + b)[i] == b[i - |a|] && (a + b)[j] == b[j - |a|];
      } else {
        assert (a + b)[i] == a[i] && (a + b)[j] == b[j - |a|];
      }
    }
  }

  /** Splitting a sorted list where every row before is at most `x` and the next is farther. */
  lemma InsertPoint(s: seq<Located>, j: nat, x: Located)
    requires SortedByDistance(s) && j <= |s|
    requires forall k :: 0 <= k < j ==> s[k].distance <= x.distance
    requires j < |s| ==> x.distance < s[j].distance
    ensures SortedByDistance(s[..j] + [x]) && SortedByDistance(s[j..])
    ensures forall i, k :: 0 <= i < |s[..j] + [x]| && 0 <= k < |s[j..]| ==>
      (s[..j] + [x])[i].distance <= s[j..][k].distance
  {
    var before, after := s[..j] + [x], s[j..];
    forall i, k | 0 <= i < |before| && 0 <= k < |after|
      ensures before[i].distance <= after[k].distance
    {
      assert after[k] == s[j + k];
      assert x.distance <= s[j + k].distance;
      if i < j {
        assert before[i] == s[i];
      }
    }
  }

  /** One step of the sort: `x` goes after every row at most as far away. */
  method Insert(s: seq<Located>, x: Located) returns (r: seq<Located>)
    requires SortedByDistance(s)
    ensures SortedByDistance(r)
    ensures multiset(r) == multiset(s) + multiset{x}
  {
    var j := 0;
    while j < |s| && s[j].distance <= x.distance
      invariant 0 <= j <= |s|
      invariant forall k :: 0 <= k < j ==> s[k].distance <= x.distance
    {
      j := j + 1;
    }
    InsertPoint(s, j, x);
    SortedConcat(s[..j] + [x], s[j..]);
    r := s[..j] + [x] + s[j..];
    assert s == s[..j] + s[j..];
  }

  /** `sort_values('distance')`: the same rows, in non-decreasing distance. */
  method SortByDistance(s: seq<Located>) returns (r: seq<Located>)
    ensures SortedByDistance(r)
    ensures multiset(r) == multiset(s)
  {
    r := [];
    for i := 0 to |s|
      invariant SortedByDistance(r)
      invariant multiset(r) == multiset(s[..i])
    {
      PrefixSnoc(s, i);
      r := Insert(r, s[i]);
    }
    assert s[..|s|] == s;
  }

  function Min(a: int, b: int): int {
    if a <= b then a else b
  }

  /**
   * `if limit: centers = centers.head(limit)`: `None` and `0` keep every row; a positive
   * limit keeps that many leading rows; a negative one drops that many trailing rows.
   */
  function Head<T>(s: seq<T>, limit: Option<int>): (r: seq<T>)
    ensures |r| <= |s| && r == s[..|r|]
    ensures limit.None? || limit.value == 0 ==> r == s
    ensures limit.Some? && limit.value > 0 ==> |r| == Min(limit.value, |s|)
    ensures limit.Some? && limit.value < 0 ==> |r| == (if |s| + limit.value < 0 then 0 else |s| + limit.value)
  {
    if limit.None? || limit.value == 0 then s
    else
      var n := if limit.value > 0 then Min(limit.value, |s|)
               else if |s| + limit.value < 0 then 0 else |s| + limit.value;
      s[..n]
  }

  /** The leading rows of a sorted list are the nearest ones, and still sorted. */
  lemma HeadOfSorted(s: seq<Located>, limit: Option<int>)
    requires SortedByDistance(s)
    ensures SortedByDistance(Head(s, limit))
    ensures forall i, j :: 0 <= i < |Head(s, limit)| <= j < |s| ==> Head(s, limit)[i].distance <= s[j].distance
  {
  }

  /** `head` keeps a sub-multiset of the rows. */
  lemma HeadSubset<T>(s: seq<T>, limit: Option<int>)
    ensures multiset(Head(s, limit)) <= multiset(s)
  {
    var r := Head(s, limit);
    assert s == r + s[|r|..];
  }

  // ---------------------------------------------------------------------------
  // The reference result of `get_nearest_centers`
  // ---------------------------------------------------------------------------

  /** A row with the distance from the user and its open status at (`today`, `now`). */
  function Measure(c: Center, geodesic: (real, real, real, real) -> real, lat: real, lng: real, today: Day, now: MinuteOfDay): Located {
    Located(c, geodesic(lat, lng, c.lat, c.lng), OpenStatus(c.hours, today, now))
  }

  /** Whether a measured row survives the distance mask and, when asked, the open mask. */
  predicate Kept(x: Located, maxDistance: real, showOnlyOpen: bool) {
    x.distance <= maxDistance && (showOnlyOpen ==> x.isOpen)
  }

  /** The rows that survive both masks, measured, in table order. */
  function Candidates(rows: seq<Center>, geodesic: (real, real, real, real) -> real, lat: real, lng: real,
                      maxDistance: real, showOnlyOpen: bool, today: Day, now: MinuteOfDay): seq<Located>
    decreases |rows|
  {
    if rows == [] then []
    else
      var c := rows[|rows| - 1];
      var x := Measure(c, geodesic, lat, lng, today, now);
      Candidates(rows[..|rows| - 1], geodesic, lat, lng, maxDistance, showOnlyOpen, today, now) +
      (if Kept(x, maxDistance, showOnlyOpen) then [x] else [])
  }

  lemma CandidatesSnoc(rows: seq<Center>, i: nat, geodesic: (real, real, real, real) -> real, lat: real, lng: real,
                       maxDistance: real, showOnlyOpen: bool, today: Day, now: MinuteOfDay)
    requires i < |rows|
    ensures var x := Measure(rows[i], geodesic, lat, lng, today, now);
      Candidates(rows[..i + 1], geodesic, lat, lng, maxDistance, showOnlyOpen, today, now) ==
      Candidates(rows[..i], geodesic, lat, lng, maxDistance, showOnlyOpen, today, now) +
      (if Kept(x, maxDistance, showOnlyOpen) then [x] else [])
  {
    assert rows[..i + 1][..i] == rows[..i];
  }

  /**
   * Exactly the rows within `maxDistance` (and open, when `showOnlyOpen`) are candidates,
   * each as often as it occurs in the table, with its own distance and open status.
   */
  lemma {:induction false} CandidatesCount(rows: seq<Center>, geodesic: (real, real, real, real) -> real, lat: real, lng: real,
                                           maxDistance: real, showOnlyOpen: bool, today: Day, now: MinuteOfDay, x: Located)
    ensures multiset(Candidates(rows, geodesic, lat, lng, maxDistance, showOnlyOpen, today, now))[x] ==
      if x == Measure(x.center, geodesic, lat, lng, today, now) && Kept(x, maxDistance, showOnlyOpen)
      then multiset(rows)[x.center] else 0
    decreases |rows|
  {
    if rows != [] {
      var init, c := rows[..|rows| - 1], rows[|rows| - 1];
      assert rows == init + [c];
      var y := Measure(c, geodesic, lat, lng, today, now);
      var tail := if Kept(y, maxDistance, showOnlyOpen) then [y] else [];
      assert Candidates(rows, geodesic, lat, lng, maxDistance, showOnlyOpen, today, now) ==
        Candidates(init, geodesic, lat, lng, maxDistance, showOnlyOpen, today, now) + tail;
      CandidatesCount(init, geodesic, lat, lng, maxDistance, showOnlyOpen, today, now, x);
      MeasureCount(c, y, tail, geodesic, lat, lng, maxDistance, showOnlyOpen, today, now, x);
    }
  }

  /** The count of `x` among the rows one table row contributes. */
  lemma MeasureCount(c: Center, y: Located, tail: seq<Located>, geodesic: (real, real, real, real) -> real, lat: real, lng: real,
                     maxDistance: real, showOnlyOpen: bool, today: Day, now: MinuteOfDay, x: Located)
    requires y == Measure(c, geodesic, lat, lng, today, now)
    requires tail == if Kept(y, maxDistance, showOnlyOpen) then [y] else []
    ensures multiset(tail)[x] ==
      if x == Measure(x.center, geodesic, lat, lng, today, now) && Kept(x, maxDistance, showOnlyOpen)
      then multiset{c}[x.center] else 0
  {
    if x == y {
      assert x.center == c;
    } else if x.center == c {
      assert x != Measure(x.center, geodesic, lat, lng, today, now);
    }
  }

  /** Every candidate is within the radius, carries its own distance and status, and is a row of the table. */
  lemma {:induction false} CandidatesWithin(rows: seq<Center>, geodesic: (real, real, real, real) -> real, lat: real, lng: real,
                                            maxDistance: real, showOnlyOpen: bool, today: Day, now: MinuteOfDay)
    ensures forall x :: x in Candidates(rows, geodesic, lat, lng, maxDistance, showOnlyOpen, today, now) ==>
      x == Measure(x.center, geodesic, lat, lng, today, now) && Kept(x, maxDistance, showOnlyOpen) && x.center in rows
    decreases |rows|
  {
    if rows != [] {
      var init := rows[..|rows| - 1];
      CandidatesWithin(init, geodesic, lat, lng, maxDistance, showOnlyOpen, today, now);
      assert forall c :: c in init ==> c in rows;
    }
  }

  // ---------------------------------------------------------------------------
  // The table
  // ---------------------------------------------------------------------------

  /** The mask `centers['is_open']` at (`today`, `now`). */
  function OpenMask(today: Day, now: MinuteOfDay): Center -> bool {
    (c: Center) => OpenStatus(c.hours, today, now)
  }

  /** The mask `df['type'].isin(types)`. */
  function TypeMask(types: seq<string>): Center -> bool {
    (c: Center) => c.kind in types
  }

  /** What sorting and truncating the candidates keeps of them. */
  lemma NearestResult(rows: seq<Center>, cands: seq<Located>, ordered: seq<Located>, result: seq<Located>, limit: Option<int>,
                      geodesic: (real, real, real, real) -> real, lat: real, lng: real,
                      maxDistance: real, showOnlyOpen: bool, today: Day, now: MinuteOfDay)
    requires cands == Candidates(rows, geodesic, lat, lng, maxDistance, showOnlyOpen, today, now)
    requires SortedByDistance(ordered) && multiset(ordered) == multiset(cands)
    requires result == Head(ordered, limit)
    ensures SortedByDistance(result)
    ensures forall x :: x in result ==>
      x.center in rows && x == Measure(x.center, geodesic, lat, lng, today, now) && Kept(x, maxDistance, showOnlyOpen)
    ensures forall i, j :: 0 <= i < |result| <= j < |ordered| ==> result[i].distance <= ordered[j].distance
    ensures multiset(result) <= multiset(cands)
  {
    CandidatesWithin(rows, geodesic, lat, lng, maxDistance, showOnlyOpen, today, now);
    HeadOfSorted(ordered, limit);
    HeadSubset(ordered, limit);
    forall x | x in result
      ensures x.center in rows && x == Measure(x.center, geodesic, lat, lng, today, now) && Kept(x, maxDistance, showOnlyOpen)
    {
      assert x in multiset(result);
      assert x in multiset(cands);
    }
  }

  lemma OpenFilterSnoc(rows: seq<Center>, i: nat, today: Day, now: MinuteOfDay, isOpen: bool)
    requires i < |rows| && isOpen == OpenStatus(rows[i].hours, today, now)
    ensures Filter(rows[..i + 1], OpenMask(today, now)) ==
      Filter(rows[..i], OpenMask(today, now)) + (if isOpen then [rows[i]] else [])
  {
    FilterSnoc(rows, i, OpenMask(today, now));
  }

  class CoolingCenterData {
    /** The rows of `self.df` after loading. */
    var rows: seq<Center>

    /** `__init__` on rows already read from the CSV: every row's coordinates and features are rewritten. */
    constructor (raw: seq<RawRow>, parseFloat: string -> Option<real>)
      ensures |rows| == |raw|
      ensures forall i :: 0 <= i < |raw| ==> rows[i] == LoadRow(raw[i], parseFloat)
    {
      var loaded := [];
      for i := 0 to |raw|
        invariant |loaded| == i
        invariant forall k :: 0 <= k < i ==> loaded[k] == LoadRow(raw[k], parseFloat)
      {
        loaded := loaded + [LoadRow(raw[i], parseFloat)];
      }
      rows := loaded;
    }

    /**
     * `get_nearest_centers` with the clock passed in as `today` and `now` and the geodesic
     * distance in miles passed in as `geodesic`. Each row goes through the distance mask,
     * gets its open status and, when `showOnlyOpen`, goes through the open mask; the
     * survivors are sorted by distance and truncated as `head` does. `ordered` is the
     * sorted list before truncation.
     */
    method GetNearestCenters(geodesic: (real, real, real, real) -> real, lat: real, lng: real,
                             maxDistance: real, limit: Option<int>, showOnlyOpen: bool, today: Day, now: MinuteOfDay)
      returns (result: seq<Located>, ghost ordered: seq<Located>)
      ensures SortedByDistance(ordered)
      ensures multiset(ordered) == multiset(Candidates(rows, geodesic, lat, lng, maxDistance, showOnlyOpen, today, now))
      ensures result == Head(ordered, limit)
      ensures SortedByDistance(result)
      ensures forall x :: x in result ==>
        x.center in rows && x == Measure(x.center, geodesic, lat, lng, today, now) && Kept(x, maxDistance, showOnlyOpen)
      ensures forall i, j :: 0 <= i < |result| <= j < |ordered| ==> result[i].distance <= ordered[j].distance
      ensures multiset(result) <= multiset(Candidates(rows, geodesic, lat, lng, maxDistance, showOnlyOpen, today, now))
    {
      var centers: seq<Located> := [];
      for i := 0 to |rows|
        invariant centers == Candidates(rows[..i], geodesic, lat, lng, maxDistance, showOnlyOpen, today, now)
      {
        CandidatesSnoc(rows, i, geodesic, lat, lng, maxDistance, showOnlyOpen, today, now);
        var c := rows[i];
        var distance := geodesic(lat, lng, c.lat, c.lng);
        if distance <= maxDistance {
          var isOpen := IsCenterOpen(c.hours, today, now);
          if !showOnlyOpen || isOpen {
            centers := centers + [Located(c, distance, isOpen)];
          }
        }
      }
      assert rows[..|rows|] == rows;
      ghost var cands := centers;
      centers := SortByDistance(centers);
      ordered := centers;
      if limit.Some? && limit.value != 0 {
        centers := Head(centers, limit);
      }
      result := centers;
      NearestResult(rows, cands, ordered, result, limit, geodesic, lat, lng, maxDistance, showOnlyOpen, today, now);
    }

    /** `get_centers_by_type`: the rows whose type is one of `types`, in table order. */
    function CentersByType(types: seq<string>): (r: seq<Center>)
      reads this
      ensures forall c :: c in r <==> c in rows && c.kind in types
      ensures forall c :: multiset(r)[c] == if c.kind in types then multiset(rows)[c] else 0
    {
      var r := Filter(rows, TypeMask(types));
      forall c ensures multiset(r)[c] == if c.kind in types then multiset(rows)[c] else 0 {
        FilterCount(rows, TypeMask(types), c);
      }
      r
    }

    /** `get_open_centers` at (`today`, `now`): the rows whose hours read as open, in table order. */
    method GetOpenCenters(today: Day, now: MinuteOfDay) returns (r: seq<Center>)
      ensures r == Filter(rows, OpenMask(today, now))
    {
      r := [];
      for i := 0 to |rows|
        invariant r == Filter(rows[..i], OpenMask(today, now))
      {
        var isOpen := IsCenterOpen(rows[i].hours, today, now);
        OpenFilterSnoc(rows, i, today, now, isOpen);
        if isOpen {
          r := r + [rows[i]];
        }
      }
      assert rows[..|rows|] == rows;
    }
  }
}
