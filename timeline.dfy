/** The timeline projection (timeline.py): a snapshot of the bookings table
    and the date window become either one bar per plottable booking inside
    the window, or the reason nothing can be drawn. Times of day are whole
    seconds since midnight; the 0.25 h thin bar is 900 seconds. The figure
    itself (axes, colours, the "Today" marker) is not part of the model. */
module Timeline {
  import opened Common
  import opened Calendar
  import opened Table
  import PyValue
  import Strptime
  import Config

  /** The smallest and largest calendar days a pandas Timestamp can hold at
      midnight; other dates become NaT under errors="coerce". */
  const FirstTimestampDay := Date(1677, 9, 22)
  const LastTimestampDay := Date(2262, 4, 11)

  /** One drawn bar: the day, where it starts, how tall it is drawn, the trace
      name, and the hover metadata taken from the row as stored. */
  datatype Bar = Bar(
    date: Date, baseSecs: int, durationSecs: int, name: string,
    person: SqlValue, company: SqlValue, startText: SqlValue, endText: SqlValue,
    conferenceType: SqlValue, email: SqlValue)

  /** The figure-or-reason pair the function returns, one constructor per reason.
      ConferenceTypeMissing is the KeyError the bar loop raises when the
      snapshot has no conference_type column, a column the required set omits. */
  datatype Timeline =
    | EmptyDf
    | MissingColumns(missing: seq<string>)
    | AllRowsUnparsable(badCount: nat)
    | OutOfWindow(windowStart: Date, windowEnd: Date, minDate: Date, maxDate: Date)
    | Plotted(bars: seq<Bar>, rowsPlotted: nat, invalidDurations: nat)
    | ConferenceTypeMissing

  /** The "reason" entry of the info dictionary. */
  function Reason(t: Timeline): string {
    match t
    case EmptyDf => "empty_df"
    case MissingColumns(_) => "missing_columns"
    case AllRowsUnparsable(_) => "all_rows_unparsable"
    case OutOfWindow(_, _, _, _) => "out_of_window"
    case Plotted(_, _, _) => "ok"
    case ConferenceTypeMissing => "KeyError"
  }

  // ---------------------------------------------------------------------
  // Required columns, and the sorted list of the missing ones

  /** Code-point order on strings, as Python compares str. */
  predicate StrLess(a: string, b: string) {
    if a == [] then b != []
    else if b == [] then false
    else a[0] < b[0] || (a[0] == b[0] && StrLess(a[1..], b[1..]))
  }

  predicate StrictlySorted(names: seq<string>) {
    forall i, j :: 0 <= i < j < |names| ==> StrLess(names[i], names[j])
  }

  /** The seven columns the projection needs, listed in sorted order. */
  const RequiredSorted: seq<string> := [
    "affiliation", "booking_date", "company_name", "email", "end_time", "person_name", "start_time"
  ]

  /** sorted(required - set(df.columns)) */
  function MissingRequired(names: seq<string>, columns: seq<string>): (r: seq<string>)
    ensures forall i :: 0 <= i < |r| ==> r[i] in names && r[i] !in columns
    ensures forall i :: 0 <= i < |names| && names[i] !in columns ==> names[i] in r
  {
    if names == [] then []
    else (if names[0] in columns then [] else [names[0]]) + MissingRequired(names[1..], columns)
  }

  // ---------------------------------------------------------------------
  // Parsing the cells

  /** pd.to_datetime(booking_date, errors="coerce").dt.normalize() for the
      text add_booking stores: an ISO date YYYY-MM-DD that is a real day
      within the Timestamp range. Anything else is NaT. */
  function ParseDay(v: SqlValue): (r: Option<Date>)
    ensures r.Some? ==> ValidDate(r.value) && DateLe(FirstTimestampDay, r.value) && DateLe(r.value, LastTimestampDay)
  {
    if !v.Text? || |v.text| != 10 || v.text[4] != '-' || v.text[7] != '-' then None
    else
      var y, m, d := v.text[..4], v.text[5..7], v.text[8..];
      if !(AllDigits(y) && AllDigits(m) && AllDigits(d)) then None
      else
        var date := Date(DigitsValue(y), DigitsValue(m), DigitsValue(d));
        if ValidDate(date) && DateLe(FirstTimestampDay, date) && DateLe(date, LastTimestampDay) then Some(date)
        else None
  }

  /** _parse_hhmm_to_hours: "%H:%M:%S", falling back to "%H:%M", as seconds
      since midnight; NaN (None) when neither format matches the whole text. */
  function ParseClock(v: SqlValue): (r: Option<int>)
    ensures r.Some? ==> 0 <= r.value < 86400
  {
    if !v.Text? then None
    else
      match Strptime.ParseHMS(v.text)
      case Some(secs) => Some(secs)
      case None => Strptime.ParseHM(v.text)
  }

  /** A row that survived the parse mask: its day, its start and end, and the row. */
  datatype Parsed = Parsed(date: Date, startSecs: int, endSecs: int, row: map<string, SqlValue>)

  /** A cell of a required column; such a column is in every row of a
      well-formed snapshot that passed the column check. */
  function Get(row: map<string, SqlValue>, column: string): SqlValue {
    if column in row then row[column] else Null
  }

  /** The parse of one row, or None when mask_bad holds for it. */
  function ParseRow(row: map<string, SqlValue>): Option<Parsed> {
    var date :- ParseDay(Get(row, "booking_date"));
    var start :- ParseClock(Get(row, "start_time"));
    var end :- ParseClock(Get(row, "end_time"));
    Some(Parsed(date, start, end, row))
  }

  /** df[~mask_bad]: the rows that parse, in their order. */
  function ParseRows(rows: seq<map<string, SqlValue>>): (r: seq<Parsed>)
    ensures |r| <= |rows|
    ensures forall i :: 0 <= i < |r| ==> 0 <= r[i].startSecs < 86400 && 0 <= r[i].endSecs < 86400
  {
    if rows == [] then []
    else
      match ParseRow(rows[0])
      case Some(p) => [p] + ParseRows(rows[1..])
      case None => ParseRows(rows[1..])
  }

  /** len(df[mask_bad]) */
  function BadCount(rows: seq<map<string, SqlValue>>): nat {
    if rows == [] then 0
    else (if ParseRow(rows[0]).None? then 1 else 0) + BadCount(rows[1..])
  }

  // ---------------------------------------------------------------------
  // Durations, the window and the bars

  /** DurH_raw <= 0 */
  predicate InvalidDuration(p: Parsed) {
    p.endSecs - p.startSecs <= 0
  }

  /** int((df["DurH_raw"] <= 0).sum()) */
  function InvalidCount(ps: seq<Parsed>): nat {
    if ps == [] then 0
    else (if InvalidDuration(ps[0]) then 1 else 0) + InvalidCount(ps[1..])
  }

  /** The drawn height: the raw duration when positive, else the 15-minute thin bar. */
  function DrawnDuration(p: Parsed): (d: int)
    ensures 0 < d
    ensures d == p.endSecs - p.startSecs || d == 900
  {
    if InvalidDuration(p) then 900 else p.endSecs - p.startSecs
  }

  /** start_window <= DateOnly < end_window */
  predicate InWindow(p: Parsed, w: Config.Window) {
    DateLe(w.start, p.date) && DateLt(p.date, w.end)
  }

  /** df[in_window] */
  function WindowRows(ps: seq<Parsed>, w: Config.Window): (r: seq<Parsed>)
    ensures |r| <= |ps|
    ensures forall i :: 0 <= i < |r| ==> InWindow(r[i], w) && r[i] in ps
  {
    if ps == [] then []
    else (if InWindow(ps[0], w) then [ps[0]] else []) + WindowRows(ps[1..], w)
  }

  /** The bar fig.add_bar draws for one in-window row. */
  function MakeBar(p: Parsed): Bar {
    Bar(p.date, p.startSecs, DrawnDuration(p), Render(Get(p.row, "company_name")),
        Get(p.row, "person_name"), Get(p.row, "company_name"), Get(p.row, "start_time"),
        Get(p.row, "end_time"), Get(p.row, "conference_type"), Get(p.row, "email"))
  }

  function MakeBars(ps: seq<Parsed>): (bars: seq<Bar>)
    ensures |bars| == |ps|
    ensures forall i :: 0 <= i < |ps| ==> bars[i] == MakeBar(ps[i])
  {
    if ps == [] then [] else [MakeBar(ps[0])] + MakeBars(ps[1..])
  }

  // ---------------------------------------------------------------------
  // Positions of rows in the input

  /** The positions of the true entries of flags, in increasing order. */
  function TrueIndices(flags: seq<bool>): (r: seq<int>)
    ensures forall k :: 0 <= k < |r| ==> 0 <= r[k] < |flags| && flags[r[k]]
    ensures forall i :: 0 <= i < |flags| && flags[i] ==> i in r
    ensures forall a, b :: 0 <= a < b < |r| ==> r[a] < r[b]
  {
    if flags == [] then []
    else
      var rest := TrueIndices(flags[1..]);
      var r := if flags[0] then [0] + Shift(rest) else Shift(rest);
      PositionsConsSet(flags, rest, r);
      PositionsConsCover(flags, rest, r);
      PositionsConsAscend(flags, rest, r);
      r
  }

  /** Every position moved one place on. */
  function Shift(s: seq<int>): (r: seq<int>)
    ensures |r| == |s| && forall k :: 0 <= k < |s| ==> r[k] == s[k] + 1
  {
    seq(|s|, k requires 0 <= k < |s| => s[k] + 1)
  }

  /** The positions of the flags after the first, moved on by one, and the
      first position when its flag is set: each of them is a set flag. */
  lemma PositionsConsSet(flags: seq<bool>, rest: seq<int>, r: seq<int>)
    requires flags != []
    requires forall k :: 0 <= k < |rest| ==> 0 <= rest[k] < |flags| - 1 && flags[1..][rest[k]]
    requires flags[0] ==> r == [0] + Shift(rest)
    requires !flags[0] ==> r == Shift(rest)
    ensures forall k :: 0 <= k < |r| ==> 0 <= r[k] < |flags| && flags[r[k]]
  {
    var o := if flags[0] then 1 else 0;
    forall k | 0 <= k < |r|
      ensures 0 <= r[k] < |flags| && flags[r[k]]
    {
      if k >= o {
        assert r[k] == Shift(rest)[k - o] == rest[k - o] + 1;
        assert flags[1..][rest[k - o]] == flags[r[k]];
      }
    }
  }

  /** ... every set flag is among them ... */
  lemma PositionsConsCover(flags: seq<bool>, rest: seq<int>, r: seq<int>)
    requires flags != []
    requires forall i :: 0 <= i < |flags| - 1 && flags[1..][i] ==> i in rest
    requires flags[0] ==> r == [0] + Shift(rest)
    requires !flags[0] ==> r == Shift(rest)
    ensures forall i :: 0 <= i < |flags| && flags[i] ==> i in r
  {
    var o := if flags[0] then 1 else 0;
    forall i | 0 <= i < |flags| && flags[i]
      ensures i in r
    {
      if i == 0 {
        assert r[0] == 0;
      } else {
        assert flags[1..][i - 1];
        var k :| 0 <= k < |rest| && rest[k] == i - 1;
        assert r[k + o] == Shift(rest)[k] == i;
      }
    }
  }

  /** ... and they ascend. */
  lemma PositionsConsAscend(flags: seq<bool>, rest: seq<int>, r: seq<int>)
    requires flags != []
    requires forall k :: 0 <= k < |rest| ==> 0 <= rest[k]
    requires forall a, b :: 0 <= a < b < |rest| ==> rest[a] < rest[b]
    requires flags[0] ==> r == [0] + Shift(rest)
    requires !flags[0] ==> r == Shift(rest)
    ensures forall a, b :: 0 <= a < b < |r| ==> r[a] < r[b]
  {
    ShiftAscends(rest);
    if flags[0] {
      ZeroFirstAscends(Shift(rest), r);
    }
  }

  lemma ShiftAscends(rest: seq<int>)
    requires forall k :: 0 <= k < |rest| ==> 0 <= rest[k]
    requires forall a, b :: 0 <= a < b < |rest| ==> rest[a] < rest[b]
    ensures forall k :: 0 <= k < |Shift(rest)| ==> 0 < Shift(rest)[k]
    ensures forall a, b :: 0 <= a < b < |Shift(rest)| ==> Shift(rest)[a] < Shift(rest)[b]
  {
  }

  lemma ZeroFirstAscends(s: seq<int>, r: seq<int>)
    requires forall k :: 0 <= k < |s| ==> 0 < s[k]
    requires forall a, b :: 0 <= a < b < |s| ==> s[a] < s[b]
    requires r == [0] + s
    ensures forall a, b :: 0 <= a < b < |r| ==> r[a] < r[b]
  {
    forall a, b | 0 <= a < b < |r|
      ensures r[a] < r[b]
    {
      assert r[b] == s[b - 1];
      if a > 0 {
        assert r[a] == s[a - 1];
      }
    }
  }

  /** The row is drawn: it parses and its date is in the window. */
  predicate Shown(row: map<string, SqlValue>, w: Config.Window) {
    ParseRow(row).Some? && InWindow(ParseRow(row).value, w)
  }

  /** The row is counted in invalid_durations: it parses and its end is not after its start. */
  predicate CountedInvalid(row: map<string, SqlValue>) {
    ParseRow(row).Some? && InvalidDuration(ParseRow(row).value)
  }

  function ShownFlags(rows: seq<map<string, SqlValue>>, w: Config.Window): (f: seq<bool>)
    ensures |f| == |rows| && forall i :: 0 <= i < |rows| ==> f[i] == Shown(rows[i], w)
  {
    if rows == [] then [] else [Shown(rows[0], w)] + ShownFlags(rows[1..], w)
  }

  function InvalidFlags(rows: seq<map<string, SqlValue>>): (f: seq<bool>)
    ensures |f| == |rows| && forall i :: 0 <= i < |rows| ==> f[i] == CountedInvalid(rows[i])
  {
    if rows == [] then [] else [CountedInvalid(rows[0])] + InvalidFlags(rows[1..])
  }

  /** The input positions of the drawn rows, ascending. */
  function ShownIndices(rows: seq<map<string, SqlValue>>, w: Config.Window): (r: seq<int>)
    ensures forall k :: 0 <= k < |r| ==> 0 <= r[k] < |rows|
    ensures forall i :: 0 <= i < |rows| ==> (i in r <==> Shown(rows[i], w))
    ensures forall a, b :: 0 <= a < b < |r| ==> r[a] < r[b]
  {
    TrueIndices(ShownFlags(rows, w))
  }

  /** The input positions of the rows invalid_durations counts, ascending. */
  function InvalidIndices(rows: seq<map<string, SqlValue>>): (r: seq<int>)
    ensures forall k :: 0 <= k < |r| ==> 0 <= r[k] < |rows|
    ensures forall i :: 0 <= i < |rows| ==> (i in r <==> CountedInvalid(rows[i]))
    ensures forall a, b :: 0 <= a < b < |r| ==> r[a] < r[b]
  {
    TrueIndices(InvalidFlags(rows))
  }

  /** df["DateOnly"].min() */
  function MinDate(ps: seq<Parsed>): Date
    requires ps != []
  {
    if |ps| == 1 then ps[0].date
    else
      var rest := MinDate(ps[1..]);
      if DateLt(ps[0].date, rest) then ps[0].date else rest
  }

  /** df["DateOnly"].max() */
  function MaxDate(ps: seq<Parsed>): Date
    requires ps != []
  {
    if |ps| == 1 then ps[0].date
    else
      var rest := MaxDate(ps[1..]);
      if DateLt(rest, ps[0].date) then ps[0].date else rest
  }

  /** build_vertical_day_time_timeline on a snapshot (None when the caller
      passes no frame) and the window. */
  function BuildTimeline(df: Option<Frame>, w: Config.Window): Timeline {
    if df.None? || IsEmpty(df.value) then EmptyDf
    else
      var f := df.value;
      var missing := MissingRequired(RequiredSorted, f.columns);
      if missing != [] then MissingColumns(missing)
      else
        var parsed := ParseRows(f.rows);
        if parsed == [] then AllRowsUnparsable(BadCount(f.rows))
        else
          var shown := WindowRows(parsed, w);
          if shown == [] then OutOfWindow(w.start, w.end, MinDate(parsed), MaxDate(parsed))
          else if "conference_type" !in f.columns then ConferenceTypeMissing
          else Plotted(MakeBars(shown), |shown|, InvalidCount(parsed))
  }

  // ---------------------------------------------------------------------
  // Lemmas: the classification

  /** Nothing to draw from no frame or an empty frame, and only then. */
  lemma EmptyIffNoData(df: Option<Frame>, w: Config.Window)
    ensures BuildTimeline(df, w) == EmptyDf <==> df.None? || IsEmpty(df.value)
  {
  }

  /** The required names are listed in sorted order. */
  lemma RequiredSortedIsSorted()
    ensures StrictlySorted(RequiredSorted)
  {
    assert StrLess("mail", "nd_time");
    assert StrLess("email", "end_time");
    AdjacentSorted(RequiredSorted);
  }

  /** A list whose neighbours are in order is sorted. */
  lemma AdjacentSorted(names: seq<string>)
    requires forall i :: 0 <= i < |names| - 1 ==> StrLess(names[i], names[i + 1])
    ensures StrictlySorted(names)
  {
    forall i, j | 0 <= i < j < |names|
      ensures StrLess(names[i], names[j])
    {
      Chain(names, i, j);
    }
  }

  lemma {:induction false} Chain(names: seq<string>, i: nat, j: nat)
    requires forall k :: 0 <= k < |names| - 1 ==> StrLess(names[k], names[k + 1])
    requires i < j < |names|
    ensures StrLess(names[i], names[j])
    decreases j - i
  {
    if i + 1 < j {
      Chain(names, i + 1, j);
      StrLessTransitive(names[i], names[i + 1], names[j]);
    }
  }

  /** Keeping some names of a sorted list keeps it sorted. */
  lemma {:induction false} MissingKeepsOrder(names: seq<string>, columns: seq<string>)
    requires StrictlySorted(names)
    ensures StrictlySorted(MissingRequired(names, columns))
  {
    if names != [] {
      var rest := MissingRequired(names[1..], columns);
      assert StrictlySorted(names[1..]) by {
        forall i, j | 0 <= i < j < |names[1..]|
          ensures StrLess(names[1..][i], names[1..][j])
        {
          assert names[1..][i] == names[i + 1] && names[1..][j] == names[j + 1];
        }
      }
      MissingKeepsOrder(names[1..], columns);
      if names[0] !in columns {
        forall j | 0 <= j < |rest|
          ensures StrLess(names[0], rest[j])
        {
          var k :| 0 <= k < |names[1..]| && names[1..][k] == rest[j];
          assert names[k + 1] == rest[j];
        }
        SortedCons(names[0], rest);
        assert MissingRequired(names, columns) == [names[0]] + rest;
      } else {
        assert MissingRequired(names, columns) == rest;
      }
    }
  }

  /** A sorted list stays sorted behind a name below all its entries. */
  lemma SortedCons(x: string, rest: seq<string>)
    requires StrictlySorted(rest)
    requires forall j :: 0 <= j < |rest| ==> StrLess(x, rest[j])
    ensures StrictlySorted([x] + rest)
  {
    var r := [x] + rest;
    forall i, j | 0 <= i < j < |r|
      ensures StrLess(r[i], r[j])
    {
      assert r[j] == rest[j - 1];
      if i > 0 {
        assert r[i] == rest[i - 1];
      }
    }
  }

  /** The missing list of the sorted required names is sorted and holds
      exactly the required names the columns lack. */
  lemma MissingListExact(columns: seq<string>, m: seq<string>)
    requires m == MissingRequired(RequiredSorted, columns)
    ensures StrictlySorted(m)
    ensures forall n :: n in m <==> n in RequiredSorted && n !in columns
    ensures m != [] <==> exists i :: 0 <= i < |RequiredSorted| && RequiredSorted[i] !in columns
  {
    RequiredSortedIsSorted();
    MissingKeepsOrder(RequiredSorted, columns);
    if exists i :: 0 <= i < |RequiredSorted| && RequiredSorted[i] !in columns {
      var i :| 0 <= i < |RequiredSorted| && RequiredSorted[i] !in columns;
      assert RequiredSorted[i] in m;
    }
    if m != [] {
      assert m[0] in RequiredSorted;
      var i :| 0 <= i < |RequiredSorted| && RequiredSorted[i] == m[0];
    }
  }

  /** A missing_columns result lists exactly the required columns the snapshot
      lacks, sorted; and it is the result whenever a non-empty snapshot lacks one. */
  lemma MissingColumnsExact(df: Option<Frame>, w: Config.Window)
    ensures BuildTimeline(df, w).MissingColumns? <==>
              df.Some? && !IsEmpty(df.value)
              && exists i :: 0 <= i < |RequiredSorted| && RequiredSorted[i] !in df.value.columns
    ensures BuildTimeline(df, w).MissingColumns? ==>
              var m := BuildTimeline(df, w).missing;
              && StrictlySorted(m)
              && forall n :: n in m <==> n in RequiredSorted && n !in df.value.columns
  {
    if df.Some? && !IsEmpty(df.value) {
      MissingListExact(df.value.columns, MissingRequired(RequiredSorted, df.value.columns));
    }
  }

  /** Code-point order is transitive. */
  lemma {:induction false} StrLessTransitive(a: string, b: string, c: string)
    requires StrLess(a, b) && StrLess(b, c)
    ensures StrLess(a, c)
  {
    if a != [] && b != [] && c != [] && a[0] == b[0] && b[0] == c[0] {
      StrLessTransitive(a[1..], b[1..], c[1..]);
    }
  }

  /** The function never reports "zero_duration": non-positive durations are
      drawn as thin bars and counted, not classified. */
  lemma NeverZeroDuration(df: Option<Frame>, w: Config.Window)
    ensures Reason(BuildTimeline(df, w)) != "zero_duration"
    ensures Reason(BuildTimeline(df, w)) == "empty_df" <==> df.None? || IsEmpty(df.value)
  {
    ReasonNames(BuildTimeline(df, w));
    EmptyIffNoData(df, w);
  }

  /** The reason texts name the variants one to one, and none is "zero_duration". */
  lemma ReasonNames(t: Timeline)
    ensures Reason(t) != "zero_duration"
    ensures Reason(t) == "empty_df" <==> t == EmptyDf
  {
    match t
    case EmptyDf =>
    case MissingColumns(_) => assert Reason(t)[0] != 'e';
    case AllRowsUnparsable(_) => assert Reason(t)[0] != 'e';
    case OutOfWindow(_, _, _, _) => assert Reason(t)[0] != 'e';
    case Plotted(_, _, _) => assert Reason(t)[0] != 'e';
    case ConferenceTypeMissing => assert Reason(t)[0] != 'e';
  }

  // ---------------------------------------------------------------------
  // Lemmas: reading the cells

  /** A time stored as datetime.time text reads back under the first format. */
  lemma ClockTextRoundTrip(t: CivilTime)
    ensures ParseClock(Text(PyValue.TimeText(t))) == Some(SecondsOfDay(t))
  {
    Strptime.TimeTextRoundTrip(t);
  }

  /** "HH:MM" fails "%H:%M:%S" and is read by the fallback, with zero seconds. */
  lemma HourMinuteFallback(h: nat, m: nat)
    requires h <= 23 && m <= 59
    ensures var text := PyValue.ZeroPadTwo(h) + ":" + PyValue.ZeroPadTwo(m);
            Strptime.ParseHMS(text) == None && ParseClock(Text(text)) == Some(h * 3600 + m * 60)
  {
    var hh, mm := PyValue.ZeroPadTwo(h), PyValue.ZeroPadTwo(m);
    var tail := ":" + mm;
    assert hh + ":" + mm == hh + tail;
    Strptime.TwoDigitsRead(h, tail, 1);
    assert Strptime.Literal(tail, ':') == Some(mm);
    Strptime.TwoDigitsRead(m, [], 1);
    assert mm + [] == mm;
  }

  /** A date stored as datetime.date text reads back as that day when a
      Timestamp can hold it. */
  lemma DayTextRoundTrip(d: CivilDate)
    requires DateLe(FirstTimestampDay, d) && DateLe(d, LastTimestampDay)
    ensures ParseDay(Text(PyValue.DateText(d))) == Some(d)
  {
    var text := PyValue.DateText(d);
    var yyyy, mm, dd := PyValue.ZeroPadFour(d.year), PyValue.ZeroPadTwo(d.month), PyValue.ZeroPadTwo(d.day);
    PyValue.ZeroPadFourDigits(d.year);
    PyValue.ZeroPadTwoDigits(d.month);
    PyValue.ZeroPadTwoDigits(d.day);
    assert text == yyyy + "-" + mm + "-" + dd;
    assert text[..4] == yyyy && text[5..7] == mm && text[8..] == dd;
  }

  /** A row as add_booking stores a booking made through the form parses to
      its own day, start and end. */
  lemma StoredBookingParses(row: map<string, SqlValue>, d: CivilDate, start: CivilTime, end: CivilTime)
    requires DateLe(FirstTimestampDay, d) && DateLe(d, LastTimestampDay)
    requires Get(row, "booking_date") == Text(PyValue.DateText(d))
    requires Get(row, "start_time") == Text(PyValue.TimeText(start))
    requires Get(row, "end_time") == Text(PyValue.TimeText(end))
    ensures ParseRow(row) == Some(Parsed(d, SecondsOfDay(start), SecondsOfDay(end), row))
  {
    DayTextRoundTrip(d);
    ClockTextRoundTrip(start);
    ClockTextRoundTrip(end);
  }

  /** Every row is either kept or counted bad. */
  lemma {:induction false} ParsedPlusBad(rows: seq<map<string, SqlValue>>)
    ensures |ParseRows(rows)| + BadCount(rows) == |rows|
  {
    if rows != [] {
      ParsedPlusBad(rows[1..]);
    }
  }

  /** The kept rows are exactly the parses of the rows that parse. */
  lemma {:induction false} ParsedRowsExact(rows: seq<map<string, SqlValue>>, p: Parsed)
    ensures p in ParseRows(rows) <==> exists i :: 0 <= i < |rows| && ParseRow(rows[i]) == Some(p)
  {
    if rows != [] {
      ParsedRowsExact(rows[1..], p);
      match ParseRow(rows[0])
      case Some(q) => assert ParseRows(rows) == [q] + ParseRows(rows[1..]);
      case None => assert ParseRows(rows) == ParseRows(rows[1..]);
      if p in ParseRows(rows) && ParseRow(rows[0]) != Some(p) {
        assert p in ParseRows(rows[1..]);
        var j :| 0 <= j < |rows[1..]| && ParseRow(rows[1..][j]) == Some(p);
        assert rows[j + 1] == rows[1..][j];
      }
      if exists i :: 0 <= i < |rows| && ParseRow(rows[i]) == Some(p) {
        var i :| 0 <= i < |rows| && ParseRow(rows[i]) == Some(p);
        if i > 0 {
          assert rows[1..][i - 1] == rows[i];
        }
      }
    }
  }

  /** No row is kept exactly when every row fails to parse. */
  lemma {:induction false} NoneParsed(rows: seq<map<string, SqlValue>>)
    ensures ParseRows(rows) == [] <==> forall i :: 0 <= i < |rows| ==> ParseRow(rows[i]).None?
  {
    if rows != [] {
      NoneParsed(rows[1..]);
      match ParseRow(rows[0])
      case Some(p) =>
        assert ParseRows(rows) == [p] + ParseRows(rows[1..]);
      case None =>
        assert ParseRows(rows) == ParseRows(rows[1..]);
        assert forall i :: 1 <= i < |rows| ==> rows[i] == rows[1..][i - 1];
    }
  }

  /** all_rows_unparsable is reported exactly when a non-empty snapshot with
      every required column has no row that parses, and bad_count is then the
      number of rows. */
  lemma AllRowsUnparsableExact(df: Option<Frame>, w: Config.Window)
    ensures BuildTimeline(df, w).AllRowsUnparsable? <==>
              && df.Some? && !IsEmpty(df.value)
              && MissingRequired(RequiredSorted, df.value.columns) == []
              && forall i :: 0 <= i < |df.value.rows| ==> ParseRow(df.value.rows[i]).None?
    ensures BuildTimeline(df, w).AllRowsUnparsable? ==> BuildTimeline(df, w).badCount == |df.value.rows|
  {
    if df.Some? {
      NoneParsed(df.value.rows);
      ParsedPlusBad(df.value.rows);
    }
  }

  // ---------------------------------------------------------------------
  // Lemmas: the window, the bars and the counts

  /** The window keeps exactly the parsed rows inside it. */
  lemma {:induction false} WindowRowsExact(ps: seq<Parsed>, w: Config.Window, p: Parsed)
    ensures p in WindowRows(ps, w) <==> p in ps && InWindow(p, w)
  {
    if ps != [] {
      WindowRowsExact(ps[1..], w, p);
      if p in ps && p != ps[0] {
        var i :| 0 <= i < |ps| && ps[i] == p;
        assert ps[1..][i - 1] == p;
      }
    }
  }

  /** The window keeps the input order: filtering a concatenation filters each part. */
  lemma {:induction false} WindowRowsAppend(a: seq<Parsed>, b: seq<Parsed>, w: Config.Window)
    ensures WindowRows(a + b, w) == WindowRows(a, w) + WindowRows(b, w)
  {
    if a == [] {
      assert a + b == b;
    } else {
      var head := if InWindow(a[0], w) then [a[0]] else [];
      assert (a + b)[0] == a[0] && (a + b)[1..] == a[1..] + b;
      assert WindowRows(a + b, w) == head + WindowRows(a[1..] + b, w);
      WindowRowsAppend(a[1..], b, w);
      assert head + (WindowRows(a[1..], w) + WindowRows(b, w)) == (head + WindowRows(a[1..], w)) + WindowRows(b, w);
    }
  }

  /** A bar starts at the parsed start, is drawn from start to end when the
      duration is positive and 15 minutes tall otherwise, and its hover texts
      are the stored cells, which read back as the bar's start and end. */
  lemma BarOfRow(row: map<string, SqlValue>)
    requires ParseRow(row).Some?
    ensures var p := ParseRow(row).value; var b := MakeBar(p);
            && ParseDay(Get(row, "booking_date")) == Some(b.date)
            && b.startText == Get(row, "start_time") && b.endText == Get(row, "end_time")
            && ParseClock(b.startText) == Some(b.baseSecs)
            && 0 <= b.baseSecs < 86400
            && ParseClock(b.endText).Some?
            && var end := ParseClock(b.endText).value;
               (end > b.baseSecs ==> b.baseSecs + b.durationSecs == end)
               && (end <= b.baseSecs ==> b.durationSecs == 900)
  {
  }

  /** The min and max dates bound every date and are dates of the list. */
  lemma {:induction false} MinMaxBound(ps: seq<Parsed>)
    requires ps != []
    ensures forall i :: 0 <= i < |ps| ==> DateLe(MinDate(ps), ps[i].date) && DateLe(ps[i].date, MaxDate(ps))
    ensures exists i :: 0 <= i < |ps| && ps[i].date == MinDate(ps)
    ensures exists i :: 0 <= i < |ps| && ps[i].date == MaxDate(ps)
  {
    if |ps| == 1 {
      assert ps[0].date == MinDate(ps) && ps[0].date == MaxDate(ps);
    } else {
      MinMaxBound(ps[1..]);
      assert forall i :: 1 <= i < |ps| ==> ps[i] == ps[1..][i - 1];
      var j :| 0 <= j < |ps[1..]| && ps[1..][j].date == MinDate(ps[1..]);
      var k :| 0 <= k < |ps[1..]| && ps[1..][k].date == MaxDate(ps[1..]);
      if DateLt(ps[0].date, MinDate(ps[1..])) {
        assert ps[0].date == MinDate(ps);
      } else {
        assert ps[j + 1].date == MinDate(ps);
      }
      if DateLt(MaxDate(ps[1..]), ps[0].date) {
        assert ps[0].date == MaxDate(ps);
      } else {
        assert ps[k + 1].date == MaxDate(ps);
      }
    }
  }

  /** out_of_window carries the window, and the min and max over every row
      that parsed: each such row lies outside the window, between the two,
      and both are dates of such rows. */
  lemma OutOfWindowExact(df: Option<Frame>, w: Config.Window)
    ensures BuildTimeline(df, w).OutOfWindow? ==>
              var t := BuildTimeline(df, w);
              var rows := df.value.rows;
              && t.windowStart == w.start && t.windowEnd == w.end
              && DateLe(t.minDate, t.maxDate)
              && (forall i :: 0 <= i < |rows| && ParseRow(rows[i]).Some? ==>
                    !InWindow(ParseRow(rows[i]).value, w)
                    && DateLe(t.minDate, ParseRow(rows[i]).value.date)
                    && DateLe(ParseRow(rows[i]).value.date, t.maxDate))
              && (exists i :: 0 <= i < |rows| && ParseRow(rows[i]).Some? && ParseRow(rows[i]).value.date == t.minDate)
              && (exists i :: 0 <= i < |rows| && ParseRow(rows[i]).Some? && ParseRow(rows[i]).value.date == t.maxDate)
  {
    var t := BuildTimeline(df, w);
    if t.OutOfWindow? {
      var rows := df.value.rows;
      assert t.minDate == MinDate(ParseRows(rows)) && t.maxDate == MaxDate(ParseRows(rows));
      NothingInWindow(rows, w);
    }
  }

  /** When some rows parse and none lies in the window, every parsed row lies
      outside it, between the earliest and the latest parsed day, and both of
      those days are days of parsed rows. */
  lemma NothingInWindow(rows: seq<map<string, SqlValue>>, w: Config.Window)
    requires ParseRows(rows) != [] && WindowRows(ParseRows(rows), w) == []
    ensures var ps := ParseRows(rows);
              && DateLe(MinDate(ps), MaxDate(ps))
              && (forall i :: 0 <= i < |rows| && ParseRow(rows[i]).Some? ==>
                    !InWindow(ParseRow(rows[i]).value, w)
                    && DateLe(MinDate(ps), ParseRow(rows[i]).value.date)
                    && DateLe(ParseRow(rows[i]).value.date, MaxDate(ps)))
              && (exists i :: 0 <= i < |rows| && ParseRow(rows[i]).Some? && ParseRow(rows[i]).value.date == MinDate(ps))
              && (exists i :: 0 <= i < |rows| && ParseRow(rows[i]).Some? && ParseRow(rows[i]).value.date == MaxDate(ps))
  {
    var ps := ParseRows(rows);
    MinMaxBound(ps);
    forall i | 0 <= i < |rows| && ParseRow(rows[i]).Some?
      ensures ParseRow(rows[i]).value in ps
    {
      ParsedRowsExact(rows, ParseRow(rows[i]).value);
    }
    forall p | p in ps
      ensures !InWindow(p, w)
    {
      WindowRowsExact(ps, w, p);
    }
    var j :| 0 <= j < |ps| && ps[j].date == MinDate(ps);
    var k :| 0 <= k < |ps| && ps[k].date == MaxDate(ps);
    ParsedRowsExact(rows, ps[j]);
    ParsedRowsExact(rows, ps[k]);
  }

  /** On "ok": one bar per in-window row that parses and no other, a positive
      count equal to the number of bars, and an invalid count no larger than
      the number of parsed rows. */
  lemma PlottedExact(df: Option<Frame>, w: Config.Window)
    ensures BuildTimeline(df, w).Plotted? ==>
              var t := BuildTimeline(df, w);
              var rows := df.value.rows;
              && t.rowsPlotted == |t.bars| > 0
              && t.invalidDurations <= |rows| - BadCount(rows)
              && (forall i :: 0 <= i < |rows| && ParseRow(rows[i]).Some? && InWindow(ParseRow(rows[i]).value, w) ==>
                    MakeBar(ParseRow(rows[i]).value) in t.bars)
              && (forall k :: 0 <= k < |t.bars| ==>
                    exists i :: 0 <= i < |rows| && ParseRow(rows[i]).Some? && InWindow(ParseRow(rows[i]).value, w)
                      && t.bars[k] == MakeBar(ParseRow(rows[i]).value))
              && PlottedInInputOrder(rows, w, t.bars, t.rowsPlotted, t.invalidDurations)
  {
    if BuildTimeline(df, w).Plotted? {
      PlottedShape(df, w);
      PlottedOfRows(df.value.rows, w, BuildTimeline(df, w));
    }
  }

  /** A plotted result is built from the drawn rows and the parsed rows. */
  lemma PlottedShape(df: Option<Frame>, w: Config.Window)
    requires BuildTimeline(df, w).Plotted?
    ensures df.Some? && WindowRows(ParseRows(df.value.rows), w) != []
    ensures var ps := ParseRows(df.value.rows);
            BuildTimeline(df, w) == Plotted(MakeBars(WindowRows(ps, w)), |WindowRows(ps, w)|, InvalidCount(ps))
  {
  }

  /** What the plotted result says about the rows it was drawn from. */
  lemma PlottedOfRows(rows: seq<map<string, SqlValue>>, w: Config.Window, t: Timeline)
    requires WindowRows(ParseRows(rows), w) != []
    requires t == Plotted(MakeBars(WindowRows(ParseRows(rows), w)), |WindowRows(ParseRows(rows), w)|,
                          InvalidCount(ParseRows(rows)))
    ensures t.rowsPlotted == |t.bars| > 0
            && t.invalidDurations <= |rows| - BadCount(rows)
            && (forall i :: 0 <= i < |rows| && ParseRow(rows[i]).Some? && InWindow(ParseRow(rows[i]).value, w) ==>
                  MakeBar(ParseRow(rows[i]).value) in t.bars)
            && (forall k :: 0 <= k < |t.bars| ==>
                  exists i :: 0 <= i < |rows| && ParseRow(rows[i]).Some? && InWindow(ParseRow(rows[i]).value, w)
                    && t.bars[k] == MakeBar(ParseRow(rows[i]).value))
            && PlottedInInputOrder(rows, w, t.bars, t.rowsPlotted, t.invalidDurations)
  {
    ParsedPlusBad(rows);
    InvalidCountBound(ParseRows(rows));
    BarsOfRows(rows, w, t.bars);
    BarsInInputOrder(rows, w, t.bars, t.rowsPlotted, t.invalidDurations);
  }

  /** The bars are those of the drawn rows, one per drawn row and in input
      order; rows_plotted counts the drawn rows and invalid_durations counts
      every parsed row whose end is not after its start. */
  predicate PlottedInInputOrder(rows: seq<map<string, SqlValue>>, w: Config.Window,
                                bars: seq<Bar>, plotted: int, invalid: int)
  {
    var idx := ShownIndices(rows, w);
    && plotted == |idx| == |bars|
    && (forall k :: 0 <= k < |idx| ==>
          0 <= idx[k] < |rows| && ParseRow(rows[idx[k]]).Some?
          && bars[k] == MakeBar(ParseRow(rows[idx[k]]).value))
    && invalid == |InvalidIndices(rows)|
  }

  /** The drawn rows, read in input order, are the kept and windowed parses. */
  lemma BarsInInputOrder(rows: seq<map<string, SqlValue>>, w: Config.Window,
                         bars: seq<Bar>, plotted: int, invalid: int)
    requires bars == MakeBars(WindowRows(ParseRows(rows), w))
    requires plotted == |WindowRows(ParseRows(rows), w)|
    requires invalid == InvalidCount(ParseRows(rows))
    ensures PlottedInInputOrder(rows, w, bars, plotted, invalid)
    ensures var idx := ShownIndices(rows, w);
            && (forall i :: 0 <= i < |rows| ==> (i in idx <==> Shown(rows[i], w)))
            && (forall a, b :: 0 <= a < b < |idx| ==> idx[a] < idx[b])
    ensures forall i :: 0 <= i < |rows| ==> (i in InvalidIndices(rows) <==> CountedInvalid(rows[i]))
  {
    ShownRowsInOrder(rows, w);
    InvalidIndicesCount(rows);
  }

  /** Dropping the first row drops its parse, if drawn, from the front of the drawn parses. */
  lemma ShownStep(rows: seq<map<string, SqlValue>>, w: Config.Window)
    requires rows != []
    ensures WindowRows(ParseRows(rows), w)
            == if Shown(rows[0], w) then [ParseRow(rows[0]).value] + WindowRows(ParseRows(rows[1..]), w)
               else WindowRows(ParseRows(rows[1..]), w)
  {
    match ParseRow(rows[0])
    case Some(p) =>
      assert ParseRows(rows) == [p] + ParseRows(rows[1..]);
      WindowRowsAppend([p], ParseRows(rows[1..]), w);
      assert [p][1..] == [];
    case None =>
      assert ParseRows(rows) == ParseRows(rows[1..]);
  }

  /** The drawn positions of a snapshot: the first row's, when it is drawn,
      then those of the remaining rows moved on by one. */
  lemma ShownIndicesStep(rows: seq<map<string, SqlValue>>, w: Config.Window)
    requires rows != []
    ensures ShownIndices(rows, w)
            == if Shown(rows[0], w) then [0] + Shift(ShownIndices(rows[1..], w))
               else Shift(ShownIndices(rows[1..], w))
  {
    assert ShownFlags(rows, w)[1..] == ShownFlags(rows[1..], w);
  }

  /** The k-th drawn parse comes from the row at the k-th drawn position. */
  lemma {:induction false} ShownRowsInOrder(rows: seq<map<string, SqlValue>>, w: Config.Window)
    ensures var idx := ShownIndices(rows, w);
            var shown := WindowRows(ParseRows(rows), w);
            && |idx| == |shown|
            && forall k :: 0 <= k < |idx| ==> 0 <= idx[k] < |rows| && ParseRow(rows[idx[k]]) == Some(shown[k])
  {
    if rows != [] {
      ShownRowsInOrder(rows[1..], w);
      ShownStep(rows, w);
      ShownIndicesStep(rows, w);
      var rest := ShownIndices(rows[1..], w);
      var restShown := WindowRows(ParseRows(rows[1..]), w);
      if Shown(rows[0], w) {
        AlignFirst(ParseRow, rows, rest, restShown, [0] + Shift(rest), [ParseRow(rows[0]).value] + restShown);
      } else {
        AlignRest(ParseRow, rows, rest, restShown, Shift(rest), restShown);
      }
    }
  }

  /** Positions and parses aligned on the rows after the first stay aligned,
      one place on, on the whole of the rows ... */
  lemma AlignRest<R, P>(parse: R -> Option<P>, rows: seq<R>, rest: seq<int>, restShown: seq<P>,
                        idx: seq<int>, shown: seq<P>)
    requires rows != []
    requires |rest| == |restShown|
    requires forall k :: 0 <= k < |rest| ==>
               0 <= rest[k] < |rows| - 1 && parse(rows[1..][rest[k]]) == Some(restShown[k])
    requires idx == Shift(rest) && shown == restShown
    ensures |idx| == |shown|
    ensures forall k :: 0 <= k < |idx| ==> 0 <= idx[k] < |rows| && parse(rows[idx[k]]) == Some(shown[k])
  {
    forall k | 0 <= k < |idx|
      ensures 0 <= idx[k] < |rows| && parse(rows[idx[k]]) == Some(shown[k])
    {
      assert rows[idx[k]] == rows[1..][rest[k]];
    }
  }

  /** ... and putting the drawn first row in front keeps them aligned. */
  lemma AlignFirst<R, P>(parse: R -> Option<P>, rows: seq<R>, rest: seq<int>, restShown: seq<P>,
                         idx: seq<int>, shown: seq<P>)
    requires rows != [] && parse(rows[0]).Some?
    requires |rest| == |restShown|
    requires forall k :: 0 <= k < |rest| ==>
               0 <= rest[k] < |rows| - 1 && parse(rows[1..][rest[k]]) == Some(restShown[k])
    requires idx == [0] + Shift(rest) && shown == [parse(rows[0]).value] + restShown
    ensures |idx| == |shown|
    ensures forall k :: 0 <= k < |idx| ==> 0 <= idx[k] < |rows| && parse(rows[idx[k]]) == Some(shown[k])
  {
    AlignRest(parse, rows, rest, restShown, Shift(rest), restShown);
    forall k | 0 <= k < |idx|
      ensures 0 <= idx[k] < |rows| && parse(rows[idx[k]]) == Some(shown[k])
    {
      if k > 0 {
        assert idx[k] == Shift(rest)[k - 1];
        assert shown[k] == restShown[k - 1];
      }
    }
  }

  /** invalid_durations is the number of rows that parse with a non-positive duration. */
  lemma {:induction false} InvalidIndicesCount(rows: seq<map<string, SqlValue>>)
    ensures |InvalidIndices(rows)| == InvalidCount(ParseRows(rows))
  {
    if rows != [] {
      InvalidIndicesCount(rows[1..]);
      assert InvalidFlags(rows)[1..] == InvalidFlags(rows[1..]);
      match ParseRow(rows[0])
      case Some(p) =>
        assert ParseRows(rows) == [p] + ParseRows(rows[1..]);
        assert ([p] + ParseRows(rows[1..]))[1..] == ParseRows(rows[1..]);
      case None =>
        assert ParseRows(rows) == ParseRows(rows[1..]);
    }
  }

  /** The bars drawn for a snapshot: one per in-window row that parses, and
      each of them the bar of such a row. */
  lemma BarsOfRows(rows: seq<map<string, SqlValue>>, w: Config.Window, bars: seq<Bar>)
    requires bars == MakeBars(WindowRows(ParseRows(rows), w))
    ensures forall i :: 0 <= i < |rows| && ParseRow(rows[i]).Some? && InWindow(ParseRow(rows[i]).value, w) ==>
              MakeBar(ParseRow(rows[i]).value) in bars
    ensures forall k :: 0 <= k < |bars| ==>
              exists i :: 0 <= i < |rows| && ParseRow(rows[i]).Some? && InWindow(ParseRow(rows[i]).value, w)
                && bars[k] == MakeBar(ParseRow(rows[i]).value)
  {
    var ps := ParseRows(rows);
    var shown := WindowRows(ps, w);
    forall i | 0 <= i < |rows| && ParseRow(rows[i]).Some? && InWindow(ParseRow(rows[i]).value, w)
      ensures MakeBar(ParseRow(rows[i]).value) in bars
    {
      var p := ParseRow(rows[i]).value;
      ParsedRowsExact(rows, p);
      WindowRowsExact(ps, w, p);
      var j :| 0 <= j < |shown| && shown[j] == p;
      assert bars[j] == MakeBar(p);
    }
    forall k | 0 <= k < |bars|
      ensures exists i :: 0 <= i < |rows| && ParseRow(rows[i]).Some? && InWindow(ParseRow(rows[i]).value, w)
                && bars[k] == MakeBar(ParseRow(rows[i]).value)
    {
      var p := shown[k];
      WindowRowsExact(ps, w, p);
      ParsedRowsExact(rows, p);
      var i :| 0 <= i < |rows| && ParseRow(rows[i]) == Some(p);
      assert bars[k] == MakeBar(ParseRow(rows[i]).value);
    }
  }

  /** The invalid count is at most the number of rows counted. */
  lemma {:induction false} InvalidCountBound(ps: seq<Parsed>)
    ensures InvalidCount(ps) <= |ps|
    ensures InvalidCount(ps) == 0 <==> forall i :: 0 <= i < |ps| ==> !InvalidDuration(ps[i])
  {
    if ps != [] {
      InvalidCountBound(ps[1..]);
      assert forall i :: 1 <= i < |ps| ==> ps[i] == ps[1..][i - 1];
    }
  }

  /** invalid_durations is counted before the window filter: it covers the
      in-window rows and also every invalid row the window drops. */
  lemma {:induction false} InvalidCountIncludesOutside(ps: seq<Parsed>, w: Config.Window)
    ensures InvalidCount(WindowRows(ps, w)) <= InvalidCount(ps)
    ensures (exists i :: 0 <= i < |ps| && InvalidDuration(ps[i]) && !InWindow(ps[i], w)) ==>
              InvalidCount(WindowRows(ps, w)) < InvalidCount(ps)
  {
    if ps != [] {
      InvalidCountIncludesOutside(ps[1..], w);
      var rest := WindowRows(ps[1..], w);
      if InWindow(ps[0], w) {
        assert ([ps[0]] + rest)[1..] == rest;
      } else {
        assert [] + rest == rest;
      }
      if exists i :: 0 <= i < |ps| && InvalidDuration(ps[i]) && !InWindow(ps[i], w) {
        var i :| 0 <= i < |ps| && InvalidDuration(ps[i]) && !InWindow(ps[i], w);
        if i > 0 {
          assert ps[1..][i - 1] == ps[i];
        }
      }
    }
  }
}
