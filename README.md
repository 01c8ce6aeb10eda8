# Conference room booking dashboard — a Dafny model

The dashboard books one shared conference room. A booking is a date, a
start and an end time, a conference type, the person, their company, their
affiliation and an email address, stored as one row of a SQLite table named
`bookings`. The core is four Python files:

- `db.py` creates the table or migrates an older one (adding missing
  columns with their defaults), inserts bookings, reads the whole table as a
  DataFrame, and checks a candidate booking for a clash with the bookings
  already stored on the same date. Intervals clash when they overlap
  strictly, so two bookings that only touch are fine.
- `timeline.py` turns the DataFrame into a day-by-time chart. It classifies
  the input (no data, missing columns, nothing parseable, nothing in the
  window, or plotted), parses times as `HH:MM:SS` or `HH:MM`, draws a
  booking whose end is not after its start as a 15-minute bar and counts it,
  and keeps only the dates of the three-month window.
- `config.py` fixes that window: from the first of last month up to, but
  not including, the first of the month after next.
- `ui.py` validates the booking form on submit and reports missing fields in
  form order. It then runs the conflict check, inserts the booking when
  there is no clash, and sets the success message.

## How the model is built

| file | module | what it holds |
|---|---|---|
| `common.dfy` | `Common` | Option and Result, ASCII decimal digits, `str()` of an integer |
| `calendar.dfy` | `Calendar` | Dates, leap years, and the order of dates and instants |
| `pyvalue.dfy` | `PyValue` | The Python values a widget or a default can hold; truthiness, `str()`, `str.strip()` |
| `strptime.dfy` | `Strptime` | How `strptime` reads `%Y-%m-%d %H:%M:%S`, `%H:%M:%S` and `%H:%M`, with CPython's lenient field widths |
| `table.dfy` | `Table` | Stored cells, the DataFrame snapshot, and how a cell renders in an f-string |
| `conflict.dfy` | `Conflict` | `check_conflict` on a snapshot, with its KeyError and ValueError paths |
| `schema.dfy` | `Schema` | `REQUIRED_COLUMNS`; the DEFAULT literal `_add_column` writes, and how SQLite reads it back |
| `db.dfy` | `Db` | See below |
| `config.dfy` | `Config` | The timeline window as a function of today's date |
| `timeline.dfy` | `Timeline` | The classification, parse, clamp and window steps of the chart builder, as one function `BuildTimeline` |
| `ui.dfy` | `Ui` | See below |

`db.dfy` holds the table as a `Store` value: its columns, its rows in
rowid order and the AUTOINCREMENT counter. It has specification functions
for CREATE, ALTER, INSERT and SELECT. It also has the `BookingStore` class,
whose methods update those fields in place and are proved against the
functions.

In `ui.dfy`:

- `CollectMissing` is the loop that builds the missing-field list.
- `Session.Submit` is the submit branch, over a `BookingStore`.
- The lemmas prove what an accepted, rejected or conflicting submission
  leaves behind.

Integers are unbounded. Time of day is a whole number of seconds, so the
source's fractional hours are exact here and its 0.25-hour bar is 900
seconds. Today's date is a parameter of the window function.

Notes on the code's behaviour:

- An empty snapshot is reported with the reason `empty_df`.
- No `zero_duration` reason is ever produced: bars with a non-positive
  duration are drawn thin and counted instead.
- A freshly created table declares `conference_type` with no default.
  Only a migrated table gets the `''` default.
- The chart's required columns omit `conference_type`. A snapshot that
  lacks it, but has rows in the window, therefore raises `KeyError` in the
  bar loop; the model returns `ConferenceTypeMissing` for it.

## Model

| member | source | states |
|---|---|---|
| Common.NatToDecimal | db.py:29-30 | `str()` of a natural number is a non-empty run of digits, with no leading zero, whose value is the number |
| Common.IntToDecimal | db.py:29-30 | `str()` of an integer starts with a digit exactly when it is non-negative, and with `-` exactly when it is negative |
| Calendar.DaysInMonth | db.py:131-132 | A month has 28 to 31 days; it has 29 exactly for February of a leap year, which is the range strptime enforces on the day field |
| Calendar.DateOrderIsLexicographic | timeline.py:72 | On valid dates the numeric date key orders by year, then month, then day, and equal keys mean equal dates, as datetime and Timestamp comparison do |
| Calendar.SameDayOrder | db.py:141 | Two instants on one date compare as their times of day |
| Calendar.OnOrAfterMonthStart | timeline.py:72 | A date is on or after the first of a month exactly when its month is not earlier than that month |
| PyValue.ZeroPadTwoDigits | db.py:81-83 | The two-digit field of `str(date)`/`str(time)` is two digits whose value is the field |
| PyValue.ZeroPadFourDigits | db.py:81-83 | The four-digit year of `str(date)` is four digits whose value is the year |
| PyValue.StrEmptyOnlyForEmptyString | db.py:81-88 | `str(v)` is empty exactly when v is the empty string: None gives "None", and dates and times are never empty |
| PyValue.StripStartShape | ui.py:51-58 | Stripping the front removes exactly a maximal leading run of whitespace |
| PyValue.StripEndShape | ui.py:51-58 | Stripping the back removes exactly a maximal trailing run of whitespace |
| PyValue.StripEmptyIffAllSpace | ui.py:51-58 | `s.strip()` is empty exactly when every character of s is whitespace |
| Strptime.ParseHMS | timeline.py:11 | `%H:%M:%S` on the whole text yields a time of day in [0, 86400) seconds |
| Strptime.ParseHM | timeline.py:12 | The `%H:%M` fallback yields a whole minute in [0, 86400) seconds |
| Strptime.ParseDateTime | db.py:131-132 | `%Y-%m-%d %H:%M:%S` yields only valid calendar dates and in-range times |
| Strptime.NumberReads | db.py:131-132 | A numeric field reads exactly the digits in front of the next non-digit, and leaves the rest |
| Strptime.TimeTextRoundTrip | db.py:131-132 | `str(time)` read back under `%H:%M:%S` gives the same time of day |
| Strptime.ClockTextReads | db.py:131-132 | Any `HH:MM:SS` text with in-range digit pairs reads as the time it spells |
| Strptime.DateTextReads | db.py:131-132 | `str(date)` followed by a non-digit reads back under `%Y-%m-%d` as the same date |
| Strptime.DateTimeTextRoundTrip | db.py:131-132 | `f"{date} {time}"` built from widget values reads back as that date and time, so the candidate never raises |
| Conflict.Overlaps | db.py:141 | Two bookings clash when each starts strictly before the other ends; characterised by OverlapIsSymmetric, TouchingIntervalsDoNotOverlap and InvertedCandidateMissesInside |
| Conflict.CheckConflictOn | db.py:123-147 | check_conflict on a snapshot: no conflict for an empty snapshot or no row on the date, KeyError without a date column, ValueError for an unparseable candidate, otherwise the first clash; characterised by CheckFrame, ScanConflictIsFirstOverlap, ScanNoConflictIsAllClear, NoSameDayRowNoConflict, ConflictNamesRow and NoConflictClearsSameDay |
| Conflict.Instant | db.py:131-132 | The candidate instant fails exactly when strptime rejects the date-and-time text, and the failure is the error kind ValueError; the rejected text is the payload the model attaches to it |
| Conflict.SameDay | db.py:127 | The same-day filter keeps only rows whose stored date text equals the candidate's |
| Conflict.CheckFrame | db.py:123-147 | The imperative check returns exactly the value of `CheckConflictOn` |
| Conflict.ScanRows | db.py:134-147 | The row loop returns exactly the value of `Scan`: the first overlap, the first error, or no conflict |
| Conflict.OverlapIsSymmetric | db.py:141 | The strict-overlap test does not depend on which interval is the candidate |
| Conflict.TouchingIntervalsDoNotOverlap | db.py:141 | Back-to-back bookings, where one ends as the other starts, do not clash |
| Conflict.InvertedCandidateMissesInside | db.py:141 | A candidate whose end is not after its start is not checked for that; it misses any booking lying within its reversed span |
| Conflict.ScanConflictIsFirstOverlap | db.py:134-146 | The loop reports a conflict with given details exactly when some row overlaps with those details and every earlier row parsed and was clear |
| Conflict.ScanConflictFound | db.py:134-146 | A reported conflict comes from such a first overlapping row |
| Conflict.FirstOverlapReported | db.py:134-146 | Such a first overlapping row is what the loop reports |
| Conflict.ScanNoConflictIsAllClear | db.py:134-147 | The loop answers no conflict exactly when every row parses and none overlaps |
| Conflict.SameDayMembers | db.py:127 | A row is in the same-day selection exactly when it is in the snapshot and on the candidate's date |
| Conflict.SameDayEmpty | db.py:128-129 | The selection is empty exactly when no row is on the candidate's date |
| Conflict.NoSameDayRowNoConflict | db.py:125-129 | An empty snapshot, or one with no row on the date, gives no conflict for any time texts, even unparseable ones |
| Conflict.ConflictNamesRow | db.py:141-146 | A reported conflict names a stored row on the same date that overlaps the candidate, the first such row in storage order: every same-date row stored before it was read and is clear; both candidate times parsed |
| Conflict.NoConflictClearsSameDay | db.py:131-147 | After a no-conflict answer on a snapshot with a date column, every stored row on that date parses and is clear of the candidate |
| Conflict.AppendClearKeepsNoDoubleBooking | db.py:141 | Appending a row that is clear of every same-date row keeps same-date bookings pairwise non-overlapping |
| Conflict.WidgetCandidateParses | db.py:131-132 | Date and time widget values always form a candidate that parses to that date and time |
| Schema.DefaultLiteral | db.py:24-36 | The DEFAULT clause `_add_column` writes: none for None, `str()` for int and bool, a quoted literal for text; characterised by DefaultLiteralRoundTrip and the three literal round trips |
| Schema.RequiredNamesDistinct | db.py:7-16 | The required column names are pairwise distinct |
| Schema.QuotedRoundTrip | db.py:32-33 | Doubling quotes and closing the literal reads back as the original text |
| Schema.DefaultLiteralRoundTrip | db.py:24-36 | Only a None default omits the DEFAULT clause; every written literal reads back as the value declared for the column |
| Schema.IntLiteralRoundTrip | db.py:29-30 | An int default's literal reads back as that integer |
| Schema.BoolLiteralRoundTrip | db.py:29-30 | A bool default (an int in Python) writes True/False, which SQLite reads as 1/0 |
| Schema.TextLiteralRoundTrip | db.py:31-33 | A quoted text default, with embedded quotes doubled, reads back as its text |
| Schema.QuotingIsInjective | db.py:32 | Distinct texts are quoted differently |
| Db.BookingStore.CreateIfMissing | db.py:43-57 | CREATE TABLE IF NOT EXISTS leaves an existing table as it is, or creates the full shape with no rows |
| Db.BookingStore.AddColumn | db.py:24-36 | ALTER TABLE ADD COLUMN appends the column and gives every existing row its default |
| Db.BookingStore.InitDb | db.py:39-67 | The method's new state is `InitDbSpec` of the old one and stays valid |
| Db.BookingStore.MigrateColumn | db.py:61-63 | One step of the loop adds the required column when it is absent from the names read before the loop |
| Db.BookingStore.AddBooking | db.py:70-111 | Coerces the arguments and inserts; on success the state is the insert's result, on failure it is unchanged and the error is returned |
| Db.BookingStore.InsertBooking | db.py:92-108 | The INSERT either appends the row with the next rowid or fails with no change |
| Db.BookingStore.CheckConflict | db.py:123-147 | Returns the conflict verdict computed on the current snapshot |
| Db.InitDbSpec | db.py:39-67 | init_db as a state change: create the table if needed, then add the required columns it lacked; characterised by InitDbKeepsValid, InitDbHasAllColumns, InitDbIsAdditive, InitDbOnFreshFile and InitDbIsIdempotent |
| Db.Insert | db.py:92-108 | The INSERT: no such table, no such column, database full, or the store with one more row under the next rowid; characterised by InsertFailures, InsertKeepsValid and InsertThenRead |
| Db.Snapshot | db.py:117 | SELECT * as a DataFrame: the table's columns and every row in rowid order with its id; characterised by SnapshotWellFormed and InsertThenRead |
| Db.GetBookings | db.py:114-120 | get_bookings fails with no such table when there is no table and otherwise returns the snapshot; characterised by CheckConflictReadsSnapshot |
| Db.AddColumns | db.py:61-63 | Adding columns in order appends them and gives every existing row each new default; rows, ids and counter are otherwise kept |
| Db.MissingSpecs | db.py:60-62 | The loop only adds required columns that were absent before it started |
| Db.TextUnlessNone | db.py:81-83 | `str(v) if v is not None else ""` is empty exactly for None and the empty string |
| Db.TextUnlessFalsy | db.py:84-88 | `str(v or "")` is empty exactly for falsy values |
| Db.CheckConflictReadsSnapshot | db.py:123-124 | A check that returns at all has read the table, and its verdict is the conflict rule on that table's snapshot |
| Db.CreatedShape | db.py:43-57 | The created table has id followed by the required columns in order, all distinct |
| Db.CreateTableKeepsValid | db.py:43-57 | Creating the table keeps the store valid |
| Db.AddColumnsKeepsValid | db.py:61-63 | Adding fresh, distinct columns keeps the store valid and adds exactly their names |
| Db.AddColumnKeepsValid | db.py:24-36 | Adding a fresh column keeps the store valid |
| Db.InsertKeepsValid | db.py:92-108 | A successful insert keeps the store valid |
| Db.InitDbKeepsValid | db.py:39-67 | init_db keeps the store valid and adds exactly the missing names |
| Db.InitDbHasAllColumns | db.py:39-67 | After init_db the table exists with id and every required column |
| Db.InitDbIsAdditive | db.py:59-63 | Migration only appends the missing columns: existing cells and ids are kept, and each row gets each added column's default |
| Db.AddColumnsCells | db.py:61-63 | Adding columns keeps every existing cell and sets each new column to its default |
| Db.InitDbOnFreshFile | db.py:39-67 | On a file with no table, init_db creates the full table with no rows and adds nothing |
| Db.InitDbIsIdempotent | db.py:39-67 | Running init_db twice is the same as running it once |
| Db.MigratedConferenceTypeReadsEmpty | db.py:11 | Rows stored before conference_type existed read `''` in it after migration |
| Db.CoercionsDiffer | db.py:81-88 | The date fields' `str(v) if v is not None else ""` and the other fields' `str(v or "")` store the same text for every value except 0 and False, which the other fields store as `""` and the date fields as their text |
| Db.InsertColumnsAreCanonical | db.py:95 | The INSERT names the required columns in the required order |
| Db.InsertFailures | db.py:92-108 | The insert fails with no such table, no such column or database full in exactly the circumstances that cause each |
| Db.InsertAfterInitDb | db.py:39-108 | After init_db an insert succeeds unless the rowid counter is exhausted |
| Db.InsertThenRead | db.py:92-120 | After an insert the snapshot keeps the old rows and columns and adds one row, with a fresh id and the bound values |
| Db.SnapshotWellFormed | db.py:114-120 | Every snapshot row has exactly the table's columns, and ids are distinct |
| Config.TimelineWindow | config.py:9-11 | The window runs from the first of last month to the first of the month after next, and contains today; it fails only at the ends of the year range |
| Config.WindowIsThreeMonths | config.py:8-11 | A date is in the window exactly when its month is last month, this month or next month |
| Timeline.BuildTimeline | timeline.py:16-164 | The chart builder's result for each kind of input; characterised by EmptyIffNoData, MissingColumnsExact, AllRowsUnparsableExact, OutOfWindowExact, PlottedExact and NeverZeroDuration |
| Timeline.MissingRequired | timeline.py:38 | The missing list holds exactly the required names absent from the columns |
| Timeline.ParseDay | timeline.py:46 | A parsed date is valid and within the range a Timestamp can hold |
| Timeline.ParseClock | timeline.py:7-13 | A parsed time is within one day |
| Timeline.ParseRows | timeline.py:50-55 | Rows that survive the mask have start and end times within one day |
| Timeline.DrawnDuration | timeline.py:63-67 | A drawn duration is positive; it is end minus start, or the 15-minute (900 s) clamp |
| Timeline.WindowRows | timeline.py:69-73 | The window filter keeps only rows in the window, taken from its input |
| Timeline.MakeBars | timeline.py:89-116 | One bar per in-window row, position by position |
| Timeline.EmptyIffNoData | timeline.py:25-26 | The result is empty exactly when there is no DataFrame or it is empty |
| Timeline.RequiredSortedIsSorted | timeline.py:29-40 | The required names, as `sorted()` orders them, are strictly increasing |
| Timeline.MissingKeepsOrder | timeline.py:40 | The reported missing names stay sorted |
| Timeline.MissingListExact | timeline.py:38-40 | `sorted(required - set(columns))` is sorted, holds exactly the absent required names, and is non-empty exactly when one is absent |
| Timeline.MissingColumnsExact | timeline.py:38-40 | Missing columns are reported exactly when a required name is absent; the list is sorted and is exactly the absent names |
| Timeline.NeverZeroDuration | timeline.py:60-67 | No input gives the reason `zero_duration`, and `empty_df` is given exactly for no data |
| Timeline.ReasonNames | timeline.py:26 | Only an empty result carries `empty_df`, and no result carries `zero_duration` |
| Timeline.ClockTextRoundTrip | timeline.py:11 | A stored `str(time)` parses as its time of day |
| Timeline.HourMinuteFallback | timeline.py:12 | `HH:MM` fails `%H:%M:%S` and is read by the fallback |
| Timeline.DayTextRoundTrip | timeline.py:46 | A stored `str(date)` in the Timestamp range parses as that date |
| Timeline.StoredBookingParses | timeline.py:46-55 | A row written from widget values survives the mask with its date and times |
| Timeline.ParsedPlusBad | timeline.py:51-58 | Kept rows plus bad rows are all the rows |
| Timeline.ParsedRowsExact | timeline.py:51-55 | A parsed row is kept exactly when it comes from some input row |
| Timeline.NoneParsed | timeline.py:57 | Nothing is kept exactly when every row fails to parse |
| Timeline.AllRowsUnparsableExact | timeline.py:57-58 | `all_rows_unparsable` happens exactly when the data is present, has all columns, and no row parses; the bad count is then the row count |
| Timeline.WindowRowsExact | timeline.py:72-73 | A row is kept by the window exactly when it is a kept row in the window |
| Timeline.WindowRowsAppend | timeline.py:72-73 | The window filter distributes over concatenation, so it keeps rows in input order |
| Timeline.BarOfRow | timeline.py:89-116 | A bar sits on the row's date and starts at its start; it runs to the end, or is 900 s when the end is not later; its hover texts are the stored cells |
| Timeline.MinMaxBound | timeline.py:80-81 | min and max of the dates bound every date and are attained |
| Timeline.OutOfWindowExact | timeline.py:75-82 | `out_of_window` reports the window and the min and max dates, which bound every parsed row; no parsed row is in the window |
| Timeline.NothingInWindow | timeline.py:75-82 | When no parsed row is in the window, every parsed row lies outside it, between the reported min and max dates |
| Timeline.PlottedExact | timeline.py:60-164 | A plotted result has one bar per in-window parsed row, in input order: the k-th bar is the bar of the row at the k-th drawn position; rows_plotted counts the drawn rows; invalid_durations counts every parsed row whose end is not after its start, in or out of the window |
| Timeline.TrueIndices | timeline.py:72-73 | The positions of the set flags, each listed once and in increasing order |
| Timeline.ShownIndices | timeline.py:50-73 | The positions of the rows a plotted chart draws, in increasing order: exactly the rows that parse and fall in the window |
| Timeline.InvalidIndices | timeline.py:50-65 | The positions of the rows that parse with an end not after their start, in increasing order |
| Timeline.ShownRowsInOrder | timeline.py:50-73 | The k-th row kept by the mask and the window comes from the row at the k-th drawn position |
| Timeline.InvalidIndicesCount | timeline.py:65 | invalid_durations counts exactly the rows at the invalid positions |
| Timeline.BarsInInputOrder | timeline.py:89-116 | The bars, rows_plotted and invalid_durations are those of the drawn and invalid positions |
| Timeline.BarsOfRows | timeline.py:89-116 | Every in-window row yields a bar and every bar comes from such a row |
| Timeline.InvalidCountBound | timeline.py:65 | The invalid count is at most the rows, and is zero exactly when every duration is positive |
| Timeline.InvalidCountIncludesOutside | timeline.py:65-73 | The count is taken before the window filter, so it includes rows outside the window |
| Ui.MissingFields | ui.py:42-58 | The labels of the blank fields in form order; characterised by MissingFieldsExact and CollectMissing |
| Ui.SubmitSpec | ui.py:60-79 | The submit branch as a function of the store and the form; characterised by SubmitOutcomes, DecideConflict, DecideAccepted, AcceptedStoresEnteredValues and AcceptedKeepsNoDoubleBooking, and implemented by Session.Submit |
| Ui.CollectMissing | ui.py:42-58 | The loop builds exactly the missing-field list |
| Ui.Session.Submit | ui.py:40-79 | Submitting updates the store and outcome as `SubmitSpec` says, and sets the flash only on acceptance |
| Ui.MissingUpToExact | ui.py:42-58 | A label is listed exactly when its field is among those checked so far and is blank |
| Ui.MissingUpToAt | ui.py:42-58 | Every listed label names a blank field among those checked so far |
| Ui.MissingUpToOrder | ui.py:42-58 | Listed labels appear in form order |
| Ui.MissingFieldsExact | ui.py:42-60 | A label is listed exactly when its field is blank; labels are in form order; the list is empty exactly when no field is blank |
| Ui.TextFieldBlankIffWhitespace | ui.py:51-58 | A text field is blank exactly when it is all whitespace |
| Ui.SubmitOutcomes | ui.py:60-79 | A submission is rejected exactly when a field is missing, and then lists those fields; only an accepted submission changes the store, by exactly one row |
| Ui.DecideConflict | ui.py:63-65 | A conflict rejection carries the details the check returned |
| Ui.DecideAccepted | ui.py:60-76 | Acceptance needs no missing fields and a no-conflict verdict, and then stores the insert's result |
| Ui.DecideAlert | ui.py:60-65 | The red alert is shown exactly for blank fields or a conflict verdict; it lists the missing labels joined by ", " when fields are blank, and otherwise quotes the check's details |
| Ui.ConflictNamesStoredBooking | ui.py:63-65 | A conflict alert names a stored booking on the same date that overlaps the entered times |
| Ui.EnteredTexts | ui.py:66-76 | With all fields filled, the stored values are the `str()` of the widget values and the texts as typed, unstripped |
| Ui.InsertedBookingRow | ui.py:66-76 | An accepted insert keeps the old rows and stores each field's text in its column |
| Ui.BookingRowCells | db.py:92-108 | A row holding the INSERT's bound values holds each field's text in its column |
| Ui.AcceptedStoresEnteredValues | ui.py:66-76 | An accepted submission appends one row holding the entered values |
| Ui.AcceptedKeepsNoDoubleBooking | ui.py:62-76 | If same-date bookings were pairwise non-overlapping, they still are after an accepted submission |
| Ui.NewRowClear | ui.py:62-76 | The stored new booking is clear of every earlier booking on its date |
| Ui.StoredRowSpan | db.py:131-140 | A stored row's date and time texts read back as the candidate instants they were built from |

## Left out

- SQLite and the file system are not modelled: connections, `PRAGMA table_info`, commit and close. The table is an in-memory store, and a failing statement leaves it unchanged.
- The race between `check_conflict` and `add_booking` is not modelled. Each submission is one atomic step.
- Timeline.ParseDay: reads only ISO `YYYY-MM-DD` text in the Timestamp range, row by row. pandas' `to_datetime` without a format accepts further spellings, which the model treats as unparseable. It also infers one format from the first non-empty date text and applies it to the whole column, so when that first text is not ISO, ISO rows become NaT too; the model still parses each ISO row on its own.
- Strptime: every parser in the module (`Number`, `ParseHMS`, `ParseHM`, `ParseDateTime`) reads only ASCII digits, whereas CPython's `\d` also matches other Unicode decimal digits.
- Conflict.Instant: Python's ValueError message depends on the failure (the format mismatch names the whole text, trailing data names only the rest, an impossible day such as February 30 names no text); the model keeps the error kind and attaches the whole rejected text.
- Strptime.ParseHMS: no microseconds. Seconds 60 and 61 are rejected, as Python's datetime does.
- PyValue.ZeroPadFourDigits: covers years below 10000 only, which is the range of Python dates.
- Times are whole seconds, not floating-point hours. Any float rounding in the source's hour arithmetic is not modelled.
- `_add_column`'s float defaults are not modelled, because no required column has one.
- Chart rendering is not modelled: Plotly traces, axis layout, bar width, colours and the `datetime.now()` marker. A bar keeps its date, base, height, name and hover data.
- `date.today()` and `relativedelta` are not modelled: today's date is a parameter of `Config.TimelineWindow`.
- Streamlit is not modelled: widget rendering, `st_red_alert`'s HTML, `st.cache_data.clear()` and `st.rerun()`. The alert text and the flash message are kept.
- `app.py` and the layout around the form are not part of this model.
- Db.BookingStore.MigrateColumn takes the pre-migration store as a ghost argument. This only serves to state its loop-step contract.
