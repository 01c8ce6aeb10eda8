/** check_conflict on a snapshot of the bookings table (db.py): the
    specification the store's CheckConflict method is proved against, and
    what it guarantees. Two bookings conflict when they are on the same date
    text and their intervals overlap under the strict test
    `new_start < existing_end and new_end > existing_start`; the first such
    row in storage order is reported. */
module Conflict {
  import opened Common
  import opened Calendar
  import opened PyValue
  import opened Table
  import Strptime

  datatype Verdict = NoConflict | Conflict(details: string)

  /** What check_conflict raises: the store's own failure, a column missing
      from the snapshot (KeyError), or a text strptime rejects (ValueError). */
  datatype ConflictError = ReadFailed(cause: DbError) | KeyError(column: string) | ValueError(text: string)

  /** A booking's interval as two instants. */
  datatype Span = Span(start: DateTime, end: DateTime)

  /** row[column] of a pandas row. */
  function Cell(row: map<string, SqlValue>, column: string): Result<SqlValue, ConflictError> {
    if column in row then Ok(row[column]) else Err(KeyError(column))
  }

  /** datetime.strptime(f"{day} {time}", "%Y-%m-%d %H:%M:%S") */
  function Instant(day: string, time: string): (r: Result<DateTime, ConflictError>)
    ensures r.Err? <==> Strptime.ParseDateTime(day + " " + time).None?
    ensures r.Err? ==> r.error == ValueError(day + " " + time)
  {
    var text := day + " " + time;
    match Strptime.ParseDateTime(text)
    case Some(t) => Ok(t)
    case None => Err(ValueError(text))
  }

  /** The strict overlap test of db.py:141, on instants. */
  predicate Overlaps(candidate: Span, existing: Span) {
    DateTimeKey(candidate.start) < DateTimeKey(existing.end)
    && DateTimeKey(candidate.end) > DateTimeKey(existing.start)
  }

  /** The interval of a stored row, read as the loop body reads it. */
  function RowSpan(row: map<string, SqlValue>): Result<Span, ConflictError> {
    var day :- Cell(row, "booking_date");
    var start :- Cell(row, "start_time");
    var existingStart :- Instant(Render(day), Render(start));
    var end :- Cell(row, "end_time");
    var existingEnd :- Instant(Render(day), Render(end));
    Ok(Span(existingStart, existingEnd))
  }

  /** The message naming the booker, the company and the stored times. */
  function Details(row: map<string, SqlValue>): Result<string, ConflictError> {
    var person :- Cell(row, "person_name");
    var company :- Cell(row, "company_name");
    var start :- Cell(row, "start_time");
    var end :- Cell(row, "end_time");
    Ok("Existing booking by **" + Render(person) + " (" + Render(company) + ")** from "
       + Render(start) + " to " + Render(end))
  }

  /** The loop over same-day rows in storage order, returning on the first overlap. */
  function Scan(rows: seq<map<string, SqlValue>>, candidate: Span): Result<Verdict, ConflictError> {
    if rows == [] then Ok(NoConflict)
    else
      var existing :- RowSpan(rows[0]);
      if Overlaps(candidate, existing) then
        var details :- Details(rows[0]);
        Ok(Conflict(details))
      else Scan(rows[1..], candidate)
  }

  /** A row on the given date text: df["booking_date"] == str(booking_date). */
  predicate OnDay(row: map<string, SqlValue>, day: string) {
    "booking_date" in row && row["booking_date"] == Text(day)
  }

  /** df[df["booking_date"] == day]: the rows on that date text, in storage order. */
  function SameDay(rows: seq<map<string, SqlValue>>, day: string): (r: seq<map<string, SqlValue>>)
    ensures |r| <= |rows|
    ensures forall i :: 0 <= i < |r| ==> OnDay(r[i], day)
  {
    if rows == [] then []
    else (if OnDay(rows[0], day) then [rows[0]] else []) + SameDay(rows[1..], day)
  }

  /** check_conflict on a snapshot, given the texts the candidate's date,
      start and end print as: str(booking_date), and the parts of the two
      f"{booking_date} {time}" strings. */
  function CheckConflictOn(f: Frame, day: string, startText: string, endText: string): Result<Verdict, ConflictError> {
    if IsEmpty(f) then Ok(NoConflict)
    else if "booking_date" !in f.columns then Err(KeyError("booking_date"))
    else
      var sameDay := SameDay(f.rows, day);
      if sameDay == [] then Ok(NoConflict)
      else
        var newStart :- Instant(day, startText);
        var newEnd :- Instant(day, endText);
        Scan(sameDay, Span(newStart, newEnd))
  }

  /** check_conflict on a snapshot, step by step: the early answers, the
      candidate's two instants, then the scan of the same-day rows. */
  method CheckFrame(f: Frame, day: string, startText: string, endText: string) returns (r: Result<Verdict, ConflictError>)
    ensures r == CheckConflictOn(f, day, startText, endText)
  {
    if IsEmpty(f) {
      return Ok(NoConflict);
    }
    if "booking_date" !in f.columns {
      return Err(KeyError("booking_date"));
    }
    var sameDay := SameDay(f.rows, day);
    if sameDay == [] {
      return Ok(NoConflict);
    }
    var newStart :- Instant(day, startText);
    var newEnd :- Instant(day, endText);
    r := ScanRows(sameDay, Span(newStart, newEnd));
  }

  /** The loop of check_conflict over the same-day rows, in storage order:
      read the row's interval, and stop at the first that overlaps. */
  method ScanRows(rows: seq<map<string, SqlValue>>, candidate: Span) returns (r: Result<Verdict, ConflictError>)
    ensures r == Scan(rows, candidate)
  {
    var i := 0;
    while i < |rows|
      invariant 0 <= i <= |rows|
      invariant Scan(rows[i..], candidate) == Scan(rows, candidate)
    {
      var row := rows[i];
      assert rows[i..][0] == row;
      assert rows[i..][1..] == rows[i + 1..];
      var existing :- RowSpan(row);
      if Overlaps(candidate, existing) {
        var details :- Details(row);
        return Ok(Conflict(details));
      }
      i := i + 1;
    }
    return Ok(NoConflict);
  }

  // ---------------------------------------------------------------------
  // The overlap test

  /** Overlap does not depend on which interval is the candidate. */
  lemma OverlapIsSymmetric(a: Span, b: Span)
    ensures Overlaps(a, b) <==> Overlaps(b, a)
  {
  }

  /** Intervals that only touch, one ending exactly when the other starts, do not overlap. */
  lemma TouchingIntervalsDoNotOverlap(a: Span, b: Span)
    requires a.end == b.start || b.end == a.start
    ensures !Overlaps(a, b)
  {
  }

  /** The test does not ask that an interval end after it starts: an inverted
      candidate overlaps nothing that lies inside its reversed range. */
  lemma InvertedCandidateMissesInside(candidate: Span, existing: Span)
    requires DateTimeKey(candidate.end) <= DateTimeKey(existing.start)
    requires DateTimeKey(existing.end) <= DateTimeKey(candidate.start)
    ensures !Overlaps(candidate, existing)
  {
  }

  // ---------------------------------------------------------------------
  // The scan

  /** Row k overlaps the candidate and names it, and every row before it was
      read and found clear. */
  predicate FirstOverlapAt(rows: seq<map<string, SqlValue>>, candidate: Span, details: string, k: int) {
    && 0 <= k < |rows| && Clear(rows[..k], candidate)
    && RowSpan(rows[k]).Ok? && Overlaps(candidate, RowSpan(rows[k]).value)
    && Details(rows[k]) == Ok(details)
  }

  /** The scan reports a conflict exactly for the first overlapping row, every
      row before it having been read and found clear, and names that row. */
  lemma ScanConflictIsFirstOverlap(rows: seq<map<string, SqlValue>>, candidate: Span, details: string)
    ensures Scan(rows, candidate) == Ok(Conflict(details)) <==> exists k :: FirstOverlapAt(rows, candidate, details, k)
  {
    if Scan(rows, candidate) == Ok(Conflict(details)) {
      ScanConflictFound(rows, candidate, details);
    }
    if exists k :: FirstOverlapAt(rows, candidate, details, k) {
      var k :| FirstOverlapAt(rows, candidate, details, k);
      FirstOverlapReported(rows, candidate, details, k);
    }
  }

  lemma {:induction false} ScanConflictFound(rows: seq<map<string, SqlValue>>, candidate: Span, details: string)
    requires Scan(rows, candidate) == Ok(Conflict(details))
    ensures exists k :: FirstOverlapAt(rows, candidate, details, k)
  {
    if RowSpan(rows[0]).Ok? && Overlaps(candidate, RowSpan(rows[0]).value) {
      assert Clear(rows[..0], candidate);
      assert FirstOverlapAt(rows, candidate, details, 0);
    } else {
      ScanConflictFound(rows[1..], candidate, details);
      var k :| FirstOverlapAt(rows[1..], candidate, details, k);
      assert rows[..k + 1][1..] == rows[1..][..k];
      assert FirstOverlapAt(rows, candidate, details, k + 1);
    }
  }

  lemma {:induction false} FirstOverlapReported(rows: seq<map<string, SqlValue>>, candidate: Span, details: string, k: int)
    requires FirstOverlapAt(rows, candidate, details, k)
    ensures Scan(rows, candidate) == Ok(Conflict(details))
  {
    if k > 0 {
      assert rows[..k][1..] == rows[1..][..k - 1];
      assert rows[1..][k - 1] == rows[k];
      FirstOverlapReported(rows[1..], candidate, details, k - 1);
    }
  }

  /** The row was read without error and does not overlap the candidate. */
  predicate ClearRow(row: map<string, SqlValue>, candidate: Span) {
    RowSpan(row).Ok? && !Overlaps(candidate, RowSpan(row).value)
  }

  /** Every row was read without error and none overlaps the candidate. */
  predicate Clear(rows: seq<map<string, SqlValue>>, candidate: Span) {
    rows == [] || (ClearRow(rows[0], candidate) && Clear(rows[1..], candidate))
  }

  /** The scan finds no conflict exactly when every row is read without error
      and none overlaps. */
  lemma {:induction false} ScanNoConflictIsAllClear(rows: seq<map<string, SqlValue>>, candidate: Span)
    ensures Scan(rows, candidate) == Ok(NoConflict) <==> Clear(rows, candidate)
  {
    if rows != [] {
      ScanNoConflictIsAllClear(rows[1..], candidate);
    }
  }

  /** The same-day rows are exactly the snapshot's rows on that date text. */
  lemma {:induction false} SameDayMembers(rows: seq<map<string, SqlValue>>, day: string, r: map<string, SqlValue>)
    ensures r in SameDay(rows, day) <==> r in rows && OnDay(r, day)
  {
    if rows != [] {
      SameDayMembers(rows[1..], day, r);
      if r in rows && r != rows[0] {
        var i :| 0 <= i < |rows| && rows[i] == r;
        assert rows[1..][i - 1] == r;
      }
    }
  }

  /** Each row of a clear list is clear. */
  lemma {:induction false} ClearMember(rows: seq<map<string, SqlValue>>, candidate: Span, r: map<string, SqlValue>)
    requires Clear(rows, candidate) && r in rows
    ensures ClearRow(r, candidate)
  {
    if r != rows[0] {
      var i :| 0 <= i < |rows| && rows[i] == r;
      assert rows[1..][i - 1] == r;
      ClearMember(rows[1..], candidate, r);
    }
  }

  /** Two rows carrying the same date text. */
  predicate SameDateText(a: map<string, SqlValue>, b: map<string, SqlValue>) {
    "booking_date" in a && "booking_date" in b && a["booking_date"] == b["booking_date"]
  }

  /** No two rows on the same date text whose intervals can be read overlap:
      the property the check guards before every insert. */
  predicate NoDoubleBooking(rows: seq<map<string, SqlValue>>) {
    forall i, j :: 0 <= i < |rows| && 0 <= j < |rows| && i != j && SameDateText(rows[i], rows[j])
                   && RowSpan(rows[i]).Ok? && RowSpan(rows[j]).Ok?
                   ==> !Overlaps(RowSpan(rows[i]).value, RowSpan(rows[j]).value)
  }

  /** Appending a row that every earlier row on its date text is clear of
      keeps the rows free of double bookings. */
  lemma AppendClearKeepsNoDoubleBooking(rows: seq<map<string, SqlValue>>, newRow: map<string, SqlValue>, day: string)
    requires NoDoubleBooking(rows) && OnDay(newRow, day)
    requires forall i :: 0 <= i < |rows| && OnDay(rows[i], day) ==>
               RowSpan(newRow).Ok? && ClearRow(rows[i], RowSpan(newRow).value)
    ensures NoDoubleBooking(rows + [newRow])
  {
    var after := rows + [newRow];
    var n := |rows|;
    forall i, j | 0 <= i < |after| && 0 <= j < |after| && i != j && SameDateText(after[i], after[j])
                  && RowSpan(after[i]).Ok? && RowSpan(after[j]).Ok?
      ensures !Overlaps(RowSpan(after[i]).value, RowSpan(after[j]).value)
    {
      if i < n && j < n {
        assert after[i] == rows[i] && after[j] == rows[j];
      } else if i < n {
        assert after[i] == rows[i] && after[j] == newRow;
        assert OnDay(rows[i], day);
        OverlapIsSymmetric(RowSpan(rows[i]).value, RowSpan(newRow).value);
      } else {
        assert after[j] == rows[j] && after[i] == newRow;
        assert OnDay(rows[j], day);
      }
    }
  }

  /** A reported conflict names a row of the snapshot on the candidate's
      date text whose interval overlaps the candidate's, the first in storage
      order among the same-day rows: every same-day row stored before it was
      read and is clear of the candidate. */
  lemma ConflictNamesRow(f: Frame, day: string, startText: string, endText: string, details: string)
    requires CheckConflictOn(f, day, startText, endText) == Ok(Conflict(details))
    ensures Instant(day, startText).Ok? && Instant(day, endText).Ok?
    ensures exists k :: 0 <= k < |f.rows| && OnDay(f.rows[k], day) && RowSpan(f.rows[k]).Ok?
              && Overlaps(Span(Instant(day, startText).value, Instant(day, endText).value), RowSpan(f.rows[k]).value)
              && Details(f.rows[k]) == Ok(details)
              && forall j :: 0 <= j < k && OnDay(f.rows[j], day) ==>
                   ClearRow(f.rows[j], Span(Instant(day, startText).value, Instant(day, endText).value))
  {
    var sameDay := SameDay(f.rows, day);
    var candidate := Span(Instant(day, startText).value, Instant(day, endText).value);
    ScanConflictIsFirstOverlap(sameDay, candidate, details);
    var k :| FirstOverlapAt(sameDay, candidate, details, k);
    SameDayPrefix(f.rows, day, k);
    var i :| 0 <= i < |f.rows| && f.rows[i] == sameDay[k] && SameDay(f.rows[..i], day) == sameDay[..k];
    forall j | 0 <= j < i && OnDay(f.rows[j], day)
      ensures ClearRow(f.rows[j], candidate)
    {
      assert f.rows[..i][j] == f.rows[j];
      SameDayMembers(f.rows[..i], day, f.rows[j]);
      ClearMember(sameDay[..k], candidate, f.rows[j]);
    }
  }

  /** The k-th same-day row sits at some position of the rows, and the
      same-day rows before that position are the first k. */
  lemma {:induction false} SameDayPrefix(rows: seq<map<string, SqlValue>>, day: string, k: int)
    requires 0 <= k < |SameDay(rows, day)|
    ensures exists i :: 0 <= i < |rows| && rows[i] == SameDay(rows, day)[k]
              && SameDay(rows[..i], day) == SameDay(rows, day)[..k]
  {
    var head := OnDay(rows[0], day);
    if head && k == 0 {
      assert rows[..0] == [];
    } else {
      var k' := if head then k - 1 else k;
      SameDayPrefix(rows[1..], day, k');
      var i' :| 0 <= i' < |rows| - 1 && rows[1..][i'] == SameDay(rows[1..], day)[k']
                && SameDay(rows[1..][..i'], day) == SameDay(rows[1..], day)[..k'];
      var i := i' + 1;
      assert rows[..i][0] == rows[0] && rows[..i][1..] == rows[1..][..i'];
      assert rows[i] == SameDay(rows, day)[k];
      assert SameDay(rows[..i], day) == SameDay(rows, day)[..k];
    }
  }

  /** When the check answers no conflict for a snapshot holding rows on the
      candidate's date text, it read both candidate instants and every such
      row, and none overlaps. */
  lemma NoConflictClearsSameDay(f: Frame, day: string, startText: string, endText: string, row: map<string, SqlValue>)
    requires CheckConflictOn(f, day, startText, endText) == Ok(NoConflict)
    requires "booking_date" in f.columns && row in f.rows && OnDay(row, day)
    ensures Instant(day, startText).Ok? && Instant(day, endText).Ok?
    ensures ClearRow(row, Span(Instant(day, startText).value, Instant(day, endText).value))
  {
    var sameDay := SameDay(f.rows, day);
    SameDayMembers(f.rows, day, row);
    var candidate := Span(Instant(day, startText).value, Instant(day, endText).value);
    ScanNoConflictIsAllClear(sameDay, candidate);
    ClearMember(sameDay, candidate, row);
  }

  /** No row of the snapshot is on the candidate's date text. */
  lemma {:induction false} SameDayEmpty(rows: seq<map<string, SqlValue>>, day: string)
    ensures SameDay(rows, day) == [] <==> forall i :: 0 <= i < |rows| ==> !OnDay(rows[i], day)
  {
    if rows != [] {
      SameDayEmpty(rows[1..], day);
      assert forall i :: 1 <= i < |rows| ==> rows[i] == rows[1..][i - 1];
    }
  }

  /** An empty snapshot, or one with no stored row on the candidate's date,
      gets no conflict without the candidate's times being read: any texts,
      even ones that do not parse, give the same answer. */
  lemma NoSameDayRowNoConflict(f: Frame, day: string, startText: string, endText: string)
    requires IsEmpty(f) || "booking_date" in f.columns
    requires forall i :: 0 <= i < |f.rows| ==> !OnDay(f.rows[i], day)
    ensures CheckConflictOn(f, day, startText, endText) == Ok(NoConflict)
  {
    if !IsEmpty(f) {
      SameDayEmpty(f.rows, day);
    }
  }

  /** Values from the form's date and time widgets always read back under
      the conflict check's format, so the candidate never raises. */
  lemma WidgetCandidateParses(d: CivilDate, t: CivilTime)
    ensures Instant(Str(PyDate(d)), Str(PyTime(t))) == Ok(DateTime(d, SecondsOfDay(t)))
  {
    Strptime.DateTimeTextRoundTrip(d, t);
  }
}
