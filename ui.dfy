/** The submit path of the booking form (ui.py): collect the fields left
    blank, in form order; if none, ask the store for a conflict; if there is
    none, add the booking as entered and set the success flash. The widgets,
    the alert box, the cache and the rerun are not modelled; the form's
    values arrive as a Form. */
module Ui {
  import opened Common
  import opened PyValue
  import opened Table
  import opened Conflict
  import opened Db

  /** What the form hands over on submit: the date, time and select widgets
      give loosely typed values, the text inputs and the affiliation select give text. */
  datatype Form = Form(
    bookingDate: Value, startTime: Value, endTime: Value, conferenceType: Value,
    personName: string, companyName: string, affiliation: string, email: string)

  /** The labels of the required-field message, in form order. */
  const Labels: seq<string> := [
    "Booking Date", "Start Time", "End Time", "Conference Type",
    "Person Name", "Company/Organization", "Affiliation/Department", "Email"
  ]

  /** Field i counts as missing: `not v` for the first four, `not v.strip()`
      for the four texts. */
  predicate Blank(f: Form, i: nat)
    requires i < 8
  {
    if i == 0 then !Truthy(f.bookingDate)
    else if i == 1 then !Truthy(f.startTime)
    else if i == 2 then !Truthy(f.endTime)
    else if i == 3 then !Truthy(f.conferenceType)
    else if i == 4 then Strip(f.personName) == []
    else if i == 5 then Strip(f.companyName) == []
    else if i == 6 then Strip(f.affiliation) == []
    else Strip(f.email) == []
  }

  /** The labels of the blank fields among the first k, in form order. */
  function MissingUpTo(f: Form, k: nat): seq<string>
    requires k <= 8
  {
    if k == 0 then []
    else MissingUpTo(f, k - 1) + (if Blank(f, k - 1) then [Labels[k - 1]] else [])
  }

  /** The `missing` list of the form. */
  function MissingFields(f: Form): seq<string> {
    MissingUpTo(f, 8)
  }

  /** What a submit ends in: the required-field alert, the conflict alert, an
      exception from the store, or the booking added. */
  datatype Outcome =
    | Rejected(missing: seq<string>)
    | ConflictRejected(details: string)
    | Raised(error: SubmitError)
    | Accepted

  /** An exception check_conflict or add_booking lets escape. */
  datatype SubmitError = CheckFailed(cause: ConflictError) | InsertFailed(reason: DbError)

  /** The text `', '.join(items)`. */
  function Join(items: seq<string>, sep: string): string {
    if items == [] then ""
    else if |items| == 1 then items[0]
    else items[0] + sep + Join(items[1..], sep)
  }

  /** The message of the red alert box, when there is one. */
  function Alert(o: Outcome): Option<string> {
    match o
    case Rejected(missing) => Some("Please fill all required fields: " + Join(missing, ", ") + ".")
    case ConflictRejected(details) => Some("\U{274C} Time conflict! " + details)
    case _ => None
  }

  const SuccessFlash: string := "\U{2705} Booking submitted successfully!"

  /** add_booking's arguments: the form's values as entered, not stripped. */
  function Entered(f: Form): Booking {
    Coerce(f.bookingDate, f.startTime, f.endTime, f.conferenceType,
           PyStr(f.personName), PyStr(f.companyName), PyStr(f.affiliation), PyStr(f.email))
  }

  /** The submit branch given check_conflict's answer: the outcome and the
      store after it. */
  function Decide(s: Store, f: Form, verdict: Result<Verdict, ConflictError>): (Outcome, Store) {
    var missing := MissingFields(f);
    if missing != [] then (Rejected(missing), s)
    else Proceed(s, Entered(f), verdict)
  }

  /** A complete form: the verdict decides, and NoConflict calls add_booking. */
  function Proceed(s: Store, b: Booking, verdict: Result<Verdict, ConflictError>): (Outcome, Store) {
    match verdict
    case Err(e) => (Raised(CheckFailed(e)), s)
    case Ok(Conflict(details)) => (ConflictRejected(details), s)
    case Ok(NoConflict) =>
      match Insert(s, b)
      case Err(e) => (Raised(InsertFailed(e)), s)
      case Ok(t) => (Accepted, t)
  }

  /** The submit branch on a store state, asking the store itself. */
  function SubmitSpec(s: Store, f: Form): (Outcome, Store) {
    Decide(s, f, CheckConflictSpec(s, f.bookingDate, f.startTime, f.endTime))
  }

  /** The required-field checks, appending each blank field's label in turn. */
  method CollectMissing(f: Form) returns (missing: seq<string>)
    ensures missing == MissingFields(f)
  {
    missing := [];
    if !Truthy(f.bookingDate) {
      missing := missing + ["Booking Date"];
    }
    assert missing == MissingUpTo(f, 1);
    if !Truthy(f.startTime) {
      missing := missing + ["Start Time"];
    }
    assert missing == MissingUpTo(f, 2);
    if !Truthy(f.endTime) {
      missing := missing + ["End Time"];
    }
    assert missing == MissingUpTo(f, 3);
    if !Truthy(f.conferenceType) {
      missing := missing + ["Conference Type"];
    }
    assert missing == MissingUpTo(f, 4);
    if Strip(f.personName) == [] {
      missing := missing + ["Person Name"];
    }
    assert missing == MissingUpTo(f, 5);
    if Strip(f.companyName) == [] {
      missing := missing + ["Company/Organization"];
    }
    assert missing == MissingUpTo(f, 6);
    if Strip(f.affiliation) == [] {
      missing := missing + ["Affiliation/Department"];
    }
    assert missing == MissingUpTo(f, 7);
    if Strip(f.email) == [] {
      missing := missing + ["Email"];
    }
    assert missing == MissingUpTo(f, 8);
  }

  /** The per-page state the submit writes: the success flash shown after the rerun. */
  class Session {
    var flash: Option<string>

    constructor ()
      ensures flash == None
    {
      flash := None;
    }

    /** The `if submitted:` block of booking_form. */
    method Submit(store: BookingStore, f: Form) returns (outcome: Outcome)
      requires store.Valid()
      modifies this, store
      ensures store.Valid()
      ensures (outcome, store.State()) == SubmitSpec(old(store.State()), f)
      ensures flash == if outcome.Accepted? then Some(SuccessFlash) else old(flash)
    {
      var missing := CollectMissing(f);
      if missing != [] {
        return Rejected(missing);
      }
      var verdict := store.CheckConflict(f.bookingDate, f.startTime, f.endTime);
      if verdict.Err? {
        return Raised(CheckFailed(verdict.error));
      }
      if verdict.value.Conflict? {
        return ConflictRejected(verdict.value.details);
      }
      var added := store.AddBooking(f.bookingDate, f.startTime, f.endTime, f.conferenceType,
                                    PyStr(f.personName), PyStr(f.companyName), PyStr(f.affiliation), PyStr(f.email));
      if added.Err? {
        return Raised(InsertFailed(added.error));
      }
      flash := Some(SuccessFlash);
      return Accepted;
    }
  }

  // ---------------------------------------------------------------------
  // Lemmas: the required-field list

  /** A label is listed exactly when its field is blank. */
  lemma {:induction false} MissingUpToExact(f: Form, k: nat, i: nat)
    requires k <= 8 && i < 8
    ensures Labels[i] in MissingUpTo(f, k) <==> i < k && Blank(f, i)
  {
    if k > 0 {
      MissingUpToExact(f, k - 1, i);
    }
  }

  /** The position of a label in the form. */
  function LabelIndex(name: string): (i: nat)
    requires name in Labels
    ensures i < 8 && Labels[i] == name
  {
    if name == Labels[0] then 0
    else if name == Labels[1] then 1
    else if name == Labels[2] then 2
    else if name == Labels[3] then 3
    else if name == Labels[4] then 4
    else if name == Labels[5] then 5
    else if name == Labels[6] then 6
    else 7
  }

  /** Each label has its own position. */
  lemma LabelIndexOf(i: nat)
    requires i < 8
    ensures LabelIndex(Labels[i]) == i
  {
  }

  /** Each listed label belongs to a blank field among the first k. */
  lemma {:induction false} MissingUpToAt(f: Form, k: nat, a: nat)
    requires k <= 8 && a < |MissingUpTo(f, k)|
    ensures MissingUpTo(f, k)[a] in Labels
    ensures LabelIndex(MissingUpTo(f, k)[a]) < k && Blank(f, LabelIndex(MissingUpTo(f, k)[a]))
  {
    var prefix := MissingUpTo(f, k - 1);
    var r := MissingUpTo(f, k);
    if a < |prefix| {
      assert r[a] == prefix[a];
      MissingUpToAt(f, k - 1, a);
    } else {
      assert r[a] == Labels[k - 1];
      LabelIndexOf(k - 1);
    }
  }

  /** Listed labels come in form order. */
  lemma {:induction false} MissingUpToOrder(f: Form, k: nat, a: nat, b: nat)
    requires k <= 8 && a < b < |MissingUpTo(f, k)|
    ensures MissingUpTo(f, k)[a] in Labels && MissingUpTo(f, k)[b] in Labels
    ensures LabelIndex(MissingUpTo(f, k)[a]) < LabelIndex(MissingUpTo(f, k)[b])
  {
    MissingUpToAt(f, k, a);
    MissingUpToAt(f, k, b);
    var prefix := MissingUpTo(f, k - 1);
    var r := MissingUpTo(f, k);
    if b < |prefix| {
      assert r[a] == prefix[a] && r[b] == prefix[b];
      MissingUpToOrder(f, k - 1, a, b);
    } else {
      assert r == prefix + [Labels[k - 1]];
      assert r[a] == prefix[a] && r[b] == Labels[k - 1];
      LabelIndexOf(k - 1);
      MissingUpToAt(f, k - 1, a);
    }
  }

  /** The form's list names exactly the blank fields, in form order. */
  lemma MissingFieldsExact(f: Form)
    ensures forall i :: 0 <= i < 8 ==> (Labels[i] in MissingFields(f) <==> Blank(f, i))
    ensures var r := MissingFields(f);
            && (forall a :: 0 <= a < |r| ==> r[a] in Labels)
            && forall a, b :: 0 <= a < b < |r| ==> LabelIndex(r[a]) < LabelIndex(r[b])
    ensures MissingFields(f) == [] <==> forall i :: 0 <= i < 8 ==> !Blank(f, i)
  {
    var r := MissingFields(f);
    forall i | 0 <= i < 8
      ensures Labels[i] in r <==> Blank(f, i)
    {
      MissingUpToExact(f, 8, i);
    }
    forall a | 0 <= a < |r|
      ensures r[a] in Labels
    {
      MissingUpToAt(f, 8, a);
    }
    forall a, b | 0 <= a < b < |r|
      ensures LabelIndex(r[a]) < LabelIndex(r[b])
    {
      MissingUpToOrder(f, 8, a, b);
    }
    if r != [] {
      MissingUpToAt(f, 8, 0);
    }
  }

  /** A text field counts as missing exactly when it is empty or all whitespace. */
  lemma TextFieldBlankIffWhitespace(f: Form)
    ensures Blank(f, 4) <==> AllSpace(f.personName)
    ensures Blank(f, 5) <==> AllSpace(f.companyName)
    ensures Blank(f, 6) <==> AllSpace(f.affiliation)
    ensures Blank(f, 7) <==> AllSpace(f.email)
  {
    StripEmptyIffAllSpace(f.personName);
    StripEmptyIffAllSpace(f.companyName);
    StripEmptyIffAllSpace(f.affiliation);
    StripEmptyIffAllSpace(f.email);
  }

  // ---------------------------------------------------------------------
  // Lemmas: the submit decision

  /** The store changes only on acceptance: a blank field stops the submit
      before the store is asked anything, and a conflict or an exception
      leaves the store as it was. */
  lemma SubmitOutcomes(s: Store, f: Form)
    requires ValidStore(s)
    ensures SubmitSpec(s, f).0.Rejected? <==> MissingFields(f) != []
    ensures SubmitSpec(s, f).0.Rejected? ==> SubmitSpec(s, f).0.missing == MissingFields(f)
    ensures !SubmitSpec(s, f).0.Accepted? ==> SubmitSpec(s, f).1 == s
    ensures SubmitSpec(s, f).0.Accepted? ==> |SubmitSpec(s, f).1.rows| == |s.rows| + 1
  {
  }

  /** A conflict outcome carries the details of a Conflict verdict. */
  lemma DecideConflict(s: Store, f: Form, verdict: Result<Verdict, ConflictError>)
    requires Decide(s, f, verdict).0.ConflictRejected?
    ensures verdict == Ok(Conflict(Decide(s, f, verdict).0.details))
  {
    assert Decide(s, f, verdict) == Proceed(s, Entered(f), verdict);
    match verdict
    case Ok(Conflict(details)) =>
    case Ok(NoConflict) =>
    case Err(_) =>
  }

  /** The red alert box: shown exactly for blank fields or a Conflict verdict;
      it lists the missing labels joined by ", " before any conflict check, and
      otherwise quotes the check's details. */
  lemma DecideAlert(s: Store, f: Form, verdict: Result<Verdict, ConflictError>)
    ensures Alert(Decide(s, f, verdict).0).Some?
            <==> MissingFields(f) != [] || (verdict.Ok? && verdict.value.Conflict?)
    ensures MissingFields(f) != [] ==>
              Alert(Decide(s, f, verdict).0)
                == Some("Please fill all required fields: " + Join(MissingFields(f), ", ") + ".")
    ensures MissingFields(f) == [] && verdict.Ok? && verdict.value.Conflict? ==>
              Alert(Decide(s, f, verdict).0) == Some("\U{274C} Time conflict! " + verdict.value.details)
  {
  }

  /** Acceptance means a complete form, a NoConflict verdict and an insert
      of the entered values that succeeded. */
  lemma DecideAccepted(s: Store, f: Form, verdict: Result<Verdict, ConflictError>)
    requires Decide(s, f, verdict).0.Accepted?
    ensures MissingFields(f) == [] && verdict == Ok(NoConflict)
    ensures Insert(s, Entered(f)).Ok? && Decide(s, f, verdict).1 == Insert(s, Entered(f)).value
  {
    assert Decide(s, f, verdict) == Proceed(s, Entered(f), verdict);
  }

  /** A conflict names a stored booking on the same date text whose interval
      overlaps the candidate's. */
  lemma ConflictNamesStoredBooking(s: Store, f: Form)
    requires SubmitSpec(s, f).0.ConflictRejected?
    ensures var rows := Snapshot(s).rows;
            var day := Str(f.bookingDate);
            && Instant(day, Str(f.startTime)).Ok? && Instant(day, Str(f.endTime)).Ok?
            && exists k :: 0 <= k < |rows| && OnDay(rows[k], day) && RowSpan(rows[k]).Ok?
                 && Overlaps(Span(Instant(day, Str(f.startTime)).value, Instant(day, Str(f.endTime)).value),
                             RowSpan(rows[k]).value)
                 && Details(rows[k]) == Ok(SubmitSpec(s, f).0.details)
  {
    var verdict := CheckConflictSpec(s, f.bookingDate, f.startTime, f.endTime);
    DecideConflict(s, f, verdict);
    CheckConflictReadsSnapshot(s, f.bookingDate, f.startTime, f.endTime);
    ConflictNamesRow(Snapshot(s), Str(f.bookingDate), Str(f.startTime), Str(f.endTime), SubmitSpec(s, f).0.details);
  }

  /** A complete form reaches add_booking as its own texts: the date and
      times and the conference type as str() prints them, the four typed
      fields unchanged. */
  lemma EnteredTexts(f: Form)
    requires MissingFields(f) == []
    ensures Entered(f) == Booking(Str(f.bookingDate), Str(f.startTime), Str(f.endTime), Str(f.conferenceType),
                                  f.personName, f.companyName, f.affiliation, f.email)
  {
    MissingFieldsExact(f);
    assert !Blank(f, 0) && !Blank(f, 1) && !Blank(f, 2) && !Blank(f, 3);
    assert !Blank(f, 4) && !Blank(f, 5) && !Blank(f, 6) && !Blank(f, 7);
    assert Strip([]) == [];
  }

  /** A successful insert appends one row after every earlier row, holding
      the booking's eight texts in their columns. */
  lemma InsertedBookingRow(s: Store, b: Booking)
    requires ValidStore(s) && Insert(s, b).Ok?
    ensures var before := Snapshot(s).rows;
            var after := Snapshot(Insert(s, b).value).rows;
            var n := |before|;
            && |after| == n + 1 && after[..n] == before
            && NewRowHolds(after[n], "booking_date", b.bookingDate)
            && NewRowHolds(after[n], "start_time", b.startTime)
            && NewRowHolds(after[n], "end_time", b.endTime)
            && NewRowHolds(after[n], "conference_type", b.conferenceType)
            && NewRowHolds(after[n], "person_name", b.personName)
            && NewRowHolds(after[n], "company_name", b.companyName)
            && NewRowHolds(after[n], "affiliation", b.affiliation)
            && NewRowHolds(after[n], "email", b.email)
  {
    InsertThenRead(s, b);
    BookingRowCells(Snapshot(Insert(s, b).value).rows[|Snapshot(s).rows|], b);
  }

  /** A row holding every cell add_booking writes holds each field's text. */
  lemma BookingRowCells(row: map<string, SqlValue>, b: Booking)
    requires forall c :: c in BookingCells(b) ==> c in row && row[c] == BookingCells(b)[c]
    ensures NewRowHolds(row, "booking_date", b.bookingDate)
    ensures NewRowHolds(row, "start_time", b.startTime)
    ensures NewRowHolds(row, "end_time", b.endTime)
    ensures NewRowHolds(row, "conference_type", b.conferenceType)
    ensures NewRowHolds(row, "person_name", b.personName)
    ensures NewRowHolds(row, "company_name", b.companyName)
    ensures NewRowHolds(row, "affiliation", b.affiliation)
    ensures NewRowHolds(row, "email", b.email)
  {
    var cells := BookingCells(b);
    assert "booking_date" in cells && "start_time" in cells && "end_time" in cells && "conference_type" in cells;
    assert "person_name" in cells && "company_name" in cells && "affiliation" in cells && "email" in cells;
  }

  /** On acceptance add_booking got the form's values as entered: the new
      row, after every earlier row, holds the texts of the date and times and
      the person, company, affiliation and email exactly as typed. */
  lemma AcceptedStoresEnteredValues(s: Store, f: Form, verdict: Result<Verdict, ConflictError>)
    requires ValidStore(s) && Decide(s, f, verdict).0.Accepted?
    ensures var before := Snapshot(s).rows;
            var after := Snapshot(Decide(s, f, verdict).1).rows;
            var n := |before|;
            && |after| == n + 1 && after[..n] == before
            && NewRowHolds(after[n], "booking_date", Str(f.bookingDate))
            && NewRowHolds(after[n], "start_time", Str(f.startTime))
            && NewRowHolds(after[n], "end_time", Str(f.endTime))
            && NewRowHolds(after[n], "conference_type", Str(f.conferenceType))
            && NewRowHolds(after[n], "person_name", f.personName)
            && NewRowHolds(after[n], "company_name", f.companyName)
            && NewRowHolds(after[n], "affiliation", f.affiliation)
            && NewRowHolds(after[n], "email", f.email)
  {
    DecideAccepted(s, f, verdict);
    EnteredTexts(f);
    InsertedBookingRow(s, Entered(f));
  }

  /** The row has the column, holding that text. */
  predicate NewRowHolds(row: map<string, SqlValue>, column: string, text: string) {
    column in row && row[column] == Text(text)
  }

  /** An accepted booking keeps the store free of overlapping bookings on the
      same date text: the check read every same-day row and found it clear,
      and the new row's interval is the candidate's. */
  lemma AcceptedKeepsNoDoubleBooking(s: Store, f: Form)
    requires ValidStore(s) && NoDoubleBooking(Snapshot(s).rows)
    requires SubmitSpec(s, f).0.Accepted?
    ensures NoDoubleBooking(Snapshot(SubmitSpec(s, f).1).rows)
  {
    var verdict := CheckConflictSpec(s, f.bookingDate, f.startTime, f.endTime);
    AcceptedStoresEnteredValues(s, f, verdict);
    var before := Snapshot(s).rows;
    var after := Snapshot(SubmitSpec(s, f).1).rows;
    var newRow := after[|before|];
    assert after == before + [newRow];
    forall i | 0 <= i < |before| && OnDay(before[i], Str(f.bookingDate))
      ensures RowSpan(newRow).Ok? && ClearRow(before[i], RowSpan(newRow).value)
    {
      NewRowClear(s, f, before[i]);
    }
    AppendClearKeepsNoDoubleBooking(before, newRow, Str(f.bookingDate));
  }

  /** Every stored row on the accepted booking's date text was read and is
      clear of the candidate, whose interval the new row reads back as. */
  lemma NewRowClear(s: Store, f: Form, row: map<string, SqlValue>)
    requires ValidStore(s) && SubmitSpec(s, f).0.Accepted?
    requires row in Snapshot(s).rows && OnDay(row, Str(f.bookingDate))
    ensures var after := Snapshot(SubmitSpec(s, f).1).rows;
            && |after| > |Snapshot(s).rows|
            && RowSpan(after[|Snapshot(s).rows|]).Ok?
            && ClearRow(row, RowSpan(after[|Snapshot(s).rows|]).value)
  {
    var verdict := CheckConflictSpec(s, f.bookingDate, f.startTime, f.endTime);
    AcceptedStoresEnteredValues(s, f, verdict);
    var frame := Snapshot(s);
    var newRow := Snapshot(SubmitSpec(s, f).1).rows[|frame.rows|];
    var day, start, end := Str(f.bookingDate), Str(f.startTime), Str(f.endTime);
    assert "booking_date" in frame.columns by {
      DecideAccepted(s, f, verdict);
      InsertFailures(s, Entered(f));
      assert "booking_date" == InsertColumns[0];
    }
    CheckConflictReadsSnapshot(s, f.bookingDate, f.startTime, f.endTime);
    NoConflictClearsSameDay(frame, day, start, end, row);
    StoredRowSpan(newRow, day, start, end);
  }

  /** A row holding the date and time texts of an interval that parses reads
      back as that interval. */
  lemma StoredRowSpan(row: map<string, SqlValue>, day: string, start: string, end: string)
    requires NewRowHolds(row, "booking_date", day)
    requires NewRowHolds(row, "start_time", start) && NewRowHolds(row, "end_time", end)
    requires Instant(day, start).Ok? && Instant(day, end).Ok?
    ensures RowSpan(row) == Ok(Span(Instant(day, start).value, Instant(day, end).value))
  {
    assert Cell(row, "booking_date") == Ok(Text(day));
    assert Cell(row, "start_time") == Ok(Text(start));
    assert Cell(row, "end_time") == Ok(Text(end));
  }
}
