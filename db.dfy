/** The bookings table as an in-memory store (db.py): an ordered column list,
    the rows in storage order and the AUTOINCREMENT counter. The specification
    functions on a Store value say what each operation does; the BookingStore
    class holds the same state in fields and its methods are proved against
    those functions. */
module Db {
  import opened Common
  import opened PyValue
  import opened Table
  import opened Schema
  import opened Conflict

  /** The largest rowid SQLite hands out; AUTOINCREMENT then fails with SQLITE_FULL. */
  const MaxRowId: int := 0x7fff_ffff_ffff_ffff

  /** A column of the table: name, declared type and the value a row gets when
      an INSERT does not name the column. */
  datatype Column = Column(name: string, coltype: string, default: SqlValue)

  /** A stored row: its rowid and one cell per column other than id. */
  datatype Row = Row(id: int, cells: map<string, SqlValue>)

  /** The database: whether the bookings table exists, its columns in
      declaration order, its rows in rowid order, and the largest rowid ever
      handed out (the sqlite_sequence entry). */
  datatype Store = Store(hasTable: bool, columns: seq<Column>, rows: seq<Row>, lastId: int)

  /** A database file with no bookings table. */
  const EmptyStore := Store(false, [], [], 0)

  function ColumnNames(columns: seq<Column>): (names: seq<string>)
    ensures |names| == |columns|
    ensures forall i :: 0 <= i < |columns| ==> names[i] == columns[i].name
  {
    seq(|columns|, i requires 0 <= i < |columns| => columns[i].name)
  }

  function NameSet(columns: seq<Column>): set<string> {
    set n | n in ColumnNames(columns)
  }

  predicate Distinct(names: seq<string>) {
    forall i, j :: 0 <= i < j < |names| ==> names[i] != names[j]
  }

  /** The cells every row must have: one per column, the rowid apart. */
  function CellNames(columns: seq<Column>): set<string> {
    NameSet(columns) - {"id"}
  }

  /** What every reachable database satisfies. Reachable means the table, if
      any, was made by this program's own CREATE TABLE (db.py:43-57), which
      always declares `id INTEGER PRIMARY KEY AUTOINCREMENT`; a table made by
      another program with no `id` column is outside the model. */
  predicate ValidStore(s: Store) {
    && (!s.hasTable ==> s.columns == [] && s.rows == [] && s.lastId == 0)
    && (s.hasTable ==> "id" in NameSet(s.columns))
    && Distinct(ColumnNames(s.columns))
    && 0 <= s.lastId <= MaxRowId
    && (forall i :: 0 <= i < |s.rows| ==> s.rows[i].cells.Keys == CellNames(s.columns))
    && (forall i :: 0 <= i < |s.rows| ==> 1 <= s.rows[i].id <= s.lastId)
    && (forall i, j :: 0 <= i < j < |s.rows| ==> s.rows[i].id < s.rows[j].id)
  }

  // ---------------------------------------------------------------------
  // init_db

  /** The shape CREATE TABLE gives a new table: the rowid column, then the
      eight TEXT columns, none with a DEFAULT clause. */
  const CreatedColumns: seq<Column> := [
    Column("id", "INTEGER", Null),
    Column("booking_date", "TEXT", Null),
    Column("start_time", "TEXT", Null),
    Column("end_time", "TEXT", Null),
    Column("conference_type", "TEXT", Null),
    Column("person_name", "TEXT", Null),
    Column("company_name", "TEXT", Null),
    Column("affiliation", "TEXT", Null),
    Column("email", "TEXT", Null)
  ]

  /** CREATE TABLE IF NOT EXISTS: an existing table is left as it is. */
  function CreateTable(s: Store): Store {
    if s.hasTable then s else Store(true, CreatedColumns, [], s.lastId)
  }

  /** The column ALTER TABLE ADD COLUMN declares for a canonical entry. */
  function ColumnFor(spec: ColumnSpec): Column {
    Column(spec.name, spec.coltype, ColumnDefault(spec))
  }

  /** ALTER TABLE ADD COLUMN: the column goes last and every existing row
      reads the column's default in it. */
  function AddColumnTo(s: Store, spec: ColumnSpec): Store {
    Store(s.hasTable, s.columns + [ColumnFor(spec)],
          seq(|s.rows|, i requires 0 <= i < |s.rows| =>
            Row(s.rows[i].id, s.rows[i].cells[spec.name := ColumnDefault(spec)])),
          s.lastId)
  }

  /** The columns a run of ALTER TABLE statements appends. */
  function AddedColumns(specs: seq<ColumnSpec>): (cols: seq<Column>)
    ensures ColumnNames(cols) == SpecNames(specs)
  {
    seq(|specs|, i requires 0 <= i < |specs| => ColumnFor(specs[i]))
  }

  /** The cells a run of ALTER TABLE statements adds to every existing row. */
  function DefaultCells(specs: seq<ColumnSpec>): map<string, SqlValue> {
    if specs == [] then map[]
    else DefaultCells(specs[..|specs| - 1])[specs[|specs| - 1].name := ColumnDefault(specs[|specs| - 1])]
  }

  /** The canonical entries, in canonical order, whose names are not in existing. */
  function MissingSpecs(existing: set<string>, specs: seq<ColumnSpec>): (r: seq<ColumnSpec>)
    ensures |r| <= |specs|
    ensures forall i :: 0 <= i < |r| ==> r[i] in specs && r[i].name !in existing
  {
    if specs == [] then []
    else
      var last := specs[|specs| - 1];
      MissingSpecs(existing, specs[..|specs| - 1]) + (if last.name in existing then [] else [last])
  }

  /** ALTER TABLE ADD COLUMN for each entry, in order. */
  function AddColumns(s: Store, specs: seq<ColumnSpec>): (r: Store)
    ensures r.hasTable == s.hasTable && r.lastId == s.lastId
    ensures r.columns == s.columns + AddedColumns(specs)
    ensures |r.rows| == |s.rows|
    ensures forall i :: 0 <= i < |s.rows| ==> r.rows[i] == Row(s.rows[i].id, s.rows[i].cells + DefaultCells(specs))
  {
    if specs == [] then
      assert forall i :: 0 <= i < |s.rows| ==> s.rows[i].cells + map[] == s.rows[i].cells;
      s
    else
      var prefix := specs[..|specs| - 1];
      var last := specs[|specs| - 1];
      var mid := AddColumns(s, prefix);
      var r := AddColumnTo(mid, last);
      assert AddedColumns(specs) == AddedColumns(prefix) + [ColumnFor(last)];
      assert forall i :: 0 <= i < |s.rows| ==> r.rows[i].cells == s.rows[i].cells + DefaultCells(specs) by {
        forall i | 0 <= i < |s.rows|
          ensures r.rows[i].cells == s.rows[i].cells + DefaultCells(specs)
        {
          MergeThenSet(s.rows[i].cells, DefaultCells(prefix), last.name, ColumnDefault(last));
        }
      }
      r
  }

  /** Setting a key after a merge is merging the updated map. */
  lemma MergeThenSet(m: map<string, SqlValue>, d: map<string, SqlValue>, k: string, v: SqlValue)
    ensures (m + d)[k := v] == m + d[k := v]
  {
  }

  /** init_db: create the table if needed, then add every canonical column
      the table did not have when the migration started. */
  function InitDbSpec(s: Store): Store {
    var created := CreateTable(s);
    AddColumns(created, MissingSpecs(NameSet(created.columns), RequiredColumns))
  }

  // ---------------------------------------------------------------------
  // add_booking

  /** The eight fields add_booking writes, already coerced to text. */
  datatype Booking = Booking(
    bookingDate: string, startTime: string, endTime: string, conferenceType: string,
    personName: string, companyName: string, affiliation: string, email: string)

  /** `str(v) if v is not None else ""`: date, start and end. */
  function TextUnlessNone(v: Value): (s: string)
    ensures s == [] <==> v == PyNone || v == PyStr([])
  {
    StrEmptyOnlyForEmptyString(v);
    if v.PyNone? then "" else Str(v)
  }

  /** `str(v or "")`: the other five fields. */
  function TextUnlessFalsy(v: Value): (s: string)
    ensures s == [] <==> !Truthy(v)
  {
    StrEmptyOnlyForEmptyString(v);
    if Truthy(v) then Str(v) else ""
  }

  /** The normalisation at the top of add_booking. */
  function Coerce(bookingDate: Value, startTime: Value, endTime: Value, conferenceType: Value,
                  personName: Value, companyName: Value, affiliation: Value, email: Value): Booking
  {
    Booking(TextUnlessNone(bookingDate), TextUnlessNone(startTime), TextUnlessNone(endTime),
            TextUnlessFalsy(conferenceType), TextUnlessFalsy(personName), TextUnlessFalsy(companyName),
            TextUnlessFalsy(affiliation), TextUnlessFalsy(email))
  }

  /** The column list of the INSERT statement. */
  const InsertColumns: seq<string> := [
    "booking_date", "start_time", "end_time", "conference_type",
    "person_name", "company_name", "affiliation", "email"
  ]

  /** The INSERT's bound parameters, by column. */
  function BookingCells(b: Booking): map<string, SqlValue> {
    map[
      "booking_date" := Text(b.bookingDate), "start_time" := Text(b.startTime),
      "end_time" := Text(b.endTime), "conference_type" := Text(b.conferenceType),
      "person_name" := Text(b.personName), "company_name" := Text(b.companyName),
      "affiliation" := Text(b.affiliation), "email" := Text(b.email)]
  }

  /** The first name of the list that is not a column of the table. */
  function FirstAbsent(names: seq<string>, present: set<string>): (r: Option<string>)
    ensures r.None? <==> forall i :: 0 <= i < |names| ==> names[i] in present
    ensures r.Some? ==> exists k :: 0 <= k < |names| && names[k] == r.value && r.value !in present
                                    && forall j :: 0 <= j < k ==> names[j] in present
  {
    if names == [] then None
    else if names[0] !in present then Some(names[0])
    else
      var r := FirstAbsent(names[1..], present);
      if r.Some? then
        var k :| 0 <= k < |names[1..]| && names[1..][k] == r.value && r.value !in present
                 && forall j :: 0 <= j < k ==> names[1..][j] in present;
        assert names[k + 1] == r.value;
        r
      else r
  }

  /** The cells of an inserted row: the given value where the INSERT names the
      column, the column's default elsewhere, and no cell for the rowid. */
  function RowCells(columns: seq<Column>, given: map<string, SqlValue>): (m: map<string, SqlValue>)
    ensures m.Keys == CellNames(columns)
  {
    if columns == [] then map[]
    else
      var prefix := columns[..|columns| - 1];
      var last := columns[|columns| - 1];
      var m := RowCells(prefix, given);
      assert ColumnNames(columns) == ColumnNames(prefix) + [last.name];
      if last.name == "id" then m
      else m[last.name := if last.name in given then given[last.name] else last.default]
  }

  /** INSERT INTO bookings (...) VALUES (...): the failures SQLite reports, or
      the store with one more row under the next rowid. */
  function Insert(s: Store, b: Booking): Result<Store, DbError> {
    if !s.hasTable then Err(NoSuchTable)
    else match FirstAbsent(InsertColumns, NameSet(s.columns))
      case Some(name) => Err(NoSuchColumn(name))
      case None =>
        if s.lastId >= MaxRowId then Err(DatabaseFull)
        else Ok(Store(true, s.columns, s.rows + [Row(s.lastId + 1, RowCells(s.columns, BookingCells(b)))], s.lastId + 1))
  }

  // ---------------------------------------------------------------------
  // get_bookings

  /** A row as SELECT * returns it: the rowid under "id" with the other cells. */
  function RowView(r: Row): map<string, SqlValue> {
    r.cells["id" := Integer(r.id)]
  }

  function Snapshot(s: Store): Frame {
    Frame(ColumnNames(s.columns), seq(|s.rows|, i requires 0 <= i < |s.rows| => RowView(s.rows[i])))
  }

  /** pd.read_sql_query("SELECT * FROM bookings"): every row in rowid order. */
  function GetBookings(s: Store): Result<Frame, DbError> {
    if s.hasTable then Ok(Snapshot(s)) else Err(NoSuchTable)
  }

  /** check_conflict: the snapshot's failure, or the verdict on the snapshot. */
  function CheckConflictSpec(s: Store, date: Value, start: Value, end: Value): Result<Verdict, ConflictError> {
    match GetBookings(s)
    case Err(e) => Err(ReadFailed(e))
    case Ok(f) => CheckConflictOn(f, Str(date), Str(start), Str(end))
  }

  /** A verdict, when there is one, is the verdict on get_bookings' snapshot. */
  lemma CheckConflictReadsSnapshot(s: Store, date: Value, start: Value, end: Value)
    requires CheckConflictSpec(s, date, start, end).Ok?
    ensures s.hasTable
    ensures CheckConflictSpec(s, date, start, end) == CheckConflictOn(Snapshot(s), Str(date), Str(start), Str(end))
  {
  }

  // ---------------------------------------------------------------------
  // The store as a mutable object

  class BookingStore {
    var hasTable: bool
    var columns: seq<Column>
    var rows: seq<Row>
    var lastId: int

    function State(): Store
      reads this
    {
      Store(hasTable, columns, rows, lastId)
    }

    predicate Valid()
      reads this
    {
      ValidStore(State())
    }

    /** A database file without the bookings table. */
    constructor ()
      ensures Valid() && State() == EmptyStore
    {
      hasTable, columns, rows, lastId := false, [], [], 0;
    }

    /** A database file already holding this state. */
    constructor Open(s: Store)
      requires ValidStore(s)
      ensures Valid() && State() == s
    {
      hasTable, columns, rows, lastId := s.hasTable, s.columns, s.rows, s.lastId;
    }

    /** CREATE TABLE IF NOT EXISTS bookings (...) */
    method CreateIfMissing()
      requires Valid()
      modifies this
      ensures Valid() && hasTable && State() == CreateTable(old(State()))
    {
      CreateTableKeepsValid(State());
      if !hasTable {
        hasTable, columns, rows := true, CreatedColumns, [];
      }
    }

    /** _add_column: ALTER TABLE bookings ADD COLUMN with the spec's DEFAULT clause. */
    method AddColumn(spec: ColumnSpec)
      requires Valid() && hasTable && spec.name !in NameSet(columns) && spec.name != "id"
      modifies this
      ensures Valid() && State() == AddColumnTo(old(State()), spec)
    {
      AddColumnKeepsValid(State(), spec);
      var v := ColumnDefault(spec);
      var old_rows := rows;
      rows := seq(|old_rows|, i requires 0 <= i < |old_rows| => Row(old_rows[i].id, old_rows[i].cells[spec.name := v]));
      columns := columns + [ColumnFor(spec)];
      assert State() == AddColumnTo(old(State()), spec);
    }

    /** init_db: create the table, read its column names once, then add each
        canonical column that was missing, in canonical order. */
    method InitDb()
      requires Valid()
      modifies this
      ensures Valid() && State() == InitDbSpec(old(State()))
    {
      CreateIfMissing();
      ghost var created := State();
      var existing := NameSet(columns);
      var i := 0;
      while i < |RequiredColumns|
        invariant 0 <= i <= |RequiredColumns|
        invariant Valid() && hasTable
        invariant State() == AddColumns(created, MissingSpecs(existing, RequiredColumns[..i]))
      {
        MigrateColumn(created, existing, i);
        i := i + 1;
      }
      assert RequiredColumns[..i] == RequiredColumns;
    }

    /** One pass of init_db's loop: add canonical column i unless the table
        had it before the migration started. */
    method MigrateColumn(ghost created: Store, existing: set<string>, i: nat)
      requires ValidStore(created) && created.hasTable && existing == NameSet(created.columns)
      requires i < |RequiredColumns|
      requires Valid() && State() == AddColumns(created, MissingSpecs(existing, RequiredColumns[..i]))
      modifies this
      ensures Valid() && hasTable
      ensures State() == AddColumns(created, MissingSpecs(existing, RequiredColumns[..i + 1]))
    {
      var spec := RequiredColumns[i];
      ghost var added := MissingSpecs(existing, RequiredColumns[..i]);
      MissingSpecsStep(existing, RequiredColumns, i);
      if spec.name !in existing {
        NotYetAdded(created, existing, i);
        AddColumn(spec);
        AddColumnsSnoc(created, added, spec);
      } else {
        assert added + [] == added;
      }
    }

    /** add_booking: coerce the eight fields and insert one row. */
    method AddBooking(bookingDate: Value, startTime: Value, endTime: Value, conferenceType: Value,
                      personName: Value, companyName: Value, affiliation: Value, email: Value)
      returns (r: Result<(), DbError>)
      requires Valid()
      modifies this
      ensures Valid()
      ensures var expected := Insert(old(State()), Coerce(bookingDate, startTime, endTime, conferenceType,
                                                          personName, companyName, affiliation, email));
              match expected
              case Ok(s) => r == Ok(()) && State() == s
              case Err(e) => r == Err(e) && State() == old(State())
    {
      var b := Coerce(bookingDate, startTime, endTime, conferenceType, personName, companyName, affiliation, email);
      r := InsertBooking(b);
    }

    /** The INSERT statement with the coerced fields as its parameters. */
    method InsertBooking(b: Booking) returns (r: Result<(), DbError>)
      requires Valid()
      modifies this
      ensures Valid()
      ensures match Insert(old(State()), b)
              case Ok(s) => r == Ok(()) && State() == s
              case Err(e) => r == Err(e) && State() == old(State())
    {
      if !hasTable {
        return Err(NoSuchTable);
      }
      var absent := FirstAbsent(InsertColumns, NameSet(columns));
      if absent.Some? {
        return Err(NoSuchColumn(absent.value));
      }
      if lastId >= MaxRowId {
        return Err(DatabaseFull);
      }
      ghost var before := State();
      var newRow := Row(lastId + 1, RowCells(columns, BookingCells(b)));
      assert Insert(before, b) == Ok(Store(true, columns, rows + [newRow], lastId + 1));
      InsertKeepsValid(before, b);
      rows, lastId := rows + [newRow], lastId + 1;
      return Ok(());
    }

    /** check_conflict: read the snapshot (get_bookings), then check the candidate against it. */
    method CheckConflict(date: Value, start: Value, end: Value) returns (r: Result<Verdict, ConflictError>)
      ensures r == CheckConflictSpec(State(), date, start, end)
    {
      if !hasTable {
        return Err(ReadFailed(NoSuchTable));
      }
      r := CheckFrame(Snapshot(State()), Str(date), Str(start), Str(end));
    }
  }

  // ---------------------------------------------------------------------
  // Lemmas: the store stays well formed

  lemma ColumnNamesAppend(a: seq<Column>, b: seq<Column>)
    ensures ColumnNames(a + b) == ColumnNames(a) + ColumnNames(b)
  {
  }

  /** The created table has the rowid column first and then the canonical names, all distinct. */
  lemma CreatedShape()
    ensures ColumnNames(CreatedColumns) == ["id"] + SpecNames(RequiredColumns)
    ensures Distinct(ColumnNames(CreatedColumns))
  {
    assert ColumnNames(CreatedColumns) == ["id"] + SpecNames(RequiredColumns);
  }

  lemma CreateTableKeepsValid(s: Store)
    requires ValidStore(s)
    ensures ValidStore(CreateTable(s)) && CreateTable(s).hasTable
  {
    CreatedShape();
    assert "id" == ColumnNames(CreatedColumns)[0];
  }

  /** Names of a list whose two parts are each distinct and share nothing are distinct. */
  lemma DistinctAppend(a: seq<string>, b: seq<string>)
    requires Distinct(a) && Distinct(b)
    requires forall i :: 0 <= i < |b| ==> b[i] !in a
    ensures Distinct(a + b)
  {
    forall i, j | 0 <= i < j < |a + b|
      ensures (a + b)[i] != (a + b)[j]
    {
      if j >= |a| && i < |a| {
        assert (a + b)[j] == b[j - |a|];
      }
    }
  }

  /** The names a run of ALTER TABLE statements adds. */
  function SpecNameSet(specs: seq<ColumnSpec>): set<string> {
    set n | n in SpecNames(specs)
  }

  /** Adding columns with new, distinct names other than id keeps the store well formed. */
  lemma AddColumnsKeepsValid(s: Store, specs: seq<ColumnSpec>)
    requires ValidStore(s) && s.hasTable
    requires Distinct(SpecNames(specs))
    requires forall i :: 0 <= i < |specs| ==> specs[i].name !in NameSet(s.columns) && specs[i].name != "id"
    ensures ValidStore(AddColumns(s, specs))
    ensures NameSet(AddColumns(s, specs).columns) == NameSet(s.columns) + SpecNameSet(specs)
  {
    var r := AddColumns(s, specs);
    AddColumnsNames(s, specs);
    AddColumnsKeys(s, specs);
    assert forall i :: 0 <= i < |r.rows| ==> r.rows[i].id == s.rows[i].id;
  }

  lemma AddColumnsNames(s: Store, specs: seq<ColumnSpec>)
    requires Distinct(ColumnNames(s.columns)) && Distinct(SpecNames(specs))
    requires forall i :: 0 <= i < |specs| ==> specs[i].name !in NameSet(s.columns)
    ensures Distinct(ColumnNames(AddColumns(s, specs).columns))
    ensures NameSet(AddColumns(s, specs).columns) == NameSet(s.columns) + SpecNameSet(specs)
  {
    ColumnNamesAppend(s.columns, AddedColumns(specs));
    DistinctAppend(ColumnNames(s.columns), SpecNames(specs));
  }

  lemma AddColumnsKeys(s: Store, specs: seq<ColumnSpec>)
    requires forall i :: 0 <= i < |s.rows| ==> s.rows[i].cells.Keys == CellNames(s.columns)
    requires forall i :: 0 <= i < |specs| ==> specs[i].name != "id"
    ensures var r := AddColumns(s, specs);
            forall i :: 0 <= i < |r.rows| ==> r.rows[i].cells.Keys == CellNames(r.columns)
  {
    var r := AddColumns(s, specs);
    ColumnNamesAppend(s.columns, AddedColumns(specs));
    assert NameSet(r.columns) == NameSet(s.columns) + SpecNameSet(specs);
    DefaultCellsKeys(specs);
    assert CellNames(r.columns) == CellNames(s.columns) + SpecNameSet(specs);
  }

  /** Adding a column whose name is new keeps the store well formed. */
  lemma AddColumnKeepsValid(s: Store, spec: ColumnSpec)
    requires ValidStore(s) && s.hasTable && spec.name !in NameSet(s.columns) && spec.name != "id"
    ensures ValidStore(AddColumnTo(s, spec))
  {
    assert AddColumns(s, [spec]) == AddColumnTo(s, spec) by {
      assert [spec][..0] == [];
    }
    AddColumnsKeepsValid(s, [spec]);
  }

  /** A successful insert keeps the store well formed. */
  lemma InsertKeepsValid(s: Store, b: Booking)
    requires ValidStore(s) && Insert(s, b).Ok?
    ensures ValidStore(Insert(s, b).value)
  {
  }

  lemma RequiredSpecNamesDistinct()
    ensures Distinct(SpecNames(RequiredColumns))
  {
    RequiredNamesDistinct();
  }

  /** The entries that are kept keep their relative order, so distinct names stay distinct. */
  lemma {:induction false} MissingSpecsDistinct(existing: set<string>, specs: seq<ColumnSpec>)
    requires Distinct(SpecNames(specs))
    ensures Distinct(SpecNames(MissingSpecs(existing, specs)))
  {
    if specs != [] {
      var prefix := specs[..|specs| - 1];
      var last := specs[|specs| - 1];
      assert SpecNames(prefix) == SpecNames(specs)[..|specs| - 1];
      MissingSpecsDistinct(existing, prefix);
      var m := MissingSpecs(existing, prefix);
      forall k | 0 <= k < |m|
        ensures m[k].name != last.name
      {
        var j :| 0 <= j < |prefix| && prefix[j] == m[k];
        assert SpecNames(specs)[j] != SpecNames(specs)[|specs| - 1];
      }
      if last.name !in existing {
        DistinctAppend(SpecNames(m), [last.name]);
        assert SpecNames(m + [last]) == SpecNames(m) + [last.name];
      } else {
        assert m + [] == m;
      }
    }
  }

  /** Adding one more column extends the run of ALTER TABLE statements by one. */
  lemma AddColumnsSnoc(s: Store, specs: seq<ColumnSpec>, spec: ColumnSpec)
    ensures AddColumns(s, specs + [spec]) == AddColumnTo(AddColumns(s, specs), spec)
  {
    assert (specs + [spec])[..|specs|] == specs;
  }

  /** Nothing is missing when every name is already there. */
  lemma NoneMissing(existing: set<string>, specs: seq<ColumnSpec>)
    requires forall i :: 0 <= i < |specs| ==> specs[i].name in existing
    ensures MissingSpecs(existing, specs) == []
  {
  }

  /** Every entry whose name is absent is kept. */
  lemma {:induction false} MissingSpecsComplete(existing: set<string>, specs: seq<ColumnSpec>, i: nat)
    requires i < |specs| && specs[i].name !in existing
    ensures specs[i] in MissingSpecs(existing, specs)
  {
    if i < |specs| - 1 {
      MissingSpecsComplete(existing, specs[..|specs| - 1], i);
    }
  }

  /** One more loop step of the migration considers one more entry. */
  lemma MissingSpecsStep(existing: set<string>, specs: seq<ColumnSpec>, i: nat)
    requires i < |specs|
    ensures MissingSpecs(existing, specs[..i + 1])
            == MissingSpecs(existing, specs[..i]) + (if specs[i].name in existing then [] else [specs[i]])
  {
    assert specs[..i + 1][..i] == specs[..i];
  }

  /** The migration only ever adds canonical columns that were absent, so every
      canonical name other than id is still absent when the loop reaches it. */
  lemma NotYetAdded(created: Store, existing: set<string>, i: nat)
    requires ValidStore(created) && created.hasTable && existing == NameSet(created.columns)
    requires i < |RequiredColumns| && RequiredColumns[i].name !in existing
    ensures RequiredColumns[i].name != "id"
    ensures RequiredColumns[i].name !in NameSet(AddColumns(created, MissingSpecs(existing, RequiredColumns[..i])).columns)
  {
    var m := MissingSpecs(existing, RequiredColumns[..i]);
    RequiredNamesDistinct();
    ColumnNamesAppend(created.columns, AddedColumns(m));
    forall k | 0 <= k < |m|
      ensures m[k].name != RequiredColumns[i].name
    {
      assert m[k] in RequiredColumns[..i];
      var j :| 0 <= j < i && RequiredColumns[j] == m[k];
    }
  }

  /** The migration keeps the store well formed, and afterwards the table has
      its old columns and exactly the canonical ones that were missing. */
  lemma InitDbKeepsValid(s: Store)
    requires ValidStore(s)
    ensures ValidStore(InitDbSpec(s))
    ensures var created := CreateTable(s);
            NameSet(InitDbSpec(s).columns)
            == NameSet(created.columns) + SpecNameSet(MissingSpecs(NameSet(created.columns), RequiredColumns))
  {
    var created := CreateTable(s);
    CreateTableKeepsValid(s);
    var existing := NameSet(created.columns);
    var missing := MissingSpecs(existing, RequiredColumns);
    RequiredSpecNamesDistinct();
    MissingSpecsDistinct(existing, RequiredColumns);
    forall k | 0 <= k < |missing|
      ensures missing[k].name !in existing && missing[k].name != "id"
    {
      assert "id" in existing;
    }
    AddColumnsKeepsValid(created, missing);
  }

  // ---------------------------------------------------------------------
  // Lemmas: what the migration guarantees

  /** After init_db the table exists and has the rowid column and every canonical column. */
  lemma InitDbHasAllColumns(s: Store)
    requires ValidStore(s)
    ensures InitDbSpec(s).hasTable
    ensures "id" in NameSet(InitDbSpec(s).columns)
    ensures forall i :: 0 <= i < |RequiredColumns| ==> RequiredColumns[i].name in NameSet(InitDbSpec(s).columns)
  {
    InitDbKeepsValid(s);
    var created := CreateTable(s);
    CreateTableKeepsValid(s);
    var existing := NameSet(created.columns);
    var missing := MissingSpecs(existing, RequiredColumns);
    forall i | 0 <= i < |RequiredColumns| && RequiredColumns[i].name !in existing
      ensures RequiredColumns[i].name in SpecNameSet(missing)
    {
      MissingSpecsComplete(existing, RequiredColumns, i);
      var k :| 0 <= k < |missing| && missing[k] == RequiredColumns[i];
      assert SpecNames(missing)[k] == RequiredColumns[i].name;
    }
  }

  /** init_db is additive: the table's columns are a prefix of the new list,
      and what follows is exactly the canonical entries that were missing, in
      canonical order. Rows keep their ids and their cells, and each row reads
      every added column's default. */
  lemma InitDbIsAdditive(s: Store)
    requires ValidStore(s) && s.hasTable
    ensures var r := InitDbSpec(s);
            var missing := MissingSpecs(NameSet(s.columns), RequiredColumns);
            && r.columns == s.columns + AddedColumns(missing)
            && |r.rows| == |s.rows|
            && (forall i :: 0 <= i < |s.rows| ==> r.rows[i].id == s.rows[i].id)
            && (forall i, c :: 0 <= i < |s.rows| && c in s.rows[i].cells ==>
                  c in r.rows[i].cells && r.rows[i].cells[c] == s.rows[i].cells[c])
            && (forall i, k :: 0 <= i < |s.rows| && 0 <= k < |missing| ==>
                  missing[k].name in r.rows[i].cells && r.rows[i].cells[missing[k].name] == ColumnDefault(missing[k]))
  {
    var missing := MissingSpecs(NameSet(s.columns), RequiredColumns);
    assert InitDbSpec(s) == AddColumns(s, missing);
    RequiredSpecNamesDistinct();
    MissingSpecsDistinct(NameSet(s.columns), RequiredColumns);
    AddColumnsCells(s, missing);
  }

  /** Added columns never overwrite a cell a row already had, and each row
      reads every added column's default. */
  lemma AddColumnsCells(s: Store, specs: seq<ColumnSpec>)
    requires ValidStore(s)
    requires Distinct(SpecNames(specs))
    requires forall k :: 0 <= k < |specs| ==> specs[k].name !in NameSet(s.columns)
    ensures var r := AddColumns(s, specs);
            && (forall i, c :: 0 <= i < |s.rows| && c in s.rows[i].cells ==>
                  c in r.rows[i].cells && r.rows[i].cells[c] == s.rows[i].cells[c])
            && (forall i, k :: 0 <= i < |s.rows| && 0 <= k < |specs| ==>
                  specs[k].name in r.rows[i].cells && r.rows[i].cells[specs[k].name] == ColumnDefault(specs[k]))
  {
    var r := AddColumns(s, specs);
    DefaultCellsKeys(specs);
    forall i, k | 0 <= i < |s.rows| && 0 <= k < |specs|
      ensures specs[k].name in r.rows[i].cells && r.rows[i].cells[specs[k].name] == ColumnDefault(specs[k])
    {
      DefaultCellsRead(specs, k);
    }
    forall i, c | 0 <= i < |s.rows| && c in s.rows[i].cells
      ensures c !in DefaultCells(specs)
    {
    }
  }

  lemma {:induction false} DefaultCellsKeys(specs: seq<ColumnSpec>)
    ensures DefaultCells(specs).Keys == SpecNameSet(specs)
  {
    if specs != [] {
      var prefix := specs[..|specs| - 1];
      DefaultCellsKeys(prefix);
      assert SpecNames(specs) == SpecNames(prefix) + [specs[|specs| - 1].name];
      assert SpecNameSet(specs) == SpecNameSet(prefix) + {specs[|specs| - 1].name};
    }
  }

  /** With distinct names, every added column's cell holds that column's default. */
  lemma {:induction false} DefaultCellsRead(specs: seq<ColumnSpec>, k: nat)
    requires Distinct(SpecNames(specs)) && k < |specs|
    ensures specs[k].name in DefaultCells(specs)
    ensures DefaultCells(specs)[specs[k].name] == ColumnDefault(specs[k])
  {
    if k < |specs| - 1 {
      var prefix := specs[..|specs| - 1];
      assert SpecNames(prefix) == SpecNames(specs)[..|specs| - 1];
      assert SpecNames(specs)[k] != SpecNames(specs)[|specs| - 1];
      DefaultCellsRead(prefix, k);
    }
  }

  /** A database file with no table gets exactly the created shape: no migration runs. */
  lemma InitDbOnFreshFile()
    ensures InitDbSpec(EmptyStore) == Store(true, CreatedColumns, [], 0)
  {
    var existing := NameSet(CreatedColumns);
    CreatedShape();
    forall i | 0 <= i < |RequiredColumns|
      ensures RequiredColumns[i].name in existing
    {
      assert ColumnNames(CreatedColumns)[i + 1] == RequiredColumns[i].name;
    }
    NoneMissing(existing, RequiredColumns);
    assert AddedColumns([]) == [];
  }

  /** Running init_db twice is the same as running it once: the second run adds
      no column and changes no row. */
  lemma InitDbIsIdempotent(s: Store)
    requires ValidStore(s)
    ensures InitDbSpec(InitDbSpec(s)) == InitDbSpec(s)
  {
    var r := InitDbSpec(s);
    assert CreateTable(r) == r && MissingSpecs(NameSet(r.columns), RequiredColumns) == [] by {
      InitDbHasAllColumns(s);
      NoneMissing(NameSet(r.columns), RequiredColumns);
    }
    AddNothing(r);
  }

  /** An empty run of ALTER TABLE statements leaves the store as it was. */
  lemma AddNothing(s: Store)
    ensures AddColumns(s, []) == s
  {
    assert AddedColumns([]) == [];
    assert s.columns + [] == s.columns;
    assert forall i :: 0 <= i < |s.rows| ==> s.rows[i].cells + map[] == s.rows[i].cells;
  }

  /** An old table without conference_type gets it with the empty-text
      default, so every row stored before the migration reads "". */
  lemma MigratedConferenceTypeReadsEmpty(s: Store)
    requires ValidStore(s) && s.hasTable && "conference_type" !in NameSet(s.columns)
    ensures forall i :: 0 <= i < |s.rows| ==>
              "conference_type" in InitDbSpec(s).rows[i].cells
              && InitDbSpec(s).rows[i].cells["conference_type"] == Text("")
  {
    var missing := MissingSpecs(NameSet(s.columns), RequiredColumns);
    var spec := RequiredColumns[3];
    assert spec.name == "conference_type" && ColumnDefault(spec) == Text("");
    MissingSpecsComplete(NameSet(s.columns), RequiredColumns, 3);
    var k :| 0 <= k < |missing| && missing[k] == spec;
    InitDbIsAdditive(s);
    forall i | 0 <= i < |s.rows|
      ensures "conference_type" in InitDbSpec(s).rows[i].cells
      ensures InitDbSpec(s).rows[i].cells["conference_type"] == Text("")
    {
      assert missing[k].name in InitDbSpec(s).rows[i].cells;
    }
  }

  // ---------------------------------------------------------------------
  // Lemmas: what add_booking and get_bookings guarantee

  /** The date fields' coercion and the other fields' coercion store the same
      text for every value except 0 and False, which the date fields store as
      their text and the other fields as "". */
  lemma CoercionsDiffer(v: Value)
    ensures TextUnlessNone(v) != TextUnlessFalsy(v) <==> v == PyInt(0) || v == PyBool(false)
    ensures TextUnlessNone(v) != TextUnlessFalsy(v) ==> TextUnlessFalsy(v) == "" && TextUnlessNone(v) == Str(v)
  {
  }

  /** The INSERT names exactly the canonical columns. */
  lemma InsertColumnsAreCanonical()
    ensures InsertColumns == SpecNames(RequiredColumns)
  {
  }

  /** The insert fails exactly when the table is missing, one of the eight
      columns is missing, or the rowid counter is exhausted, in that order of precedence. */
  lemma InsertFailures(s: Store, b: Booking)
    ensures Insert(s, b) == Err(NoSuchTable) <==> !s.hasTable
    ensures (exists n :: Insert(s, b) == Err(NoSuchColumn(n))) <==>
              s.hasTable && exists i :: 0 <= i < |InsertColumns| && InsertColumns[i] !in NameSet(s.columns)
    ensures Insert(s, b) == Err(DatabaseFull) <==>
              s.hasTable && (forall i :: 0 <= i < |InsertColumns| ==> InsertColumns[i] in NameSet(s.columns))
              && s.lastId >= MaxRowId
  {
  }

  /** After init_db, an insert can only fail for lack of rowids. */
  lemma InsertAfterInitDb(s: Store, b: Booking)
    requires ValidStore(s)
    ensures InitDbSpec(s).lastId < MaxRowId ==> Insert(InitDbSpec(s), b).Ok?
  {
    InitDbHasAllColumns(s);
    InsertColumnsAreCanonical();
    assert forall i :: 0 <= i < |InsertColumns| ==> InsertColumns[i] == RequiredColumns[i].name;
  }

  /** add_booking appends exactly one row, under a rowid larger than every
      earlier one; a following get_bookings returns the earlier rows unchanged
      and then the new row, holding the eight coerced texts. */
  lemma InsertThenRead(s: Store, b: Booking)
    requires ValidStore(s) && Insert(s, b).Ok?
    ensures var t := Insert(s, b).value;
            var before := Snapshot(s);
            var after := Snapshot(t);
            && GetBookings(t) == Ok(after)
            && after.columns == before.columns
            && |after.rows| == |before.rows| + 1
            && after.rows[..|before.rows|] == before.rows
            && after.rows[|before.rows|]["id"] == Integer(t.lastId)
            && (forall i :: 0 <= i < |s.rows| ==> s.rows[i].id < t.lastId)
            && (forall c :: c in BookingCells(b) ==>
                  c in after.rows[|before.rows|] && after.rows[|before.rows|][c] == BookingCells(b)[c])
  {
    var t := Insert(s, b).value;
    var view := RowView(t.rows[|s.rows|]);
    forall c | c in BookingCells(b)
      ensures c in view && view[c] == BookingCells(b)[c]
    {
      assert c in InsertColumns;
      assert c in CellNames(s.columns);
      RowCellsGiven(s.columns, BookingCells(b), c);
    }
    assert Snapshot(t).rows[..|s.rows|] == Snapshot(s).rows;
  }

  /** A named column takes the value the INSERT gives it. */
  lemma {:induction false} RowCellsGiven(columns: seq<Column>, given: map<string, SqlValue>, c: string)
    requires c in given && c in CellNames(columns)
    ensures RowCells(columns, given)[c] == given[c]
  {
    var prefix := columns[..|columns| - 1];
    var last := columns[|columns| - 1];
    assert ColumnNames(columns) == ColumnNames(prefix) + [last.name];
    if last.name != c {
      RowCellsGiven(prefix, given, c);
    }
  }

  /** The snapshot of a well-formed store is a well-formed frame whose rows
      all carry distinct ids. */
  lemma SnapshotWellFormed(s: Store)
    requires ValidStore(s)
    ensures WellFormed(Snapshot(s))
    ensures forall i, j :: 0 <= i < j < |s.rows| ==> Snapshot(s).rows[i]["id"] != Snapshot(s).rows[j]["id"]
  {
  }
}
