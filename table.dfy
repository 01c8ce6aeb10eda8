/** The tabular values that cross the store boundary: what SQLite hands back
    for a cell, and the pandas DataFrame snapshot built from a SELECT. */
module Table {
  import opened Common

  /** A stored cell: SQL NULL, TEXT or INTEGER. */
  datatype SqlValue = Null | Text(text: string) | Integer(number: int)

  /** f"{v}" of a cell as pandas hands it over: None, the string, the int. */
  function Render(v: SqlValue): string {
    match v
    case Null => "None"
    case Text(s) => s
    case Integer(i) => IntToDecimal(i)
  }

  /** The failures of the store the booking code lets propagate: the table is
      not there, an INSERT names a column the table lacks, or AUTOINCREMENT
      has used up the largest row id. */
  datatype DbError = NoSuchTable | NoSuchColumn(name: string) | DatabaseFull

  /** A DataFrame snapshot: the column labels in order, and each row as a map
      from column label to cell. */
  datatype Frame = Frame(columns: seq<string>, rows: seq<map<string, SqlValue>>)

  /** Every row has a cell for exactly the frame's columns. */
  predicate WellFormed(f: Frame) {
    forall i :: 0 <= i < |f.rows| ==> f.rows[i].Keys == (set c | c in f.columns)
  }

  /** DataFrame.empty: no rows, or no columns. */
  predicate IsEmpty(f: Frame) {
    |f.rows| == 0 || |f.columns| == 0
  }
}
