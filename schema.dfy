/** The bookings table's canonical column list and the DEFAULT literal that
    the migration writes when it adds a missing column (db.py). The literal
    is checked against a reader of SQL literals: what SQLite makes of the
    text is the value the column was declared with. */
module Schema {
  import opened Common
  import opened PyValue
  import opened Table

  /** One entry of the canonical column table: name, declared type, default. */
  datatype ColumnSpec = ColumnSpec(name: string, coltype: string, default: Value)

  /** REQUIRED_COLUMNS, in canonical order. */
  const RequiredColumns: seq<ColumnSpec> := [
    ColumnSpec("booking_date", "TEXT", PyNone),
    ColumnSpec("start_time", "TEXT", PyNone),
    ColumnSpec("end_time", "TEXT", PyNone),
    ColumnSpec("conference_type", "TEXT", PyStr("")),
    ColumnSpec("person_name", "TEXT", PyNone),
    ColumnSpec("company_name", "TEXT", PyNone),
    ColumnSpec("affiliation", "TEXT", PyNone),
    ColumnSpec("email", "TEXT", PyNone)
  ]

  function SpecNames(specs: seq<ColumnSpec>): (names: seq<string>)
    ensures |names| == |specs|
    ensures forall i :: 0 <= i < |specs| ==> names[i] == specs[i].name
  {
    seq(|specs|, i requires 0 <= i < |specs| => specs[i].name)
  }

  /** The canonical names are pairwise different. */
  lemma RequiredNamesDistinct()
    ensures forall i, j :: 0 <= i < j < |RequiredColumns| ==> RequiredColumns[i].name != RequiredColumns[j].name
  {
  }

  /** str.replace("'", "''"): every quote doubled, every other character kept. */
  function DoubleQuotes(s: string): (r: string)
    ensures |r| >= |s|
  {
    if s == [] then []
    else (if s[0] == '\'' then "''" else [s[0]]) + DoubleQuotes(s[1..])
  }

  /** The DEFAULT literal of _add_column: no clause for None, the bare number
      for an int (a bool is an int in Python, printed True or False), and
      otherwise str(default) in single quotes with embedded quotes doubled. */
  function DefaultLiteral(default: Value): Option<string> {
    match default
    case PyNone => None
    case PyInt(_) => Some(Str(default))
    case PyBool(_) => Some(Str(default))
    case _ => Some("'" + DoubleQuotes(Str(default)) + "'")
  }

  /** The value SQLite records for a column declared with this default, before
      the column's type affinity is applied. */
  function DeclaredDefault(default: Value): SqlValue {
    match default
    case PyNone => Null
    case PyInt(i) => Integer(i)
    case PyBool(b) => Integer(if b then 1 else 0)
    case _ => Text(Str(default))
  }

  /** Type affinity: a TEXT column stores a number as its decimal text. Other
      affinities keep the value as it is. */
  function WithAffinity(coltype: string, v: SqlValue): SqlValue {
    if coltype == "TEXT" && v.Integer? then Text(IntToDecimal(v.number)) else v
  }

  /** The value existing rows read for a column added with this spec. */
  function ColumnDefault(spec: ColumnSpec): SqlValue {
    WithAffinity(spec.coltype, DeclaredDefault(spec.default))
  }

  /** The body of a quoted SQL literal after its opening quote: a doubled
      quote stands for one quote, and a single quote closes the literal,
      which must end the text. */
  function ReadQuoted(s: string): Option<string>
    decreases |s|
  {
    if s == [] then None
    else if s[0] == '\'' then
      if |s| == 1 then Some([])
      else if s[1] == '\'' then
        var r :- ReadQuoted(s[2..]);
        Some("'" + r)
      else None
    else
      var r :- ReadQuoted(s[1..]);
      Some([s[0]] + r)
  }

  function AsciiLower(s: string): (r: string)
    ensures |r| == |s|
  {
    if s == [] then []
    else [if 'A' <= s[0] <= 'Z' then (s[0] as int + 32) as char else s[0]] + AsciiLower(s[1..])
  }

  /** What SQLite makes of a DEFAULT literal: a quoted string, a signed
      integer, or the keywords TRUE and FALSE (any case). */
  function ReadSqlLiteral(literal: string): Option<SqlValue> {
    if literal != [] && literal[0] == '\'' then
      var s :- ReadQuoted(literal[1..]);
      Some(Text(s))
    else if |literal| > 1 && literal[0] == '-' && AllDigits(literal[1..]) then
      var magnitude: int := DigitsValue(literal[1..]);
      Some(Integer(-magnitude))
    else if literal != [] && AllDigits(literal) then
      Some(Integer(DigitsValue(literal)))
    else if AsciiLower(literal) == "true" then Some(Integer(1))
    else if AsciiLower(literal) == "false" then Some(Integer(0))
    else None
  }

  /** Un-doubling the quotes of an escaped text gives the text back. */
  lemma {:induction false} QuotedRoundTrip(s: string)
    ensures ReadQuoted(DoubleQuotes(s) + "'") == Some(s)
  {
    if s == [] {
      assert DoubleQuotes(s) + "'" == "'";
    } else {
      QuotedRoundTrip(s[1..]);
      var tail := DoubleQuotes(s[1..]) + "'";
      if s[0] == '\'' {
        assert DoubleQuotes(s) + "'" == "''" + tail;
        assert ("''" + tail)[2..] == tail;
        assert "'" + s[1..] == s;
      } else {
        assert DoubleQuotes(s) + "'" == [s[0]] + tail;
        assert ([s[0]] + tail)[1..] == tail;
        assert [s[0]] + s[1..] == s;
      }
    }
  }

  /** _add_column writes a DEFAULT clause exactly when the default is not
      None, and SQLite reads that clause back as the declared value. */
  lemma DefaultLiteralRoundTrip(default: Value)
    ensures DefaultLiteral(default).None? <==> default == PyNone
    ensures DefaultLiteral(default).Some? ==>
              ReadSqlLiteral(DefaultLiteral(default).value) == Some(DeclaredDefault(default))
  {
    match default
    case PyNone =>
    case PyInt(i) => IntLiteralRoundTrip(i);
    case PyBool(b) => BoolLiteralRoundTrip(b);
    case PyStr(_) => TextLiteralRoundTrip(default);
    case PyDate(_) => TextLiteralRoundTrip(default);
    case PyTime(_) => TextLiteralRoundTrip(default);
  }

  lemma IntLiteralRoundTrip(i: int)
    ensures ReadSqlLiteral(IntToDecimal(i)) == Some(Integer(i))
  {
    var literal := IntToDecimal(i);
    if i < 0 {
      assert literal[1..] == NatToDecimal(-i);
    } else {
      assert literal == NatToDecimal(i);
    }
  }

  lemma BoolLiteralRoundTrip(b: bool)
    ensures ReadSqlLiteral(if b then "True" else "False") == Some(Integer(if b then 1 else 0))
  {
    assert !IsDigit('T') && !IsDigit('F');
    assert AsciiLower("True") == "true";
    assert AsciiLower("False") == "false";
  }

  lemma TextLiteralRoundTrip(default: Value)
    requires !default.PyNone? && !default.PyInt? && !default.PyBool?
    ensures ReadSqlLiteral("'" + DoubleQuotes(Str(default)) + "'") == Some(Text(Str(default)))
  {
    var literal := "'" + DoubleQuotes(Str(default)) + "'";
    assert literal[1..] == DoubleQuotes(Str(default)) + "'";
    QuotedRoundTrip(Str(default));
  }

  /** Different texts get different quoted literals. */
  lemma QuotingIsInjective(s: string, t: string)
    requires DoubleQuotes(s) == DoubleQuotes(t)
    ensures s == t
  {
    QuotedRoundTrip(s);
    QuotedRoundTrip(t);
  }
}
