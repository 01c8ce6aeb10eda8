/** Reading dates and times from text the way datetime.strptime does for the
    two formats the booking code uses: "%Y-%m-%d %H:%M:%S" (conflict check)
    and "%H:%M:%S" with "%H:%M" as fallback (timeline).

    CPython compiles a format into a regular expression whose numeric fields
    are lenient about width: %Y is exactly four digits, %m, %H, %M and %S one
    or two digits, %d one or two digits or a space and one non-zero digit, and
    a blank in the format matches one or more whitespace characters. Every
    field is followed by a non-digit (or by the end of the text, which must
    then be reached), so a field reads exactly the run of digits in front of
    it. Out-of-range values (month 13, hour 24, second 60, 30 February) are
    rejected, either by the pattern or by the datetime constructor. */
module Strptime {
  import opened Common
  import opened Calendar
  import PyValue

  /** What a field read: its value and the text after it. */
  datatype Scanned = Scanned(value: nat, rest: string)

  /** Length of the run of digits at the start of s. */
  function DigitRun(s: string): (n: nat)
    ensures n <= |s|
  {
    if s != [] && IsDigit(s[0]) then 1 + DigitRun(s[1..]) else 0
  }

  /** The run is all digits, and a non-digit (or the end) follows it. */
  lemma {:induction false} DigitRunShape(s: string)
    ensures AllDigits(s[..DigitRun(s)])
    ensures DigitRun(s) < |s| ==> !IsDigit(s[DigitRun(s)])
  {
    if s != [] && IsDigit(s[0]) {
      DigitRunShape(s[1..]);
      assert s[..DigitRun(s)] == [s[0]] + s[1..][..DigitRun(s[1..])];
    }
  }

  /** A numeric field of minWidth to maxWidth digits. */
  function Number(s: string, minWidth: nat, maxWidth: nat): (r: Option<Scanned>)
    ensures r.Some? ==> |r.value.rest| < |s| && (r.value.rest == [] || !IsDigit(r.value.rest[0]))
  {
    var n := DigitRun(s);
    DigitRunShape(s);
    if minWidth <= n <= maxWidth && 0 < n then Some(Scanned(DigitsValue(s[..n]), s[n..])) else None
  }

  function Literal(s: string, c: char): Option<string> {
    if s != [] && s[0] == c then Some(s[1..]) else None
  }

  /** Length of the run of whitespace at the start of s. */
  function SpaceRun(s: string): (n: nat)
    ensures n <= |s|
  {
    if s != [] && PyValue.IsSpace(s[0]) then 1 + SpaceRun(s[1..]) else 0
  }

  /** A blank in the format: one or more whitespace characters. */
  function Spaces(s: string): Option<string> {
    var n := SpaceRun(s);
    if n >= 1 then Some(s[n..]) else None
  }

  /** %d: one or two digits, or a space followed by one non-zero digit. */
  function DayNumber(s: string): Option<Scanned> {
    if s != [] && s[0] == ' ' then
      var d :- Number(s[1..], 1, 1);
      if d.value >= 1 then Some(d) else None
    else Number(s, 1, 2)
  }

  function Seconds(hour: int, minute: int, second: int): int {
    hour * 3600 + minute * 60 + second
  }

  /** "%H:%M:%S" matched against the whole text, as seconds since midnight. */
  function ParseHMS(s: string): (r: Option<int>)
    ensures r.Some? ==> 0 <= r.value < 86400
  {
    var h :- Number(s, 1, 2);
    var r1 :- Literal(h.rest, ':');
    var m :- Number(r1, 1, 2);
    var r2 :- Literal(m.rest, ':');
    var sec :- Number(r2, 1, 2);
    if sec.rest == [] && h.value <= 23 && m.value <= 59 && sec.value <= 59 then
      Some(Seconds(h.value, m.value, sec.value))
    else None
  }

  /** "%H:%M" matched against the whole text, as seconds since midnight. */
  function ParseHM(s: string): (r: Option<int>)
    ensures r.Some? ==> 0 <= r.value < 86400 && r.value % 60 == 0
  {
    var h :- Number(s, 1, 2);
    var r1 :- Literal(h.rest, ':');
    var m :- Number(r1, 1, 2);
    if m.rest == [] && h.value <= 23 && m.value <= 59 then Some(Seconds(h.value, m.value, 0))
    else None
  }

  /** What "%Y-%m-%d" read: the (not yet validated) date and the text after it. */
  datatype DateScan = DateScan(date: Date, rest: string)

  /** The "%Y-%m-%d" prefix of a text. */
  function DatePart(s: string): Option<DateScan> {
    var y :- Number(s, 4, 4);
    var r1 :- Literal(y.rest, '-');
    var mo :- Number(r1, 1, 2);
    var r2 :- Literal(mo.rest, '-');
    var d :- DayNumber(r2);
    Some(DateScan(Date(y.value, mo.value, d.value), d.rest))
  }

  /** "%Y-%m-%d %H:%M:%S" matched against the whole text. */
  function ParseDateTime(s: string): (r: Option<DateTime>)
    ensures r.Some? ==> ValidDate(r.value.date) && 0 <= r.value.seconds < 86400
  {
    var date :- DatePart(s);
    var clock :- Spaces(date.rest);
    var seconds :- ParseHMS(clock);
    if ValidDate(date.date) then Some(DateTime(date.date, seconds)) else None
  }

  /** A field reads all the digits in front of the next non-digit. */
  lemma {:induction false} NumberReads(digits: string, rest: string, minWidth: nat, maxWidth: nat)
    requires AllDigits(digits) && 0 < |digits| && minWidth <= |digits| <= maxWidth
    requires rest == [] || !IsDigit(rest[0])
    ensures Number(digits + rest, minWidth, maxWidth) == Some(Scanned(DigitsValue(digits), rest))
  {
    DigitRunStops(digits, rest);
    assert (digits + rest)[..|digits|] == digits;
    assert (digits + rest)[|digits|..] == rest;
  }

  lemma {:induction false} DigitRunStops(digits: string, rest: string)
    requires AllDigits(digits)
    requires rest == [] || !IsDigit(rest[0])
    ensures DigitRun(digits + rest) == |digits|
  {
    if digits != [] {
      assert (digits + rest)[1..] == digits[1..] + rest;
      DigitRunStops(digits[1..], rest);
    } else {
      assert digits + rest == rest;
    }
  }

  /** Two-digit zero-padded text of a number below 100 reads back as that number. */
  lemma TwoDigitsRead(n: nat, rest: string, minWidth: nat)
    requires n < 100 && minWidth <= 2
    requires rest == [] || !IsDigit(rest[0])
    ensures Number(PyValue.ZeroPadTwo(n) + rest, minWidth, 2) == Some(Scanned(n, rest))
  {
    PyValue.ZeroPadTwoDigits(n);
    NumberReads(PyValue.ZeroPadTwo(n), rest, minWidth, 2);
  }

  /** The text of a datetime.time reads back, under "%H:%M:%S", as the same time of day. */
  lemma TimeTextRoundTrip(t: CivilTime)
    ensures ParseHMS(PyValue.TimeText(t)) == Some(SecondsOfDay(t))
  {
    TimeTextLayout(t);
    ClockTextReads(PyValue.TimeText(t), t);
  }

  /** The text of a datetime.time is "HH:MM:SS", each pair the decimal digits of its field. */
  lemma TimeTextLayout(t: CivilTime)
    ensures var s := PyValue.TimeText(t);
      |s| == 8 && s[2] == ':' && s[5] == ':'
      && AllDigits(s[..2]) && DigitsValue(s[..2]) == t.hour
      && AllDigits(s[3..5]) && DigitsValue(s[3..5]) == t.minute
      && AllDigits(s[6..]) && DigitsValue(s[6..]) == t.second
  {
    var s := PyValue.TimeText(t);
    PyValue.ZeroPadTwoDigits(t.hour);
    PyValue.ZeroPadTwoDigits(t.minute);
    PyValue.ZeroPadTwoDigits(t.second);
    assert s[..2] == PyValue.ZeroPadTwo(t.hour);
    assert s[3..5] == PyValue.ZeroPadTwo(t.minute);
    assert s[6..] == PyValue.ZeroPadTwo(t.second);
  }

  /** Eight characters "HH:MM:SS" whose digit pairs are in range read, under
      "%H:%M:%S", as the time of day they spell. */
  lemma ClockTextReads(s: string, t: CivilTime)
    requires |s| == 8 && s[2] == ':' && s[5] == ':'
    requires AllDigits(s[..2]) && DigitsValue(s[..2]) == t.hour
    requires AllDigits(s[3..5]) && DigitsValue(s[3..5]) == t.minute
    requires AllDigits(s[6..]) && DigitsValue(s[6..]) == t.second
    ensures ParseHMS(s) == Some(SecondsOfDay(t))
  {
    assert s == s[..2] + s[2..];
    NumberReads(s[..2], s[2..], 1, 2);
    assert s[2..][1..] == s[3..];
    assert s[3..] == s[3..5] + s[5..];
    NumberReads(s[3..5], s[5..], 1, 2);
    assert s[5..][1..] == s[6..];
    assert s[6..] == s[6..] + [];
    NumberReads(s[6..], [], 1, 2);
  }

  /** The single blank in front of a digit is what a blank in the format reads. */
  lemma SingleBlank(s: string)
    requires s != [] && IsDigit(s[0])
    ensures Spaces(" " + s) == Some(s)
  {
    assert (" " + s)[1..] == s;
    assert SpaceRun(s) == 0;
  }

  /** The text of a datetime.date reads back, under "%Y-%m-%d", as the same date. */
  lemma DateTextReads(d: CivilDate, rest: string)
    requires rest == [] || !IsDigit(rest[0])
    ensures DatePart(PyValue.DateText(d) + rest) == Some(DateScan(d, rest))
  {
    var yyyy, mm, dd := PyValue.ZeroPadFour(d.year), PyValue.ZeroPadTwo(d.month), PyValue.ZeroPadTwo(d.day);
    var tail2 := "-" + (dd + rest);
    var tail1 := "-" + (mm + tail2);
    assert PyValue.DateText(d) + rest == yyyy + tail1;
    PyValue.ZeroPadFourDigits(d.year);
    NumberReads(yyyy, tail1, 4, 4);
    assert Literal(tail1, '-') == Some(mm + tail2);
    TwoDigitsRead(d.month, tail2, 1);
    assert Literal(tail2, '-') == Some(dd + rest);
    TwoDigitsRead(d.day, rest, 1);
    assert DayNumber(dd + rest) == Some(Scanned(d.day, rest));
  }

  /** The text the conflict check builds from a datetime.date and a datetime.time
      reads back as that date and time: widget values never fail to parse. */
  lemma DateTimeTextRoundTrip(d: CivilDate, t: CivilTime)
    ensures ParseDateTime(PyValue.DateText(d) + " " + PyValue.TimeText(t))
            == Some(DateTime(d, SecondsOfDay(t)))
  {
    var clock := PyValue.TimeText(t);
    var tail := " " + clock;
    assert PyValue.DateText(d) + " " + clock == PyValue.DateText(d) + tail;
    DateTextReads(d, tail);
    SingleBlank(clock);
    TimeTextRoundTrip(t);
  }
}
