/** The Python values the booking code handles as loosely typed fields:
    what the form widgets return and what a column default may be. Gives
    their truthiness (`not v`), their text (`str(v)` and f-string
    interpolation) and str.strip(). */
module PyValue {
  import opened Common
  import opened Calendar

  datatype Value =
    | PyNone
    | PyStr(text: string)
    | PyInt(number: int)
    | PyBool(truth: bool)
    | PyDate(date: CivilDate)
    | PyTime(time: CivilTime)

  /** Python truthiness. A datetime.time is true even at midnight (Python 3.5 on). */
  predicate Truthy(v: Value) {
    match v
    case PyNone => false
    case PyStr(s) => s != []
    case PyInt(i) => i != 0
    case PyBool(b) => b
    case PyDate(_) => true
    case PyTime(_) => true
  }

  /** "%02d" for a number below 100. */
  function ZeroPadTwo(n: nat): string
    requires n < 100
  {
    [DigitChar(n / 10), DigitChar(n % 10)]
  }

  /** "%04d" for a number below 10000. */
  function ZeroPadFour(n: nat): string
    requires n < 10000
  {
    ZeroPadTwo(n / 100) + ZeroPadTwo(n % 100)
  }

  /** "%02d" prints exactly two digits whose value is the number. */
  lemma ZeroPadTwoDigits(n: nat)
    requires n < 100
    ensures var s := ZeroPadTwo(n); |s| == 2 && AllDigits(s) && DigitsValue(s) == n
  {
    var s := ZeroPadTwo(n);
    assert s[..1][..0] == [];
    assert DigitsValue(s[..1]) == n / 10;
  }

  /** "%04d" prints exactly four digits whose value is the number. */
  lemma ZeroPadFourDigits(n: nat)
    requires n < 10000
    ensures var s := ZeroPadFour(n); |s| == 4 && AllDigits(s) && DigitsValue(s) == n
  {
    var high, low := ZeroPadTwo(n / 100), ZeroPadTwo(n % 100);
    ZeroPadTwoDigits(n / 100);
    ZeroPadTwoDigits(n % 100);
    DigitsValueSnoc(high, low[0]);
    DigitsValueSnoc(high + [low[0]], low[1]);
    assert high + [low[0]] + [low[1]] == ZeroPadFour(n);
    assert low[0] == DigitChar(n % 100 / 10);
  }

  /** Appending a digit multiplies the value by ten and adds the digit. */
  lemma DigitsValueSnoc(s: string, c: char)
    requires AllDigits(s) && IsDigit(c)
    ensures AllDigits(s + [c]) && DigitsValue(s + [c]) == DigitsValue(s) * 10 + DigitValue(c)
  {
    assert (s + [c])[..|s|] == s;
  }

  /** date.isoformat(): "%04d-%02d-%02d". */
  function DateText(d: CivilDate): string {
    ZeroPadFour(d.year) + "-" + ZeroPadTwo(d.month) + "-" + ZeroPadTwo(d.day)
  }

  /** time.isoformat() when the microsecond is 0: "%02d:%02d:%02d". */
  function TimeText(t: CivilTime): string {
    ZeroPadTwo(t.hour) + (":" + (ZeroPadTwo(t.minute) + (":" + ZeroPadTwo(t.second))))
  }

  /** str(v); f"{v}" gives the same text for every value modelled here. */
  function Str(v: Value): string {
    match v
    case PyNone => "None"
    case PyStr(s) => s
    case PyInt(i) => IntToDecimal(i)
    case PyBool(b) => if b then "True" else "False"
    case PyDate(d) => DateText(d)
    case PyTime(t) => TimeText(t)
  }

  /** Only the empty string has empty text: every other value prints something. */
  lemma StrEmptyOnlyForEmptyString(v: Value)
    ensures Str(v) == [] <==> v == PyStr([])
  {
  }

  /** The characters for which Python's str.isspace() is true. */
  predicate IsSpace(c: char) {
    ('\t' <= c <= '\r') || ('\U{1c}' <= c <= '\U{1f}') || c == ' '
    || c == '\U{85}' || c == '\U{a0}' || c == '\U{1680}'
    || ('\U{2000}' <= c <= '\U{200a}') || c == '\U{2028}' || c == '\U{2029}'
    || c == '\U{202f}' || c == '\U{205f}' || c == '\U{3000}'
  }

  predicate AllSpace(s: string) {
    forall i :: 0 <= i < |s| ==> IsSpace(s[i])
  }

  /** str.lstrip(): the suffix left after dropping leading whitespace. */
  function StripStart(s: string): string {
    if s != [] && IsSpace(s[0]) then StripStart(s[1..]) else s
  }

  /** str.rstrip(): the prefix left after dropping trailing whitespace. */
  function StripEnd(s: string): string {
    if s != [] && IsSpace(s[|s| - 1]) then StripEnd(s[..|s| - 1]) else s
  }

  /** str.strip() */
  function Strip(s: string): string {
    StripEnd(StripStart(s))
  }

  /** lstrip keeps a suffix, drops only whitespace, and stops at a non-space. */
  lemma {:induction false} StripStartShape(s: string)
    ensures var r := StripStart(s);
            && |r| <= |s| && r == s[|s| - |r|..]
            && AllSpace(s[..|s| - |r|])
            && (r == [] || !IsSpace(r[0]))
  {
    if s != [] && IsSpace(s[0]) {
      StripStartShape(s[1..]);
      var r := StripStart(s[1..]);
      assert s[1..][..|s| - 1 - |r|] == s[1..|s| - |r|];
    }
  }

  /** rstrip keeps a prefix, drops only whitespace, and stops at a non-space. */
  lemma {:induction false} StripEndShape(s: string)
    ensures var r := StripEnd(s);
            && |r| <= |s| && r == s[..|r|]
            && AllSpace(s[|r|..])
            && (r == [] || !IsSpace(r[|r| - 1]))
  {
    if s != [] && IsSpace(s[|s| - 1]) {
      StripEndShape(s[..|s| - 1]);
      var r := StripEnd(s[..|s| - 1]);
      assert s[..|s| - 1][|r|..] == s[|r|..|s| - 1];
      assert s[|r|..] == s[|r|..|s| - 1] + [s[|s| - 1]];
    }
  }

  /** `not s.strip()`: a text is blank exactly when every character is whitespace. */
  lemma StripEmptyIffAllSpace(s: string)
    ensures Strip(s) == [] <==> AllSpace(s)
  {
    var t := StripStart(s);
    StripStartShape(s);
    StripEndShape(t);
    if t == [] {
      assert s[..|s| - |t|] == s;
    } else {
      assert !IsSpace(s[|s| - |t|]);
    }
  }
}
