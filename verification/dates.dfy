/**
 * Calendar dates, their canonical `Y-m-d` text, and the dispatcher that turns
 * a custom-field value of any shape into a date (DMR_Reports::parse_any_date).
 * The individual format matchers, strtotime and the time-zone conversion are
 * opaque, possibly failing functions supplied in a `Parsers` value; what is
 * modelled is the order in which they are consulted and the soft failure.
 */
module DateParse {
  import opened Options
  import opened Strings
  import opened Numerals

  datatype Date = Date(year: int, month: int, day: int)

  /** Leap years of the proleptic Gregorian calendar that DateTime uses. */
  predicate IsLeapYear(y: int)
  {
    y % 4 == 0 && (y % 100 != 0 || y % 400 == 0)
  }

  /** The number of days in a month of a year. */
  function DaysInMonth(y: int, m: int): (n: int)
    requires 1 <= m <= 12
    ensures 28 <= n <= 31
    ensures m == 2 ==> (n == 29 <==> IsLeapYear(y))
  {
    if m == 2 then (if IsLeapYear(y) then 29 else 28)
    else if m == 4 || m == 6 || m == 9 || m == 11 then 30
    else 31
  }

  predicate ValidDate(d: Date)
  {
    0 <= d.year <= 9999 && 1 <= d.month <= 12 && 1 <= d.day <= DaysInMonth(d.year, d.month)
  }

  /** A date a DateTime can hold and `format('Y-m-d')` prints in ten characters. */
  type CalDate = d: Date | ValidDate(d) witness Date(1970, 1, 1)

  /** DateTime::format('Y-m-d'). */
  function FormatYmd(d: CalDate): (r: string)
    ensures |r| == 10 && r[4] == '-' && r[7] == '-'
    ensures AllDigits(r[..4]) && AllDigits(r[5..7]) && AllDigits(r[8..])
  {
    var y, m, dd := Sprintf04d(d.year), Pad2(d.month), Pad2(d.day);
    var r := y + "-" + m + "-" + dd;
    assert r[..4] == y && r[5..7] == m && r[8..] == dd;
    r
  }

  /** Reads a `YYYY-MM-DD` string back into a date; anything else is None. */
  function ParseYmd(s: string): (r: Option<CalDate>)
    ensures r.Some? ==> |s| == 10
  {
    if |s| == 10 && s[4] == '-' && s[7] == '-' && AllDigits(s[..4]) && AllDigits(s[5..7]) && AllDigits(s[8..]) then
      Pow10Small();
      var y, m, d := DigitsValue(s[..4]), DigitsValue(s[5..7]), DigitsValue(s[8..]);
      if 1 <= m <= 12 && 1 <= d <= DaysInMonth(y, m) then Some(Date(y, m, d)) else None
    else
      None
  }

  /** Formatting then parsing gives the date back. */
  lemma ParseOfFormat(d: CalDate)
    ensures ParseYmd(FormatYmd(d)) == Some(d)
  {
    var r := FormatYmd(d);
    assert r[..4] == Sprintf04d(d.year);
    assert r[5..7] == Pad2(d.month);
    assert r[8..] == Pad2(d.day);
  }

  /** A string that parses is exactly the formatted date: the text is canonical. */
  lemma FormatOfParse(s: string)
    requires ParseYmd(s).Some?
    ensures FormatYmd(ParseYmd(s).value) == s
  {
    var d := ParseYmd(s).value;
    var r := FormatYmd(d);
    var y, m, dd := Sprintf04d(d.year), Pad2(d.month), Pad2(d.day);
    DigitsInjective(y, s[..4]);
    DigitsInjective(m, s[5..7]);
    DigitsInjective(dd, s[8..]);
    assert forall k :: 0 <= k < 10 ==> r[k] == s[k];
  }

  /**
   * The month of a cached report date: the `MM` field of `YYYY-MM-DD`
   * (what date('n', strtotime($date)) yields for such a string).
   */
  function MonthOf(s: string): (m: int)
    requires ParseYmd(s).Some?
    ensures 1 <= m <= 12
    ensures AllDigits(s[5..7]) && m == DigitsValue(s[5..7])
  {
    ParseYmd(s).value.month
  }

  /** The month read back from a formatted date is the date's month. */
  lemma MonthOfFormat(d: CalDate)
    ensures ParseYmd(FormatYmd(d)).Some? && MonthOf(FormatYmd(d)) == d.month
  {
    ParseOfFormat(d);
  }

  /** The shapes a custom-field value can take (PHP `mixed`). */
  datatype Mixed =
    | Null
    | Bool(b: bool)
    | Int(i: int)
    | Str(s: string)
    | DateObject(date: CalDate)   // an instance of DateTimeInterface
    | Array(size: nat)
    | Object                      // any other object

  /** PHP's `!$val`. */
  predicate Falsy(v: Mixed)
  {
    match v
    case Null => true
    case Bool(b) => !b
    case Int(i) => i == 0
    case Str(s) => s == "" || s == "0"
    case Array(n) => n == 0
    case _ => false
  }

  /** preg_match('/^\d{8}$/', $t): eight ASCII digits; `$` also matches before one final newline. */
  predicate EightDigits(t: string)
  {
    (|t| == 8 && AllDigits(t)) || (|t| == 9 && AllDigits(t[..8]) && t[8] == '\n')
  }

  /**
   * `is_numeric($val) && preg_match('/^\d{8}$/', (string)$val)`, returning the
   * text that was matched. An int is always numeric; a string of eight digits,
   * with or without one trailing newline, is numeric under PHP 8.
   */
  function CompactCandidate(v: Mixed): (r: Option<string>)
    ensures r.Some? ==> EightDigits(r.value) && IsIntegerNumeric(r.value)
    // what is taken is the value's own text
    ensures r.Some? ==> (v.Str? && r.value == v.s) || (v.Int? && r.value == IntToString(v.i))
    ensures v.Str? && EightDigits(v.s) ==> r == Some(v.s)
    ensures v.Int? && EightDigits(IntToString(v.i)) ==> r == Some(IntToString(v.i))
  {
    match v
    case Int(i) => IntToStringIsNumeric(i); if EightDigits(IntToString(i)) then Some(IntToString(i)) else None
    case Str(s) => if EightDigits(s) then EightDigitsNumeric(s); Some(s) else None
    case _ => None
  }

  lemma EightDigitsNumeric(t: string)
    requires EightDigits(t)
    ensures IsIntegerNumeric(t)
  {
    if |t| == 8 {
      assert t[..8] == t;
    }
    DigitsThenSpacesNumeric(t, 8);
  }

  /** The date formats tried, in order, on a string (DateTime::RFC3339 spelled out). */
  const StringFormats: seq<string> :=
    ["Y-m-d H:i:s", "Y-m-d", "m/d/Y", "m/d/Y H:i", "d/m/Y", "d/m/Y H:i", "Y-m-d\\TH:i:sP", "Ymd"]

  const CompactFormat: string := "Ymd"

  /**
   * The date primitives the dispatcher consults, all in the site time zone:
   * DateTime::createFromFormat(format, text), strtotime(text) re-read as a
   * DateTime, and the re-reading of an existing DateTimeInterface value.
   */
  datatype Parsers = Parsers(
    fromFormat: (string, string) -> Option<CalDate>,
    strToTime: string -> Option<CalDate>,
    normalize: CalDate -> CalDate)

  /** Whether `i` is the first format in `fs` that accepts `s`. */
  predicate FirstAccepting(p: Parsers, fs: seq<string>, s: string, i: int)
  {
    && 0 <= i < |fs|
    && p.fromFormat(fs[i], s).Some?
    && forall j :: 0 <= j < i ==> p.fromFormat(fs[j], s).None?
  }

  /** Tries the formats in order; the first one that accepts the text decides. */
  function TryFormats(p: Parsers, fs: seq<string>, s: string): (r: Option<CalDate>)
    ensures forall i :: FirstAccepting(p, fs, s, i) ==> r == p.fromFormat(fs[i], s)
    ensures (forall i :: 0 <= i < |fs| ==> p.fromFormat(fs[i], s).None?) ==> r.None?
  {
    if fs == [] then None
    else if p.fromFormat(fs[0], s).Some? then p.fromFormat(fs[0], s)
    else
      var r := TryFormats(p, fs[1..], s);
      assert forall i :: FirstAccepting(p, fs, s, i) ==> FirstAccepting(p, fs[1..], s, i - 1);
      r
  }

  /**
   * DMR_Reports::parse_any_date. Never fails: every value that no primitive
   * accepts yields None.
   */
  function ParseAnyDate(p: Parsers, v: Mixed): (r: Option<CalDate>)
    // a falsy value is no date
    ensures Falsy(v) ==> r.None?
    // eight-digit numeric input goes through `Ymd` alone, successful or not
    ensures !Falsy(v) && CompactCandidate(v).Some? ==> r == p.fromFormat(CompactFormat, CompactCandidate(v).value)
    // other strings: the first accepting format decides ...
    ensures !Falsy(v) && CompactCandidate(v).None? && v.Str? ==>
              forall i :: FirstAccepting(p, StringFormats, v.s, i) ==> r == p.fromFormat(StringFormats[i], v.s)
    // ... and only when none accepts does strtotime get a say
    ensures !Falsy(v) && CompactCandidate(v).None? && v.Str? ==>
              (forall i :: 0 <= i < |StringFormats| ==> p.fromFormat(StringFormats[i], v.s).None?) ==>
              r == p.strToTime(v.s)
    // a date object is re-read in the site time zone
    ensures v.DateObject? ==> r == Some(p.normalize(v.date))
    // anything else (true, non-eight-digit ints, arrays, objects) is no date
    ensures !v.Str? && !v.DateObject? && CompactCandidate(v).None? ==> r.None?
  {
    if Falsy(v) then None
    else if CompactCandidate(v).Some? then p.fromFormat(CompactFormat, CompactCandidate(v).value)
    else
      match v
      case Str(s) =>
        var viaFormat := TryFormats(p, StringFormats, s);
        if viaFormat.Some? then viaFormat else p.strToTime(s)
      case DateObject(d) => Some(p.normalize(d))
      case _ => None
  }
}
