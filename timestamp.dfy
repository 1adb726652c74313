/**
 * The `last_updated` timestamps of stop records: the text `datetime.strftime` writes for the
 * format `%Y-%m-%d-%H:%M:%S`, and the texts `datetime.strptime` accepts for that format.
 */
module Timestamp {
  import opened Wrappers
  import opened Decimal
  import Text

  datatype DateTime = DateTime(year: int, month: int, day: int, hour: int, minute: int, second: int)

  predicate IsLeapYear(y: int) {
    y % 4 == 0 && (y % 100 != 0 || y % 400 == 0)
  }

  function DaysInMonth(y: int, m: int): (n: int)
    requires 1 <= m <= 12
    ensures 28 <= n <= 31
  {
    if m == 2 then (if IsLeapYear(y) then 29 else 28)
    else if m == 4 || m == 6 || m == 9 || m == 11 then 30
    else 31
  }

  /** The values Python's `datetime` constructor accepts. */
  predicate ValidDateTime(t: DateTime) {
    && 1 <= t.year <= 9999
    && 1 <= t.month <= 12
    && 1 <= t.day <= DaysInMonth(t.year, t.month)
    && 0 <= t.hour <= 23
    && 0 <= t.minute <= 59
    && 0 <= t.second <= 59
  }

  /** The text before and after the first `sep` in `s`. */
  function SplitAt(s: string, sep: char): (r: Option<(string, string)>)
    ensures r.Some? <==> sep in s
    ensures r.Some? ==> sep !in r.value.0 && s == r.value.0 + [sep] + r.value.1
  {
    if sep in s then
      var i := Text.IndexOf(s, sep);
      assert s == s[..i] + [sep] + s[i + 1..];
      Some((s[..i], s[i + 1..]))
    else None
  }

  /**
   * A `%m`, `%H`, `%M` or `%S` field as one or two ASCII digits (the range is then checked on
   * the value). `strptime`'s patterns for `%H`, `%M` and `%S` use `\d`, which also matches the
   * other Unicode decimal digits; this model reads ASCII digits only.
   */
  function NumberField(t: string): (r: Option<int>)
    ensures r.Some? ==> 0 <= r.value <= 99
  {
    if |t| == 1 && IsDigit(t[0]) then Some(DigitValue(t[0]))
    else if |t| == 2 && IsDigit(t[0]) && IsDigit(t[1]) then Some(10 * DigitValue(t[0]) + DigitValue(t[1]))
    else None
  }

  /** A `%d` field: one or two ASCII digits, or a space followed by a digit from 1 to 9 (ASCII only, as for `%H`). */
  function DayField(t: string): (r: Option<int>)
    ensures r.Some? ==> 0 <= r.value <= 99
  {
    if |t| == 2 && t[0] == ' ' && '1' <= t[1] <= '9' then Some(DigitValue(t[1]))
    else NumberField(t)
  }

  /** A `%Y` field: exactly four ASCII digits (`strptime`'s `\d` would also take other Unicode decimal digits). */
  function YearField(t: string): (r: Option<int>)
    ensures r.Some? ==> 0 <= r.value <= 9999
  {
    if |t| == 4 && AllDigits(t) then
      Some(1000 * DigitValue(t[0]) + 100 * DigitValue(t[1]) + 10 * DigitValue(t[2]) + DigitValue(t[3]))
    else None
  }

  /** The six field texts of a timestamp, before their values are read. */
  datatype Fields = Fields(year: string, month: string, day: string, hour: string, minute: string, second: string)

  /**
   * Cuts `s` at its separators the way `strptime`'s pattern does: four characters of year,
   * then each field runs up to the next separator, and the seconds run to the end.
   */
  function SplitFields(s: string): Option<Fields>
  {
    if |s| < 5 || s[4] != '-' then None
    else
      match SplitAt(s[5..], '-')
      case None => None
      case Some((mo, r1)) =>
        match SplitAt(r1, '-')
        case None => None
        case Some((da, r2)) =>
          match SplitAt(r2, ':')
          case None => None
          case Some((ho, r3)) =>
            match SplitAt(r3, ':')
            case None => None
            case Some((mi, se)) => Some(Fields(s[..4], mo, da, ho, mi, se))
  }

  /** The date and time the field texts denote, if each is well formed and they form a real date. */
  function ReadFields(f: Fields): (r: Option<DateTime>)
    ensures r.Some? ==> ValidDateTime(r.value)
  {
    var year, month, day, hour, minute, second :=
      YearField(f.year), NumberField(f.month), DayField(f.day), NumberField(f.hour), NumberField(f.minute), NumberField(f.second);
    if year.None? || month.None? || day.None? || hour.None? || minute.None? || second.None? then None
    else
      var t := DateTime(year.value, month.value, day.value, hour.value, minute.value, second.value);
      if ValidDateTime(t) then Some(t) else None
  }

  /**
   * `datetime.strptime(s, '%Y-%m-%d-%H:%M:%S')`: the date and time `s` denotes, or None where
   * Python raises ValueError. The year is exactly four digits; the other fields may have one or
   * two; nothing may follow the seconds; the day must exist in its month.
   */
  function ParseTime(s: string): (r: Option<DateTime>)
    ensures r.Some? ==> ValidDateTime(r.value)
  {
    match SplitFields(s)
    case None => None
    case Some(f) => ReadFields(f)
  }

  /** `checktime` of the patch endpoint: true exactly when `strptime` does not raise. */
  predicate CheckTime(s: string) {
    ParseTime(s).Some?
  }

  /** Two digits, zero padded, as `strftime` writes `%m`, `%d`, `%H`, `%M` and `%S`. */
  function Pad2(n: int): (s: string)
    requires 0 <= n <= 99
    ensures |s| == 2 && AllDigits(s)
  {
    [DigitChar(n / 10), DigitChar(n % 10)]
  }

  /** Four digits, zero padded, as `strftime` writes `%Y`. */
  function Pad4(n: int): (s: string)
    requires 0 <= n <= 9999
    ensures |s| == 4 && AllDigits(s)
  {
    Pad2(n / 100) + Pad2(n % 100)
  }

  /** The six field texts with their separators: `Y-m-d-H:M:S`. */
  function Layout(f: Fields): string {
    f.year + "-" + (f.month + "-" + (f.day + "-" + (f.hour + ":" + (f.minute + ":" + f.second))))
  }

  /** `t.strftime('%Y-%m-%d-%H:%M:%S')`: the text the endpoints store as `last_updated`. */
  function Format(t: DateTime): string
    requires ValidDateTime(t)
  {
    Layout(Fields(Pad4(t.year), Pad2(t.month), Pad2(t.day), Pad2(t.hour), Pad2(t.minute), Pad2(t.second)))
  }

  lemma Pad2Value(n: int)
    requires 0 <= n <= 99
    ensures NumberField(Pad2(n)) == Some(n) && DayField(Pad2(n)) == Some(n)
  {
  }

  lemma Pad4Value(n: int)
    requires 0 <= n <= 9999
    ensures YearField(Pad4(n)) == Some(n)
  {
  }

  lemma SplitAtFirst(a: string, sep: char, b: string)
    requires sep !in a
    ensures SplitAt(a + [sep] + b, sep) == Some((a, b))
  {
    Text.IndexOfAfter(a, sep, b);
    var s := a + [sep] + b;
    assert s[..|a|] == a;
    assert s[|a| + 1..] == b;
  }

  /** Text laid out as four year characters and five separated fields splits back into them. */
  lemma SplitFieldsOf(f: Fields)
    requires |f.year| == 4 && '-' !in f.month && '-' !in f.day && ':' !in f.hour && ':' !in f.minute
    ensures SplitFields(Layout(f)) == Some(f)
  {
    var r3 := f.minute + ":" + f.second;
    var r2 := f.hour + ":" + r3;
    var r1 := f.day + "-" + r2;
    var r0 := f.month + "-" + r1;
    var s := Layout(f);
    assert s == f.year + "-" + r0;
    assert s[..4] == f.year;
    assert s[4] == '-';
    assert s[5..] == r0;
    SplitAtFirst(f.month, '-', r1);
    SplitAtFirst(f.day, '-', r2);
    SplitAtFirst(f.hour, ':', r3);
    SplitAtFirst(f.minute, ':', f.second);
  }

  /** Every clock reading the endpoints store reads back as itself, so it passes `checktime`. */
  lemma FormatRoundTrip(t: DateTime)
    requires ValidDateTime(t)
    ensures ParseTime(Format(t)) == Some(t)
    ensures CheckTime(Format(t))
  {
    var f := Fields(Pad4(t.year), Pad2(t.month), Pad2(t.day), Pad2(t.hour), Pad2(t.minute), Pad2(t.second));
    Pad4Value(t.year);
    Pad2Value(t.month); Pad2Value(t.day); Pad2Value(t.hour); Pad2Value(t.minute); Pad2Value(t.second);
    NoSeparatorInDigits(f.month, '-');
    NoSeparatorInDigits(f.day, '-');
    NoSeparatorInDigits(f.hour, ':');
    NoSeparatorInDigits(f.minute, ':');
    SplitFieldsOf(f);
    assert Format(t) == Layout(f);
    assert ReadFields(f) == Some(t);
  }

  lemma NoSeparatorInDigits(s: string, sep: char)
    requires AllDigits(s) && !IsDigit(sep)
    ensures sep !in s
  {
  }

  /** Reading a layout back only depends on the field texts. */
  lemma ParseOfLayout(f: Fields)
    requires |f.year| == 4 && '-' !in f.month && '-' !in f.day && ':' !in f.hour && ':' !in f.minute
    ensures ParseTime(Layout(f)) == ReadFields(f)
  {
    SplitFieldsOf(f);
  }

  lemma ShortNumberValue(n: int)
    requires 0 <= n <= 99
    ensures NumberField(NatToString(n)) == Some(n) && DayField(NatToString(n)) == Some(n)
  {
    if n >= 10 {
      assert NatToString(n) == [DigitChar(n / 10), DigitChar(n % 10)];
    }
  }

  /**
   * `strptime` is more lenient than the stored format: the same date and time written without
   * zero padding (`2025-3-8-9:5:7`) is accepted too.
   */
  lemma UnpaddedFieldsAccepted(t: DateTime)
    requires ValidDateTime(t)
    ensures ParseTime(Layout(Fields(Pad4(t.year), NatToString(t.month), NatToString(t.day),
                                     NatToString(t.hour), NatToString(t.minute), NatToString(t.second)))) == Some(t)
  {
    var f := Fields(Pad4(t.year), NatToString(t.month), NatToString(t.day),
                    NatToString(t.hour), NatToString(t.minute), NatToString(t.second));
    Pad4Value(t.year);
    ShortNumberValue(t.month); ShortNumberValue(t.day); ShortNumberValue(t.hour);
    ShortNumberValue(t.minute); ShortNumberValue(t.second);
    NoSeparatorInDigits(f.month, '-');
    NoSeparatorInDigits(f.day, '-');
    NoSeparatorInDigits(f.hour, ':');
    NoSeparatorInDigits(f.minute, ':');
    ParseOfLayout(f);
  }

  /** A day that does not exist in its month (the 29th of February 2023, say) is rejected. */
  lemma NonexistentDayRejected(t: DateTime)
    requires 1 <= t.year <= 9999 && 1 <= t.month <= 12 && DaysInMonth(t.year, t.month) < t.day <= 99
    requires 0 <= t.hour <= 23 && 0 <= t.minute <= 59 && 0 <= t.second <= 59
    ensures ParseTime(Layout(Fields(Pad4(t.year), Pad2(t.month), Pad2(t.day), Pad2(t.hour), Pad2(t.minute), Pad2(t.second)))) == None
  {
    var f := Fields(Pad4(t.year), Pad2(t.month), Pad2(t.day), Pad2(t.hour), Pad2(t.minute), Pad2(t.second));
    Pad4Value(t.year);
    Pad2Value(t.month); Pad2Value(t.day); Pad2Value(t.hour); Pad2Value(t.minute); Pad2Value(t.second);
    NoSeparatorInDigits(f.month, '-');
    NoSeparatorInDigits(f.day, '-');
    NoSeparatorInDigits(f.hour, ':');
    NoSeparatorInDigits(f.minute, ':');
    ParseOfLayout(f);
  }

  /** Anything after two digits of seconds is rejected, as `strptime` rejects unconverted data. */
  lemma TrailingTextRejected(f: Fields)
    requires |f.year| == 4 && '-' !in f.month && '-' !in f.day && ':' !in f.hour && ':' !in f.minute
    requires |f.second| > 2
    ensures ParseTime(Layout(f)) == None
  {
    ParseOfLayout(f);
    assert NumberField(f.second) == None;
    assert ReadFields(f) == None;
  }
}
