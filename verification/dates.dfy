/** `pd.to_datetime(df["date"], errors="coerce", format="%m/%d/%Y")`
    (etl.py:63) on one cell: the strptime field syntax, calendar validity and
    the nanosecond Timestamp range, with every failure coerced to a missing
    date. */
module Dates {
  import opened Wrappers
  import opened AsciiText
  import opened Digits

  datatype Date = Date(year: int, month: int, day: int)

  predicate IsLeapYear(y: int) {
    y % 4 == 0 && (y % 100 != 0 || y % 400 == 0)
  }

  function DaysInMonth(y: int, m: int): (n: int)
    requires 1 <= m <= 12
    ensures 28 <= n <= 31
  {
    if m == 2 then (if IsLeapYear(y) then 29 else 28)
    else if m == 4 || m == 6 || m == 9 || m == 11 then 30
    else 31
  }

  /** A day Python's `datetime.date` accepts. */
  predicate ValidDate(d: Date) {
    && 1 <= d.year <= 9999
    && 1 <= d.month <= 12
    && 1 <= d.day <= DaysInMonth(d.year, d.month)
  }

  /** `a` falls on or before `b`. */
  predicate NotAfter(a: Date, b: Date) {
    || a.year < b.year
    || (a.year == b.year && a.month < b.month)
    || (a.year == b.year && a.month == b.month && a.day <= b.day)
  }

  /** The first and last midnights a nanosecond `Timestamp` can hold
      (its range is 1677-09-21 00:12:43.145224193 to 2262-04-11 23:47:16.854775807). */
  const FirstTimestampDay := Date(1677, 9, 22)
  const LastTimestampDay := Date(2262, 4, 11)

  predicate InTimestampRange(d: Date) {
    NotAfter(FirstTimestampDay, d) && NotAfter(d, LastTimestampDay)
  }

  // ---------------------------------------------------------------------------
  // The three strptime fields
  // ---------------------------------------------------------------------------

  /** The `%m` field, `1[0-2]|0[1-9]|[1-9]`, matched against the whole text
      between separators. */
  function MonthField(f: string): (r: Option<int>)
    ensures r.Some? ==> 1 <= r.value <= 12
  {
    if |f| == 1 && '1' <= f[0] <= '9' then Some(DigitValue(f[0]))
    else if |f| == 2 && f[0] == '0' && '1' <= f[1] <= '9' then Some(DigitValue(f[1]))
    else if |f| == 2 && f[0] == '1' && '0' <= f[1] <= '2' then Some(10 + DigitValue(f[1]))
    else None
  }

  /** The `%d` field, `3[01]|[12]\d|0[1-9]|[1-9]| [1-9]`. */
  function DayField(f: string): (r: Option<int>)
    ensures r.Some? ==> 1 <= r.value <= 31
  {
    if |f| == 1 && '1' <= f[0] <= '9' then Some(DigitValue(f[0]))
    else if |f| == 2 && (f[0] == '0' || f[0] == ' ') && '1' <= f[1] <= '9' then Some(DigitValue(f[1]))
    else if |f| == 2 && '1' <= f[0] <= '2' && IsDigit(f[1]) then Some(10 * DigitValue(f[0]) + DigitValue(f[1]))
    else if |f| == 2 && f[0] == '3' && '0' <= f[1] <= '1' then Some(30 + DigitValue(f[1]))
    else None
  }

  /** The `%Y` field, exactly four digits. */
  function YearField(f: string): (r: Option<int>)
    ensures r.Some? ==> 0 <= r.value <= 9999
  {
    if |f| == 4 && AllDigits(f) then
      DigitsValueBound(f);
      Some(DigitsValue(f))
    else
      None
  }

  /** The spellings of month number `m` the `%m` field accepts: two digits,
      or one digit below ten. */
  function MonthSpellings(m: int): set<string> {
    if 1 <= m <= 12 then
      {FixedDigits(m, 2)} + (if m < 10 then {[DigitChar(m)]} else {})
    else
      {}
  }

  /** The spellings of day number `d` the `%d` field accepts: two digits, or
      below ten one digit alone or after a space. */
  function DaySpellings(d: int): set<string> {
    if 1 <= d <= 31 then
      {FixedDigits(d, 2)} + (if d < 10 then {[DigitChar(d)], [' ', DigitChar(d)]} else {})
    else
      {}
  }

  lemma MonthFieldSpec(f: string, m: int)
    ensures MonthField(f) == Some(m) <==> f in MonthSpellings(m)
  {
    if 1 <= m <= 12 {
      TwoDigits(m);
      if |f| == 2 && IsDigit(f[1]) {
        DigitCharOfValue(f[1]);
        assert f == [f[0], f[1]];
      }
      if |f| == 1 && IsDigit(f[0]) {
        DigitCharOfValue(f[0]);
        assert f == [f[0]];
      }
    }
  }

  lemma DayFieldSpec(f: string, d: int)
    ensures DayField(f) == Some(d) <==> f in DaySpellings(d)
  {
    if 1 <= d <= 31 {
      TwoDigits(d);
      if |f| == 2 && IsDigit(f[0]) {
        DigitCharOfValue(f[0]);
      }
      if |f| == 2 && IsDigit(f[1]) {
        DigitCharOfValue(f[1]);
        assert f == [f[0], f[1]];
      }
      if |f| == 1 && IsDigit(f[0]) {
        DigitCharOfValue(f[0]);
        assert f == [f[0]];
      }
    }
  }

  lemma YearFieldSpec(f: string, y: int)
    ensures YearField(f) == Some(y) <==> 0 <= y <= 9999 && f == FixedDigits(y, 4)
  {
    if |f| == 4 && AllDigits(f) {
      DigitsRoundTrip(f);
    }
    if 0 <= y <= 9999 && f == FixedDigits(y, 4) {
      FixedDigitsValue(y, 4);
    }
  }

  // ---------------------------------------------------------------------------
  // Whole cells
  // ---------------------------------------------------------------------------

  /** One date cell under `format="%m/%d/%Y"`, `errors="coerce"`: None is NaT. */
  function ParseDate(s: string): (r: Option<Date>)
    ensures r.Some? ==> ValidDate(r.value) && InTimestampRange(r.value)
  {
    var parts := SplitOn(s, '/');
    if |parts| != 3 then
      None
    else
      match (MonthField(parts[0]), DayField(parts[1]), YearField(parts[2]))
      case (Some(m), Some(d), Some(y)) =>
        var date := Date(y, m, d);
        if ValidDate(date) && InTimestampRange(date) then Some(date) else None
      case _ => None
  }

  /** `s` spells `date` in the format: three slash-separated fields, each one
      of the spellings its directive accepts. */
  predicate Spells(s: string, date: Date) {
    var parts := SplitOn(s, '/');
    && |parts| == 3
    && parts[0] in MonthSpellings(date.month)
    && parts[1] in DaySpellings(date.day)
    && 0 <= date.year <= 9999
    && parts[2] == FixedDigits(date.year, 4)
  }

  /** A cell parses to a date exactly when it spells that date and the date is
      a real calendar day within the Timestamp range. */
  lemma ParseDateSpec(s: string, date: Date)
    ensures ParseDate(s) == Some(date) <==> Spells(s, date) && ValidDate(date) && InTimestampRange(date)
  {
    var parts := SplitOn(s, '/');
    if |parts| == 3 {
      MonthFieldSpec(parts[0], date.month);
      DayFieldSpec(parts[1], date.day);
      YearFieldSpec(parts[2], date.year);
    }
  }

  /** The canonical `MM/DD/YYYY` spelling of a date. */
  function FormatDate(d: Date): (s: string)
    requires ValidDate(d)
    ensures |s| == 10 && s[2] == '/' && s[5] == '/'
  {
    FixedDigits(d.month, 2) + "/" + FixedDigits(d.day, 2) + "/" + FixedDigits(d.year, 4)
  }

  lemma NoSlashInDigits(s: string)
    requires AllDigits(s)
    ensures '/' !in s
  {
  }

  /** Every date in range survives being written as `MM/DD/YYYY` and parsed. */
  lemma FormatThenParse(d: Date)
    requires ValidDate(d) && InTimestampRange(d)
    ensures ParseDate(FormatDate(d)) == Some(d)
  {
    var parts := [FixedDigits(d.month, 2), FixedDigits(d.day, 2), FixedDigits(d.year, 4)];
    NoSlashInDigits(parts[0]);
    NoSlashInDigits(parts[1]);
    NoSlashInDigits(parts[2]);
    assert JoinWith(parts[2..], '/') == parts[2];
    assert JoinWith(parts[1..], '/') == parts[1] + "/" + parts[2];
    assert FormatDate(d) == JoinWith(parts, '/');
    SplitOnJoinWith(parts, '/');
    ParseDateSpec(FormatDate(d), d);
  }

  /** A parsed cell is a spelling of its date, so formatting the date gives the
      cell back up to the optional leading zero or space of month and day. */
  lemma ParseThenFormat(s: string, d: Date)
    requires ParseDate(s) == Some(d)
    ensures Spells(FormatDate(d), d) && Spells(s, d)
  {
    ParseDateSpec(s, d);
    FormatThenParse(d);
    ParseDateSpec(FormatDate(d), d);
  }

  // ---------------------------------------------------------------------------
  // Worked examples
  // ---------------------------------------------------------------------------

  /** The fields of a text made of three slash-free fields. */
  lemma FieldsOf(s: string, parts: seq<string>)
    requires |parts| == 3 && '/' !in parts[0] && '/' !in parts[1] && '/' !in parts[2]
    requires s == parts[0] + "/" + parts[1] + "/" + parts[2]
    ensures SplitOn(s, '/') == parts
  {
    assert parts[1..][1..] == parts[2..];
    assert JoinWith(parts[2..], '/') == parts[2];
    assert JoinWith(parts[1..], '/') == parts[1] + "/" + parts[2];
    assert JoinWith(parts, '/') == s;
    SplitOnJoinWith(parts, '/');
  }

  /** A cell whose three fields read as `date`'s numbers parses to `date`
      exactly when `date` is a real day within the Timestamp range. */
  lemma ParseOfFields(s: string, parts: seq<string>, date: Date)
    requires SplitOn(s, '/') == parts && |parts| == 3
    requires MonthField(parts[0]) == Some(date.month)
    requires DayField(parts[1]) == Some(date.day)
    requires YearField(parts[2]) == Some(date.year)
    ensures ParseDate(s) == (if ValidDate(date) && InTimestampRange(date) then Some(date) else None)
  {
  }

  lemma Year2024()
    ensures YearField("2024") == Some(2024)
  {
    YearFieldSpec("2024", 2024);
  }

  lemma Year2023()
    ensures YearField("2023") == Some(2023)
  {
    YearFieldSpec("2023", 2023);
  }

  lemma Year1500()
    ensures YearField("1500") == Some(1500)
  {
    YearFieldSpec("1500", 1500);
  }

  lemma CanonicalExample(s: string)
    requires s == "01/15/2024"
    ensures ParseDate(s) == Some(Date(2024, 1, 15))
  {
    var parts := ["01", "15", "2024"];
    FieldsOf(s, parts);
    Year2024();
    ParseOfFields(s, parts, Date(2024, 1, 15));
  }

  /** Month and day may drop their leading zero, and the day may pad with a space. */
  lemma ShortFieldsExample(s: string, t: string)
    requires s == "1/5/2024" && t == "1/ 5/2024"
    ensures ParseDate(s) == Some(Date(2024, 1, 5))
    ensures ParseDate(t) == Some(Date(2024, 1, 5))
  {
    FieldsOf(s, ["1", "5", "2024"]);
    FieldsOf(t, ["1", " 5", "2024"]);
    Year2024();
    ParseOfFields(s, ["1", "5", "2024"], Date(2024, 1, 5));
    ParseOfFields(t, ["1", " 5", "2024"], Date(2024, 1, 5));
  }

  /** A 29th of February outside a leap year is coerced to a missing date. */
  lemma NotALeapYearExample(s: string, t: string)
    requires s == "02/29/2023" && t == "02/29/2024"
    ensures ParseDate(s) == None
    ensures ParseDate(t) == Some(Date(2024, 2, 29))
  {
    FieldsOf(s, ["02", "29", "2023"]);
    FieldsOf(t, ["02", "29", "2024"]);
    Year2023();
    Year2024();
    ParseOfFields(s, ["02", "29", "2023"], Date(2023, 2, 29));
    ParseOfFields(t, ["02", "29", "2024"], Date(2024, 2, 29));
  }

  /** A real day before the Timestamp range is coerced to a missing date too. */
  lemma OutOfRangeExample(s: string)
    requires s == "01/15/1500"
    ensures ParseDate(s) == None
  {
    FieldsOf(s, ["01", "15", "1500"]);
    Year1500();
    ParseOfFields(s, ["01", "15", "1500"], Date(1500, 1, 15));
  }

  /** ISO spelling, a thirteenth month and a two-digit year do not match the format. */
  lemma WrongShapeExample(s: string, t: string, u: string)
    requires s == "2024-01-15" && t == "13/01/2024" && u == "01/15/24"
    ensures ParseDate(s) == None && ParseDate(t) == None && ParseDate(u) == None
  {
    SplitOnNoSep(s, '/');
    FieldsOf(t, ["13", "01", "2024"]);
    FieldsOf(u, ["01", "15", "24"]);
  }
}
