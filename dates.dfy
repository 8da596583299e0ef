/**
 * Calendar dates as Python's `datetime.date` treats them: a date is its
 * proleptic Gregorian ordinal (0001-01-01 has ordinal 1 and was a Monday),
 * `weekday()` counts Monday as 0, adding a `timedelta` adds days to the
 * ordinal, and dates compare by ordinal. Text is turned into dates by the two
 * `strptime` formats the application uses, `%Y-%m-%d` and `%d/%m/%Y`.
 */
module Dates {
  import opened Wrappers
  import opened Text

  datatype Date = Date(ordinal: int)

  /** `date.weekday()`: Monday is 0, Sunday is 6. */
  function Weekday(d: Date): (w: int)
    ensures 0 <= w < 7
  {
    (d.ordinal + 6) % 7
  }

  /** `d + timedelta(days=n)`. */
  function AddDays(d: Date, n: int): Date {
    Date(d.ordinal + n)
  }

  /** `a < b` on dates. */
  predicate Before(a: Date, b: Date) {
    a.ordinal < b.ordinal
  }

  /** The Monday that starts the Monday-to-Sunday week holding `d`. */
  function WeekStart(d: Date): (m: Date)
    ensures Weekday(m) == 0
    ensures m.ordinal <= d.ordinal < m.ordinal + 7
  {
    AddDays(d, -Weekday(d))
  }

  /** Moving `n` days moves the weekday by `n` modulo 7. */
  lemma WeekdayAddDays(d: Date, n: int)
    ensures Weekday(AddDays(d, n)) == (Weekday(d) + n) % 7
  {
  }

  // ---- Civil (year, month, day) dates ----

  datatype Civil = Civil(year: int, month: int, day: int)

  predicate IsLeap(y: int) {
    y % 4 == 0 && (y % 100 != 0 || y % 400 == 0)
  }

  function DaysInMonth(y: int, m: int): (n: int)
    requires 1 <= m <= 12
    ensures 28 <= n <= 31
  {
    if m == 2 then (if IsLeap(y) then 29 else 28)
    else if m == 4 || m == 6 || m == 9 || m == 11 then 30
    else 31
  }

  function DaysInYear(y: int): int {
    if IsLeap(y) then 366 else 365
  }

  /** A date `datetime.date` accepts: `MINYEAR` is 1, `MAXYEAR` is 9999. */
  predicate ValidCivil(c: Civil) {
    1 <= c.year <= 9999 && 1 <= c.month <= 12 && 1 <= c.day <= DaysInMonth(c.year, c.month)
  }

  function DaysBeforeYear(y: int): int
    requires y >= 1
  {
    var p := y - 1;
    p * 365 + p / 4 - p / 100 + p / 400
  }

  function DaysBeforeMonth(y: int, m: int): int
    requires 1 <= m <= 12
  {
    [0, 31, 59, 90, 120, 151, 181, 212, 243, 273, 304, 334][m - 1]
    + (if m > 2 && IsLeap(y) then 1 else 0)
  }

  /** Python's `_ymd2ord`. */
  function ToOrdinal(c: Civil): int
    requires ValidCivil(c)
  {
    DaysBeforeYear(c.year) + DaysBeforeMonth(c.year, c.month) + c.day
  }

  function ToDate(c: Civil): Date
    requires ValidCivil(c)
  {
    Date(ToOrdinal(c))
  }

  /** Calendar order: by year, then month, then day. */
  predicate CivilBefore(a: Civil, b: Civil) {
    a.year < b.year || (a.year == b.year && (a.month < b.month || (a.month == b.month && a.day < b.day)))
  }

  /** One more year adds one more multiple of 4, 100 or 400 exactly when it is one. */
  lemma QuarterStep(p: int)
    requires p >= 0
    ensures (p + 1) / 4 == p / 4 + (if (p + 1) % 4 == 0 then 1 else 0)
  {
  }

  lemma CenturyStep(p: int)
    requires p >= 0
    ensures (p + 1) / 100 == p / 100 + (if (p + 1) % 100 == 0 then 1 else 0)
  {
  }

  lemma QuadCenturyStep(p: int)
    requires p >= 0
    ensures (p + 1) / 400 == p / 400 + (if (p + 1) % 400 == 0 then 1 else 0)
  {
  }

  /** A multiple of 400 is one of 100, and a multiple of 100 one of 4. */
  lemma NestedMultiples(y: int)
    ensures y % 400 == 0 ==> y % 100 == 0
    ensures y % 100 == 0 ==> y % 4 == 0
  {
  }

  lemma DaysBeforeYearStep(y: int)
    requires y >= 1
    ensures DaysBeforeYear(y + 1) == DaysBeforeYear(y) + DaysInYear(y)
  {
    QuarterStep(y - 1);
    CenturyStep(y - 1);
    QuadCenturyStep(y - 1);
    NestedMultiples(y);
  }

  lemma {:induction false} DaysBeforeYearGrows(a: int, b: int)
    requires 1 <= a < b
    ensures DaysBeforeYear(a) + DaysInYear(a) <= DaysBeforeYear(b)
    decreases b - a
  {
    DaysBeforeYearStep(a);
    if a + 1 < b {
      DaysBeforeYearGrows(a + 1, b);
    }
  }

  /** The ordinal of a date lies inside its own year. */
  lemma OrdinalWithinYear(c: Civil)
    requires ValidCivil(c)
    ensures DaysBeforeYear(c.year) < ToOrdinal(c) <= DaysBeforeYear(c.year) + DaysInYear(c.year)
  {
  }

  lemma {:induction false} OrdinalWithinYearMonthOrder(a: Civil, b: Civil)
    requires ValidCivil(a) && ValidCivil(b) && a.year == b.year && a.month < b.month
    ensures ToOrdinal(a) < ToOrdinal(b)
  {
    assert DaysBeforeMonth(a.year, a.month) + DaysInMonth(a.year, a.month) <= DaysBeforeMonth(b.year, b.month);
  }

  /** Comparing ordinals is comparing calendar dates. */
  lemma {:induction false} OrdinalOrderIsCalendarOrder(a: Civil, b: Civil)
    requires ValidCivil(a) && ValidCivil(b)
    ensures CivilBefore(a, b) <==> ToOrdinal(a) < ToOrdinal(b)
  {
    OrdinalWithinYear(a);
    OrdinalWithinYear(b);
    if a.year < b.year {
      DaysBeforeYearGrows(a.year, b.year);
    } else if b.year < a.year {
      DaysBeforeYearGrows(b.year, a.year);
    } else if a.month < b.month {
      OrdinalWithinYearMonthOrder(a, b);
    } else if b.month < a.month {
      OrdinalWithinYearMonthOrder(b, a);
    }
  }

  // ---- strptime ----

  /** `%Y`: exactly four digits. */
  function YearField(f: string): Option<int> {
    if |f| == 4 && AllDigits(f) then Some(DigitsValue(f)) else None
  }

  /** `%m` (`1[0-2]|0[1-9]|[1-9]`): one or two digits denoting 1 to 12. */
  function MonthField(f: string): Option<int> {
    if 1 <= |f| <= 2 && AllDigits(f) && 1 <= DigitsValue(f) <= 12 then Some(DigitsValue(f)) else None
  }

  /** `%d` (`3[01]|[12]\d|0[1-9]|[1-9]| [1-9]`): one or two digits denoting 1 to 31, or a space and a non-zero digit. */
  function DayField(f: string): Option<int> {
    if 1 <= |f| <= 2 && AllDigits(f) && 1 <= DigitsValue(f) <= 31 then Some(DigitsValue(f))
    else if |f| == 2 && f[0] == ' ' && '1' <= f[1] <= '9' then Some(f[1] as int - '0' as int)
    else None
  }

  /** The date the three fields denote, if `datetime.date` accepts it. */
  function FromFields(y: Option<int>, m: Option<int>, d: Option<int>): (r: Option<Civil>)
    ensures r.Some? ==> ValidCivil(r.value)
  {
    if y.Some? && m.Some? && d.Some? && ValidCivil(Civil(y.value, m.value, d.value))
    then Some(Civil(y.value, m.value, d.value))
    else None
  }

  /** `datetime.strptime(s, '%Y-%m-%d').date()`; None where it raises ValueError. */
  function ParseYmd(s: string): (r: Option<Civil>)
    ensures r.Some? ==> ValidCivil(r.value)
  {
    var f := Split(s, '-');
    if |f| != 3 then None else FromFields(YearField(f[0]), MonthField(f[1]), DayField(f[2]))
  }

  /** `datetime.strptime(s, '%d/%m/%Y').date()`; None where it raises ValueError. */
  function ParseDmy(s: string): (r: Option<Civil>)
    ensures r.Some? ==> ValidCivil(r.value)
  {
    var f := Split(s, '/');
    if |f| != 3 then None else FromFields(YearField(f[2]), MonthField(f[1]), DayField(f[0]))
  }

  /** The CSV imports' rule: `%Y-%m-%d` first, then `%d/%m/%Y`. */
  function ParseEitherFormat(s: string): (r: Option<Civil>)
    ensures r.Some? ==> ValidCivil(r.value)
    ensures ParseYmd(s).Some? ==> r == ParseYmd(s)
    ensures ParseYmd(s).None? ==> r == ParseDmy(s)
  {
    var iso := ParseYmd(s);
    if iso.Some? then iso else ParseDmy(s)
  }

  /**
   * `%Y-%m-%d` reads exactly the texts y-m-d made of a four-digit year, a month
   * field and a day field that together name a real date, and gives that date.
   */
  lemma ParseYmdReadsFields(y: string, m: string, d: string)
    requires '-' !in y && '-' !in m && '-' !in d
    ensures ParseYmd(y + "-" + m + "-" + d).Some?
      <==> YearField(y).Some? && MonthField(m).Some? && DayField(d).Some?
           && ValidCivil(Civil(YearField(y).value, MonthField(m).value, DayField(d).value))
    ensures ParseYmd(y + "-" + m + "-" + d).Some? ==>
      ParseYmd(y + "-" + m + "-" + d).value == Civil(YearField(y).value, MonthField(m).value, DayField(d).value)
  {
    var parts := [y, m, d];
    assert Join(parts, '-') == y + "-" + m + "-" + d by {
      assert Join(parts[2..], '-') == d;
      assert Join(parts[1..], '-') == m + "-" + d;
    }
    SplitJoin(parts, '-');
  }

  /** Every text `%Y-%m-%d` reads has that y-m-d shape. */
  lemma ParseYmdShape(s: string)
    requires ParseYmd(s).Some?
    ensures |Split(s, '-')| == 3
    ensures s == Split(s, '-')[0] + "-" + Split(s, '-')[1] + "-" + Split(s, '-')[2]
  {
    var f := Split(s, '-');
    JoinSplit(s, '-');
    assert Join(f[2..], '-') == f[2];
    assert Join(f[1..], '-') == f[1] + "-" + f[2];
  }

  /** A field `%d`, `%m` or `%Y` reads holds no `-`. */
  lemma FieldsHaveNoDash(f: string)
    requires YearField(f).Some? || MonthField(f).Some? || DayField(f).Some?
    ensures '-' !in f
  {
    if AllDigits(f) {
      DigitsHaveNoSeparator(f, '-');
    } else {
      assert f == [f[0], f[1]];
    }
  }

  /**
   * A text that reads as DD/MM/YYYY never reads as `%Y-%m-%d`, so the CSV
   * rule reaches the second format for it: the two formats never compete.
   */
  lemma DmyTextIsNotYmd(s: string)
    requires ParseDmy(s).Some?
    ensures ParseYmd(s).None?
  {
    var f := Split(s, '/');
    forall i | 0 <= i < 3 ensures '-' !in f[i] {
      FieldsHaveNoDash(f[i]);
    }
    JoinSplit(s, '/');
    JoinAvoids(f, '/', '-');
    assert Split(s, '-') == [s];
  }

  /**
   * The CSV rule reads a text exactly when one of the formats does, and
   * gives the reading of whichever format the text is written in.
   */
  lemma EitherFormatReadsBoth(s: string)
    ensures ParseEitherFormat(s).Some? <==> ParseYmd(s).Some? || ParseDmy(s).Some?
    ensures ParseYmd(s).Some? ==> ParseEitherFormat(s) == ParseYmd(s)
    ensures ParseDmy(s).Some? ==> ParseEitherFormat(s) == ParseDmy(s)
  {
    if ParseDmy(s).Some? {
      DmyTextIsNotYmd(s);
    }
  }

  /** `date.strftime('%Y-%m-%d')` (years written with four digits). */
  function FormatYmd(c: Civil): string
    requires ValidCivil(c)
  {
    Join([PadDigits(c.year, 4), PadDigits(c.month, 2), PadDigits(c.day, 2)], '-')
  }

  /** `date.strftime('%d/%m/%Y')`. */
  function FormatDmy(c: Civil): string
    requires ValidCivil(c)
  {
    Join([PadDigits(c.day, 2), PadDigits(c.month, 2), PadDigits(c.year, 4)], '/')
  }

  lemma DigitsHaveNoSeparator(s: string, sep: char)
    requires AllDigits(s) && !IsDigit(sep)
    ensures sep !in s
  {
  }

  lemma PaddedFields(c: Civil)
    requires ValidCivil(c)
    ensures YearField(PadDigits(c.year, 4)) == Some(c.year)
    ensures MonthField(PadDigits(c.month, 2)) == Some(c.month)
    ensures DayField(PadDigits(c.day, 2)) == Some(c.day)
  {
    PadDigitsValue(c.year, 4);
    PadDigitsValue(c.month, 2);
    PadDigitsValue(c.day, 2);
  }

  /** Writing a date as YYYY-MM-DD and parsing it gives the date back. */
  lemma ParseFormatYmd(c: Civil)
    requires ValidCivil(c)
    ensures ParseYmd(FormatYmd(c)) == Some(c)
  {
    var parts := [PadDigits(c.year, 4), PadDigits(c.month, 2), PadDigits(c.day, 2)];
    forall i | 0 <= i < 3 ensures '-' !in parts[i] {
      DigitsHaveNoSeparator(parts[i], '-');
    }
    SplitJoin(parts, '-');
    PaddedFields(c);
  }

  /** Writing a date as DD/MM/YYYY and parsing it gives the date back, also through the CSV rule. */
  lemma ParseFormatDmy(c: Civil)
    requires ValidCivil(c)
    ensures ParseDmy(FormatDmy(c)) == Some(c)
    ensures ParseEitherFormat(FormatDmy(c)) == Some(c)
  {
    var parts := [PadDigits(c.day, 2), PadDigits(c.month, 2), PadDigits(c.year, 4)];
    forall i | 0 <= i < 3 ensures '/' !in parts[i] && '-' !in parts[i] {
      DigitsHaveNoSeparator(parts[i], '/');
      DigitsHaveNoSeparator(parts[i], '-');
    }
    SplitJoin(parts, '/');
    PaddedFields(c);
    JoinAvoids(parts, '/', '-');
  }
}
