/** `isValidBirthDate` of apps/shared-types/src/auth.ts: a text is parsed to an instant and printed again.
    Days are counted as in ECMA-262, section 21.4.1. */
module BirthDate {

  datatype Civil = Civil(year: int, month: int, day: int)

  // ---- the calendar ----

  predicate IsLeap(y: int) {
    y % 4 == 0 && (y % 100 != 0 || y % 400 == 0)
  }

  function DaysInMonth(y: int, m: int): int {
    if m == 2 then (if IsLeap(y) then 29 else 28)
    else if m == 4 || m == 6 || m == 9 || m == 11 then 30
    else 31
  }

  /** A Gregorian date. */
  predicate IsDate(c: Civil) {
    1 <= c.month <= 12 && 1 <= c.day <= DaysInMonth(c.year, c.month)
  }

  // ---- day numbers ----

  function DayFromYear(y: int): int {
    365 * (y - 1970) + (y - 1969) / 4 - (y - 1901) / 100 + (y - 1601) / 400
  }

  /** Days of the year before the month; `m` may be 13 for the end of the year. */
  function MonthStart(y: int, m: int): int {
    var leap := if IsLeap(y) then 1 else 0;
    if m <= 1 then 0 else if m == 2 then 31 else if m == 3 then 59 + leap else if m == 4 then 90 + leap
    else if m == 5 then 120 + leap else if m == 6 then 151 + leap else if m == 7 then 181 + leap
    else if m == 8 then 212 + leap else if m == 9 then 243 + leap else if m == 10 then 273 + leap
    else if m == 11 then 304 + leap else if m == 12 then 334 + leap else 365 + leap
  }

  /** `MakeDay`, which lets the day run over the end of the month. */
  function MakeDay(c: Civil): int {
    DayFromYear(c.year) + MonthStart(c.year, c.month) + c.day - 1
  }

  lemma {:induction false} YearLength(y: int)
    ensures DayFromYear(y + 1) - DayFromYear(y) == MonthStart(y, 13)
  {
    FourthYears(y);
    Centuries(y);
    FourthCenturies(y);
  }

  lemma {:induction false} FourthYears(y: int)
    ensures (y - 1968) / 4 - (y - 1969) / 4 == if y % 4 == 0 then 1 else 0
  {}

  lemma {:induction false} Centuries(y: int)
    ensures (y - 1900) / 100 - (y - 1901) / 100 == if y % 100 == 0 then 1 else 0
    ensures y % 100 == 0 ==> y % 4 == 0
  {}

  lemma {:induction false} FourthCenturies(y: int)
    ensures (y - 1600) / 400 - (y - 1601) / 400 == if y % 400 == 0 then 1 else 0
    ensures y % 400 == 0 ==> y % 100 == 0
  {}

  lemma {:induction false} YearsIncrease(a: int, b: int)
    requires a <= b
    ensures DayFromYear(a) + 365 * (b - a) <= DayFromYear(b)
    decreases b - a
  {
    if a < b {
      YearLength(b - 1);
      YearsIncrease(a, b - 1);
    }
  }

  /** `YearFromTime`: the largest year that has begun, looked for from `y` upwards. */
  function YearFrom(day: int, y: int): (r: int)
    requires DayFromYear(y) <= day
    ensures y <= r && DayFromYear(r) <= day < DayFromYear(r + 1)
    decreases day - DayFromYear(y)
  {
    YearLength(y);
    if day < DayFromYear(y + 1) then y else YearFrom(day, y + 1)
  }

  function MonthFrom(y: int, dayInYear: int): (m: int)
    requires 0 <= dayInYear < MonthStart(y, 13)
    ensures 1 <= m <= 12 && MonthStart(y, m) <= dayInYear < MonthStart(y, m + 1)
  {
    if dayInYear < MonthStart(y, 2) then 1 else if dayInYear < MonthStart(y, 3) then 2
    else if dayInYear < MonthStart(y, 4) then 3 else if dayInYear < MonthStart(y, 5) then 4
    else if dayInYear < MonthStart(y, 6) then 5 else if dayInYear < MonthStart(y, 7) then 6
    else if dayInYear < MonthStart(y, 8) then 7 else if dayInYear < MonthStart(y, 9) then 8
    else if dayInYear < MonthStart(y, 10) then 9 else if dayInYear < MonthStart(y, 11) then 10
    else if dayInYear < MonthStart(y, 12) then 11 else 12
  }

  /** The date of a day from the year 0 on. */
  function CivilFromDay(day: int): (c: Civil)
    requires DayFromYear(0) <= day
    ensures IsDate(c) && MakeDay(c) == day
  {
    var y := YearFrom(day, 0);
    YearLength(y);
    var dayInYear := day - DayFromYear(y);
    var m := MonthFrom(y, dayInYear);
    MonthLength(y, m);
    Civil(y, m, dayInYear - MonthStart(y, m) + 1)
  }

  lemma {:induction false} MonthLength(y: int, m: int)
    requires 1 <= m <= 12
    ensures MonthStart(y, m + 1) - MonthStart(y, m) == DaysInMonth(y, m)
  {}

  lemma {:induction false} DayInYear(c: Civil)
    requires IsDate(c)
    ensures 0 <= MonthStart(c.year, c.month) + c.day - 1 < MonthStart(c.year, 13)
  {}

  lemma {:induction false} MonthsIncrease(y: int, a: int, b: int)
    requires 1 <= a < b <= 12
    ensures MonthStart(y, a) + DaysInMonth(y, a) <= MonthStart(y, b)
  {}

  /** No two dates are the same day. */
  lemma {:induction false} DayNumbersDiffer(a: Civil, b: Civil)
    requires IsDate(a) && IsDate(b) && MakeDay(a) == MakeDay(b)
    ensures a == b
  {
    hide DayFromYear, MonthStart, DaysInMonth;
    DayInYear(a);
    DayInYear(b);
    YearLength(a.year);
    YearLength(b.year);
    if a.year < b.year {
      NextYearLater(a.year, b.year);
    } else if b.year < a.year {
      NextYearLater(b.year, a.year);
    } else if a.month < b.month {
      MonthsIncrease(a.year, a.month, b.month);
    } else if b.month < a.month {
      MonthsIncrease(a.year, b.month, a.month);
    }
  }

  lemma {:induction false} NextYearLater(a: int, b: int)
    requires a < b
    ensures DayFromYear(a + 1) <= DayFromYear(b)
  {
    YearsIncrease(a + 1, b);
  }

  lemma {:induction false} DateIsFromYearZero(c: Civil)
    requires 0 <= c.year && 1 <= c.month && 1 <= c.day
    ensures DayFromYear(0) <= MakeDay(c)
  {
    YearsIncrease(0, c.year);
  }

  // ---- texts ----

  function Digit(n: int): char
    requires 0 <= n < 10
  {
    ('0' as int + n) as char
  }

  predicate IsDigit(c: char) {
    '0' <= c <= '9'
  }

  function Value(c: char): int {
    c as int - '0' as int
  }

  /** The date part of `toISOString`. */
  function Format(c: Civil): string
    requires 0 <= c.year <= 9999 && 0 <= c.month <= 99 && 0 <= c.day <= 99
  {
    [Digit(c.year / 1000), Digit(c.year / 100 % 10), Digit(c.year / 10 % 10), Digit(c.year % 10), '-',
     Digit(c.month / 10), Digit(c.month % 10), '-', Digit(c.day / 10), Digit(c.day % 10)]
  }

  /** The pattern: four, two and two digits with dashes between. */
  predicate Matches(s: string) {
    |s| == 10 && IsDigit(s[0]) && IsDigit(s[1]) && IsDigit(s[2]) && IsDigit(s[3]) && s[4] == '-'
    && IsDigit(s[5]) && IsDigit(s[6]) && s[7] == '-' && IsDigit(s[8]) && IsDigit(s[9])
  }

  function Fields(s: string): (c: Civil)
    requires Matches(s)
    ensures 0 <= c.year <= 9999 && 0 <= c.month <= 99 && 0 <= c.day <= 99
  {
    Civil(Value(s[0]) * 1000 + Value(s[1]) * 100 + Value(s[2]) * 10 + Value(s[3]),
          Value(s[5]) * 10 + Value(s[6]),
          Value(s[8]) * 10 + Value(s[9]))
  }

  lemma {:induction false} TwoDigits(a: int, b: int)
    requires 0 <= a < 10 && 0 <= b < 10
    ensures (a * 10 + b) / 10 == a && (a * 10 + b) % 10 == b
  {}

  lemma {:induction false} FourDigits(a: int, b: int, c: int, d: int)
    requires 0 <= a < 10 && 0 <= b < 10 && 0 <= c < 10 && 0 <= d < 10
    ensures var n := a * 1000 + b * 100 + c * 10 + d;
            n / 1000 == a && n / 100 % 10 == b && n / 10 % 10 == c && n % 10 == d
  {
    var n := a * 1000 + b * 100 + c * 10 + d;
    assert n / 100 == a * 10 + b;
    assert n / 10 == a * 100 + b * 10 + c;
  }

  /** Printing the fields of a text gives the text. */
  lemma {:induction false} FormatFields(s: string)
    requires Matches(s)
    ensures Format(Fields(s)) == s
  {
    FourDigits(Value(s[0]), Value(s[1]), Value(s[2]), Value(s[3]));
    TwoDigits(Value(s[5]), Value(s[6]));
    TwoDigits(Value(s[8]), Value(s[9]));
  }

  lemma {:induction false} Recompose(n: int)
    requires 0 <= n <= 9999
    ensures n == n / 1000 * 1000 + n / 100 % 10 * 100 + n / 10 % 10 * 10 + n % 10
    ensures n <= 99 ==> n == n / 10 * 10 + n % 10
  {
    assert n / 10 == n / 100 * 10 + n / 10 % 10;
    assert n / 100 == n / 1000 * 10 + n / 100 % 10;
  }

  /** A printed date reads back. */
  lemma {:induction false} FieldsFormat(c: Civil)
    requires 0 <= c.year <= 9999 && 0 <= c.month <= 99 && 0 <= c.day <= 99
    ensures Matches(Format(c)) && Fields(Format(c)) == c
  {
    Recompose(c.year);
    Recompose(c.month);
    Recompose(c.day);
  }

  // ---- the check ----

  /** Engines differ in what `new Date` does with a day that its month does not have. */
  datatype Parser = RejectsLongDays | RollsOver

  datatype Parsed = NotADate | Day(number: int)

  function ParseInstant(parser: Parser, c: Civil): Parsed {
    if !(1 <= c.month <= 12 && 1 <= c.day <= 31) then NotADate
    else if parser == RejectsLongDays && DaysInMonth(c.year, c.month) < c.day then NotADate
    else Day(MakeDay(c))
  }

  /** A day that its month does not have is no date for the one kind of parser, and a day of the next month for
      the other. */
  lemma {:induction false} LongDays(c: Civil)
    requires 1 <= c.month <= 12 && DaysInMonth(c.year, c.month) < c.day <= 31
    ensures ParseInstant(RejectsLongDays, c) == NotADate
    ensures ParseInstant(RollsOver, c)
         == Day(MakeDay(Civil(c.year, c.month + 1, c.day - DaysInMonth(c.year, c.month))))
  {
    MonthLength(c.year, c.month);
  }

  predicate IsValidBirthDate(parser: Parser, value: string) {
    Matches(value) &&
    var c := Fields(value);
    match ParseInstant(parser, c)
    case NotADate => false
    case Day(number) =>
      assert DayFromYear(0) <= number by { DateIsFromYearZero(c); }
      var shown := CivilFromDay(number);
      assert shown.year <= 9999 by { StaysInRange(c, shown); }
      YearNotNegative(number);
      Format(shown) == value
  }

  lemma {:induction false} YearNotNegative(day: int)
    requires DayFromYear(0) <= day
    ensures 0 <= CivilFromDay(day).year
  {}

  /** A day of at most 31 does not run out of the last year. */
  lemma {:induction false} StaysInRange(c: Civil, shown: Civil)
    requires 0 <= c.year <= 9999 && 1 <= c.month <= 12 && 1 <= c.day <= 31
    requires IsDate(shown) && MakeDay(shown) == MakeDay(c)
    ensures shown.year <= 9999
  {
    assert MonthStart(c.year, c.month) + c.day <= MonthStart(c.year, 13);
    YearLength(c.year);
    if 9999 < shown.year {
      NextYearLater(c.year, shown.year);
      DayInYear(shown);
    }
  }

  /** Exactly the texts `YYYY-MM-DD` that name a Gregorian date in the years 0 to 9999 are accepted,
      whichever way the parser treats days that the month does not have. */
  lemma {:induction false} AcceptsExactlyDates(parser: Parser, value: string)
    ensures IsValidBirthDate(parser, value)
            <==> exists c: Civil :: IsDate(c) && 0 <= c.year <= 9999 && value == Format(c)
  {
    if Matches(value) {
      var c := Fields(value);
      FormatFields(value);
      if IsDate(c) {
        AcceptsDate(parser, value, c);
        assert IsDate(c) && 0 <= c.year <= 9999 && value == Format(c);
      } else {
        RejectsNonDate(parser, value, c);
        forall d: Civil | IsDate(d) && 0 <= d.year <= 9999 ensures value != Format(d) {
          FieldsFormat(d);
        }
      }
    } else {
      forall d: Civil | IsDate(d) && 0 <= d.year <= 9999 ensures value != Format(d) {
        FieldsFormat(d);
      }
    }
  }

  lemma {:induction false} AcceptsDate(parser: Parser, value: string, c: Civil)
    requires Matches(value) && c == Fields(value) && IsDate(c)
    ensures IsValidBirthDate(parser, value)
  {
    DateIsFromYearZero(c);
    DayNumbersDiffer(c, CivilFromDay(MakeDay(c)));
    FormatFields(value);
  }

  lemma {:induction false} RejectsNonDate(parser: Parser, value: string, c: Civil)
    requires Matches(value) && c == Fields(value) && !IsDate(c)
    ensures !IsValidBirthDate(parser, value)
  {
    if ParseInstant(parser, c).Day? {
      DateIsFromYearZero(c);
      var shown := CivilFromDay(MakeDay(c));
      StaysInRange(c, shown);
      YearNotNegative(MakeDay(c));
      FieldsFormat(shown);
    }
  }

  // ---- the calendar in figures ----

  /** Month lengths and leap years. */
  lemma {:induction false} MonthsAreAsLong(y: int, m: int)
    requires 1 <= m <= 12
    ensures var leap := (y % 4 == 0 && y % 100 != 0) || y % 400 == 0;
            DaysInMonth(y, m) == [31, if leap then 29 else 28, 31, 30, 31, 30, 31, 31, 30, 31, 30, 31][m - 1]
  {}

  /** The day numbers go up by one from each date to the next. */
  lemma {:induction false} NextDay(c: Civil)
    requires IsDate(c)
    ensures var next := if c.day < DaysInMonth(c.year, c.month) then Civil(c.year, c.month, c.day + 1)
                        else if c.month < 12 then Civil(c.year, c.month + 1, 1)
                        else Civil(c.year + 1, 1, 1);
            IsDate(next) && MakeDay(next) == MakeDay(c) + 1
    ensures MakeDay(Civil(1970, 1, 1)) == 0
  {
    YearLength(c.year);
    MonthLength(c.year, c.month);
  }

  /** The parts of a text: year, month and day, in this order. */
  lemma {:induction false} PartsInOrder()
    ensures Matches("2024-02-29") && Fields("2024-02-29") == Civil(2024, 2, 29)
  {
    var s := "2024-02-29";
    assert s[0] == '2' && s[1] == '0' && s[2] == '2' && s[3] == '4' && s[4] == '-';
    assert s[5] == '0' && s[6] == '2' && s[7] == '-' && s[8] == '2' && s[9] == '9';
  }
}
