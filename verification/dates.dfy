/**
 * Calendar dates as `LocalDate.parse(text, DateTimeFormatter.ofPattern("dd-MM-yyyy"))`
 * reads them (default SMART resolver, ISO chronology), and the two month
 * keys the reports use: `Month.toString()` and the `"MM"` pattern.
 */
module Dates {
  import opened Wrappers
  import opened Text

  type MonthNumber = m: int | 1 <= m <= 12 witness 1

  /** A date without time of day; `day` is valid for the month once resolved. */
  datatype Date = Date(year: int, month: MonthNumber, day: int)

  /** `Year.MAX_VALUE`: the largest year a `LocalDate` holds. */
  const MaxYear: int := 999_999_999

  /** Proleptic Gregorian leap years, as `Year.isLeap`. */
  predicate IsLeapYear(y: int) {
    y % 4 == 0 && (y % 100 != 0 || y % 400 == 0)
  }

  function DaysInMonth(y: int, m: MonthNumber): (n: int)
    ensures 28 <= n <= 31
  {
    if m == 2 then (if IsLeapYear(y) then 29 else 28)
    else if m == 4 || m == 6 || m == 9 || m == 11 then 30
    else 31
  }

  predicate ValidDate(d: Date) {
    1 <= d.year <= MaxYear && 1 <= d.day <= DaysInMonth(d.year, d.month)
  }

  /** `Month.toString()`: the upper-case English month name. */
  function MonthName(m: MonthNumber): (name: string)
    ensures |name| >= 3
    ensures forall i | 0 <= i < |name| :: 'A' <= name[i] <= 'Z'
  {
    match m
    case 1 => "JANUARY"
    case 2 => "FEBRUARY"
    case 3 => "MARCH"
    case 4 => "APRIL"
    case 5 => "MAY"
    case 6 => "JUNE"
    case 7 => "JULY"
    case 8 => "AUGUST"
    case 9 => "SEPTEMBER"
    case 10 => "OCTOBER"
    case 11 => "NOVEMBER"
    case 12 => "DECEMBER"
  }

  /** The `"MM"` pattern: the month number in two digits, "01" to "12". */
  function MonthKey(m: MonthNumber): (k: string)
    ensures |k| == 2 && AllDigits(k) && DigitsValue(k) == m
  {
    PadNat(m, 2)
  }

  /** Distinct months have distinct names, so grouping by name is grouping by month. */
  lemma MonthNameInjective(m1: MonthNumber, m2: MonthNumber)
    ensures MonthName(m1) == MonthName(m2) <==> m1 == m2
  {
  }

  /** Distinct months have distinct two-digit keys. */
  lemma MonthKeyInjective(m1: MonthNumber, m2: MonthNumber)
    ensures MonthKey(m1) == MonthKey(m2) <==> m1 == m2
  {
  }

  /**
   * The year field of `yyyy` in a strict parse: exactly four digits, or a
   * `+` followed by more than four (at most 19) digits.
   */
  function ParseYear(s: string): Option<nat> {
    if |s| == 4 && AllDigits(s) then Some(DigitsValue(s))
    else if 6 <= |s| <= 20 && s[0] == '+' && AllDigits(s[1..]) then Some(DigitsValue(s[1..]))
    else None
  }

  /**
   * `LocalDate.parse` with pattern `dd-MM-yyyy`: two-digit day and month,
   * then the year; day 1..31, month 1..12 and year 1..MaxYear are checked,
   * and the SMART resolver moves a day past the month's end back to its last
   * day (31-04 becomes 30-04). Any failure is a `DateTimeParseException`,
   * modelled as `None`.
   */
  function ParseDate(s: string): (r: Option<Date>)
    ensures r.Some? ==> ValidDate(r.value)
    ensures r.Some? ==> |s| >= 10 && s[2] == '-' && s[5] == '-' && AllDigits(s[..2]) && AllDigits(s[3..5])
    ensures r.Some? ==> r.value.month == DigitsValue(s[3..5])
    ensures r.Some? ==> 1 <= DigitsValue(s[..2]) <= 31
    ensures r.Some? ==> r.value.day == DigitsValue(s[..2])
                        || DigitsValue(s[..2]) > r.value.day == DaysInMonth(r.value.year, r.value.month)
    ensures r.Some? ==>
      || (|s| == 10 && AllDigits(s[6..]) && r.value.year == DigitsValue(s[6..]))
      || (|s| >= 12 && s[6] == '+' && AllDigits(s[7..]) && r.value.year == DigitsValue(s[7..]))
  {
    if |s| >= 10 && AllDigits(s[..2]) && s[2] == '-' && AllDigits(s[3..5]) && s[5] == '-' then
      var day := DigitsValue(s[..2]);
      var month := DigitsValue(s[3..5]);
      assert s[6..][1..] == s[7..];
      var year := ParseYear(s[6..]);
      if 1 <= day <= 31 && 1 <= month <= 12 && year.Some? && 1 <= year.value <= MaxYear then
        var last := DaysInMonth(year.value, month);
        Some(Date(year.value, month, if day <= last then day else last))
      else None
    else None
  }

  /** `dd-MM-yyyy` for a date whose year has at most four digits. */
  function FormatDate(d: Date): (s: string)
    requires ValidDate(d) && d.year <= 9999
    ensures |s| == 10
  {
    PadNat(d.day, 2) + "-" + MonthKey(d.month) + "-" + PadNat(d.year, 4)
  }

  /** The SMART resolver at work: the 31st of a 30-day month is its 30th. */
  lemma ParseDateClamps()
    ensures ParseDate("31-04-2021") == Some(Date(2021, 4, 30))
  {
    TextDate("31-04-2021", "31", "04", "2021");
    TwoDigits("31");
    TwoDigits("04");
    FourDigits("2021");
  }

  /** The 29th of February stands in a leap year and becomes the 28th otherwise. */
  lemma ParseDateFebruary()
    ensures ParseDate("29-02-2024") == Some(Date(2024, 2, 29))
    ensures ParseDate("29-02-2023") == Some(Date(2023, 2, 28))
  {
    TextDate("29-02-2024", "29", "02", "2024");
    TextDate("29-02-2023", "29", "02", "2023");
    TwoDigits("29");
    TwoDigits("02");
    FourDigits("2024");
    FourDigits("2023");
  }

  /** No day past 31 passes, whatever the month. */
  lemma ParseDateRejects()
    ensures ParseDate("32-01-2021") == None
  {
    TextDate("32-01-2021", "32", "01", "2021");
    TwoDigits("32");
  }

  lemma TwoDigits(s: string)
    requires |s| == 2 && AllDigits(s)
    ensures DigitsValue(s) == DigitValue(s[0]) * 10 + DigitValue(s[1])
  {
    assert s[..1][..0] == [];
  }

  lemma FourDigits(s: string)
    requires |s| == 4 && AllDigits(s)
    ensures DigitsValue(s) == DigitValue(s[0]) * 1000 + DigitValue(s[1]) * 100 + DigitValue(s[2]) * 10 + DigitValue(s[3])
  {
    assert s[..3][..2] == s[..2];
    TwoDigits(s[..2]);
  }

  /** A ten-character `dd-MM-yyyy` text splits into its three digit fields. */
  lemma TextDate(s: string, day: string, month: string, year: string)
    requires |day| == 2 && |month| == 2 && |year| == 4
    requires AllDigits(day) && AllDigits(month) && AllDigits(year)
    requires s == day + "-" + month + "-" + year
    ensures s[..2] == day && s[3..5] == month && s[6..] == year
    ensures ParseDate(s) == ResolveDate(DigitsValue(day), DigitsValue(month), DigitsValue(year))
  {
    assert s[..2] == day && s[3..5] == month && s[6..] == year;
  }

  /** The range checks and the SMART resolution of a parsed day, month and four-digit year. */
  function ResolveDate(day: nat, month: nat, year: nat): (r: Option<Date>)
    ensures r.Some? ==> ValidDate(r.value) && r.value.month == month && r.value.year == year
    ensures r.Some? <==> 1 <= day <= 31 && 1 <= month <= 12 && 1 <= year <= MaxYear
  {
    if 1 <= day <= 31 && 1 <= month <= 12 && 1 <= year <= MaxYear then
      var last := DaysInMonth(year, month);
      Some(Date(year, month, if day <= last then day else last))
    else None
  }

  /** Every date with a four-digit year is read back exactly from its `dd-MM-yyyy` text. */
  lemma ParseFormatDate(d: Date)
    requires ValidDate(d) && d.year <= 9999
    ensures ParseDate(FormatDate(d)) == Some(d)
  {
    var s := FormatDate(d);
    assert s[..2] == PadNat(d.day, 2);
    assert s[3..5] == MonthKey(d.month);
    assert s[6..] == PadNat(d.year, 4);
  }
}
