/**
 Proleptic Gregorian calendar dates, as Python's `datetime` uses them: adding
 a number of days to a date (`date + timedelta(days=n)`) and writing a date as
 an ISO 8601 calendar date in extended format `YYYY-MM-DD` (section 4.1.2.2 of
 ISO 8601:2004, which is what `strftime('%Y-%m-%d')` produces).
 */
module Calendar {
  import opened Options
  import opened Decimal

  datatype Date = Date(year: int, month: int, day: int)

  /** Gregorian rule: every fourth year, except centuries not divisible by 400. */
  predicate IsLeapYear(y: int) {
    (y % 4 == 0 && y % 100 != 0) || y % 400 == 0
  }

  function DaysInYear(y: int): int {
    if IsLeapYear(y) then 366 else 365
  }

  function DaysInMonth(y: int, m: int): (n: int)
    requires 1 <= m <= 12
    ensures 28 <= n <= 31
    ensures m == 2 ==> (n == 29 <==> IsLeapYear(y))
  {
    if m == 2 then (if IsLeapYear(y) then 29 else 28)
    else if m == 4 || m == 6 || m == 9 || m == 11 then 30
    else 31
  }

  /**
   A date `datetime` accepts, except that there is no upper bound at year 9999
   (`MAXYEAR`); see `Calendar.AddDays` under "Left out". Years start at 1 (`MINYEAR`).
   */
  predicate ValidDate(d: Date) {
    1 <= d.year && 1 <= d.month <= 12 && 1 <= d.day <= DaysInMonth(d.year, d.month)
  }

  /** Days of year `y` in the months before month `m`. */
  function DaysBeforeMonth(y: int, m: int): nat
    requires 1 <= m <= 13
  {
    if m == 1 then 0 else DaysBeforeMonth(y, m - 1) + DaysInMonth(y, m - 1)
  }

  lemma DaysBeforeDecember(y: int)
    ensures DaysBeforeMonth(y, 12) + 31 == DaysInYear(y)
  {
    var feb := DaysInMonth(y, 2);
    assert DaysBeforeMonth(y, 2) == 31;
    assert DaysBeforeMonth(y, 3) == 31 + feb;
    assert DaysBeforeMonth(y, 4) == 62 + feb;
    assert DaysBeforeMonth(y, 5) == 92 + feb;
    assert DaysBeforeMonth(y, 6) == 123 + feb;
    assert DaysBeforeMonth(y, 7) == 153 + feb;
    assert DaysBeforeMonth(y, 8) == 184 + feb;
    assert DaysBeforeMonth(y, 9) == 215 + feb;
    assert DaysBeforeMonth(y, 10) == 245 + feb;
    assert DaysBeforeMonth(y, 11) == 276 + feb;
    assert DaysBeforeMonth(y, 12) == 306 + feb;
  }

  lemma {:induction false} DaysBeforeMonthGrows(y: int, m: int, m': int)
    requires 1 <= m < m' <= 13
    ensures DaysBeforeMonth(y, m) + DaysInMonth(y, m) <= DaysBeforeMonth(y, m')
    decreases m' - m
  {
    if m + 1 < m' {
      DaysBeforeMonthGrows(y, m, m' - 1);
    }
  }

  lemma MonthFitsInYear(y: int, m: int)
    requires 1 <= m <= 12
    ensures DaysBeforeMonth(y, m) + DaysInMonth(y, m) <= DaysInYear(y)
    ensures m == 12 ==> DaysBeforeMonth(y, m) + DaysInMonth(y, m) == DaysInYear(y)
  {
    DaysBeforeDecember(y);
    if m < 12 {
      DaysBeforeMonthGrows(y, m, 12);
    }
  }

  /** The ordinal of `d` within its year: 1 for 1 January. */
  function DayOfYear(d: Date): (n: int)
    requires ValidDate(d)
    ensures 1 <= n <= DaysInYear(d.year)
  {
    MonthFitsInYear(d.year, d.month);
    DaysBeforeMonth(d.year, d.month) + d.day
  }

  /** Two valid dates of one year with the same ordinal are the same date. */
  lemma DayOfYearInjective(d1: Date, d2: Date)
    requires ValidDate(d1) && ValidDate(d2) && d1.year == d2.year
    requires DayOfYear(d1) == DayOfYear(d2)
    ensures d1 == d2
  {
    if d1.month < d2.month {
      DaysBeforeMonthGrows(d1.year, d1.month, d2.month);
    } else if d2.month < d1.month {
      DaysBeforeMonthGrows(d1.year, d2.month, d1.month);
    }
  }

  /** The calendar day after `d`. */
  function NextDay(d: Date): (e: Date)
    requires ValidDate(d)
    ensures ValidDate(e)
    ensures DayOfYear(d) < DaysInYear(d.year) ==> e.year == d.year && DayOfYear(e) == DayOfYear(d) + 1
    ensures DayOfYear(d) == DaysInYear(d.year) ==> e == Date(d.year + 1, 1, 1)
  {
    MonthFitsInYear(d.year, d.month);
    if d.day < DaysInMonth(d.year, d.month) then Date(d.year, d.month, d.day + 1)
    else if d.month < 12 then
      DaysBeforeMonthGrows(d.year, d.month, 12);
      DaysBeforeDecember(d.year);
      Date(d.year, d.month + 1, 1)
    else Date(d.year + 1, 1, 1)
  }

  /** `d + timedelta(days=n)` for a non-negative `n`. */
  function AddDays(d: Date, n: nat): (e: Date)
    requires ValidDate(d)
    ensures ValidDate(e) && d.year <= e.year
    decreases n
  {
    if n == 0 then d else AddDays(NextDay(d), n - 1)
  }

  /** Adding `n` days inside one year moves the ordinal forward by exactly `n`. */
  lemma {:induction false} AddDaysWithinYear(d: Date, n: nat)
    requires ValidDate(d)
    requires DayOfYear(d) + n <= DaysInYear(d.year)
    ensures ValidDate(AddDays(d, n))
    ensures AddDays(d, n).year == d.year
    ensures DayOfYear(AddDays(d, n)) == DayOfYear(d) + n
    decreases n
  {
    if 0 < n {
      AddDaysWithinYear(NextDay(d), n - 1);
    }
  }

  /** `strftime('%Y-%m-%d')`: year on four digits, month and day on two. */
  function FormatDate(d: Date): (s: string)
    requires 0 <= d.year && 1 <= d.month && 1 <= d.day
    ensures d.year < 10000 && d.month < 100 && d.day < 100 ==>
      && |s| == 10 && s[4] == '-' && s[7] == '-'
      && ParseNat(s[..4]) == Some(d.year) && ParseNat(s[5..7]) == Some(d.month) && ParseNat(s[8..]) == Some(d.day)
  {
    if d.year < 10000 && d.month < 100 && d.day < 100 then
      assert Pow10(4) == 10000;
      assert Pow10(2) == 100;
      ZeroPadRoundTrip(d.year, 4);
      ZeroPadRoundTrip(d.month, 2);
      ZeroPadRoundTrip(d.day, 2);
      var s := ZeroPad(d.year, 4) + "-" + ZeroPad(d.month, 2) + "-" + ZeroPad(d.day, 2);
      assert s[..4] == ZeroPad(d.year, 4);
      assert s[5..7] == ZeroPad(d.month, 2);
      assert s[8..] == ZeroPad(d.day, 2);
      s
    else
      ZeroPad(d.year, 4) + "-" + ZeroPad(d.month, 2) + "-" + ZeroPad(d.day, 2)
  }

  /** Reads `YYYY-MM-DD`; `None` unless the text names a valid date. */
  function ParseDate(s: string): (r: Option<Date>)
    ensures r.Some? ==> ValidDate(r.value) && |s| == 10
  {
    if |s| == 10 && s[4] == '-' && s[7] == '-' then
      match (ParseNat(s[..4]), ParseNat(s[5..7]), ParseNat(s[8..]))
      case (Some(y), Some(m), Some(dd)) =>
        var d := Date(y, m, dd);
        if ValidDate(d) then Some(d) else None
      case _ => None
    else
      None
  }

  /** Every valid date up to year 9999 reads back from its ISO text. */
  lemma DateRoundTrip(d: Date)
    requires ValidDate(d) && d.year <= 9999
    ensures ParseDate(FormatDate(d)) == Some(d)
  {
    assert Pow10(4) == 10000;
    assert Pow10(2) == 100;
    ZeroPadRoundTrip(d.year, 4);
    ZeroPadRoundTrip(d.month, 2);
    ZeroPadRoundTrip(d.day, 2);
    var y := ZeroPad(d.year, 4);
    var m := ZeroPad(d.month, 2);
    var dd := ZeroPad(d.day, 2);
    var s := FormatDate(d);
    assert s == y + "-" + m + "-" + dd;
    assert s[..4] == y;
    assert s[5..7] == m;
    assert s[8..] == dd;
  }
}
