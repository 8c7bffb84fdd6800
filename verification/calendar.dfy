/**
 * Calendar keys of a date column. A wall-clock time is an integer number of
 * seconds since 1970-01-01T00:00; its date is the day number (floor division,
 * so times before 1970 fall on the right day) and its month is year * 12 +
 * (month - 1) in the proleptic Gregorian calendar. These integer keys sort in
 * the same order as the source's "YYYY-MM-DD" and "YYYY-MM" strings.
 *
 * Days are counted in eras of 400 Gregorian years (146097 days), each era
 * starting on the 1st of March of a year divisible by 400, so that a leap
 * day is always the last day of its March-based year.
 */
module Calendar {
  const SecondsPerDay: int := 86400
  const DaysPerEra: int := 146097

  /** `.dt.date` / strftime('%Y-%m-%d'): the day number of a wall-clock time. */
  function Day(t: int): int {
    t / SecondsPerDay
  }

  /**
   * Days of an era before its March-based year y (0 <= y <= 400): 365 per
   * year plus one for every leap February, that is for every year 1..y of
   * the era divisible by 4, but not by 100 unless by 400.
   */
  function DaysBefore(y: int): int {
    365 * y + y / 4 - y / 100 + y / 400
  }

  /** Counting the multiples of 4, 100 and 400 up to y + 1 instead of y adds y + 1 if it is one. */
  lemma QuotientSteps(y: int)
    ensures (y + 1) / 4 == y / 4 + (if (y + 1) % 4 == 0 then 1 else 0)
    ensures (y + 1) / 100 == y / 100 + (if (y + 1) % 100 == 0 then 1 else 0)
    ensures (y + 1) / 400 == y / 400 + (if (y + 1) % 400 == 0 then 1 else 0)
  {
  }

  /** A multiple of 400 is one of 100, and a multiple of 100 is one of 4. */
  lemma MultipleNesting(n: int)
    ensures n % 400 == 0 ==> n % 100 == 0
    ensures n % 100 == 0 ==> n % 4 == 0
  {
    if n % 400 == 0 {
      ScaledMultiples(n / 400);
    }
    if n % 100 == 0 {
      ScaledMultiples(n / 100);
    }
  }

  lemma ScaledMultiples(q: int)
    ensures (400 * q) % 100 == 0 && (100 * q) % 4 == 0
  {
    assert 400 * q == 100 * (4 * q);
    assert 100 * q == 4 * (25 * q);
  }

  /** The Gregorian leap rule: divisible by 4, and not by 100 unless by 400. */
  predicate IsLeapYear(n: int) {
    n % 4 == 0 && (n % 100 != 0 || n % 400 == 0)
  }

  /** The leap rule repeats every 400 years. */
  lemma LeapEvery400(e: int, n: int)
    ensures IsLeapYear(400 * e + n) == IsLeapYear(n)
  {
    assert 400 * e + n == 4 * (100 * e) + n;
    assert 400 * e + n == 100 * (4 * e) + n;
  }

  /**
   * A March-based year of an era has 365 or 366 days: 366 exactly when the
   * February that ends it, in calendar year y + 1 of the era, is a leap
   * February (the era starts in a year divisible by 400, so y + 1 has the
   * same leap status as the calendar year itself).
   */
  lemma YearLength(y: int)
    requires 0 <= y
    ensures DaysBefore(y + 1) - DaysBefore(y) == 365 || DaysBefore(y + 1) - DaysBefore(y) == 366
    ensures DaysBefore(y + 1) - DaysBefore(y) == if IsLeapYear(y + 1) then 366 else 365
  {
    QuotientSteps(y);
    MultipleNesting(y + 1);
  }

  lemma {:induction false} DaysBeforeMonotone(a: int, b: int)
    requires 0 <= a <= b
    ensures DaysBefore(a) + 365 * (b - a) <= DaysBefore(b)
    decreases b - a
  {
    if a < b {
      DaysBeforeMonotone(a, b - 1);
      YearLength(b - 1);
    }
  }

  /** The March-based year of an era holding its day doe, searched from year y on. */
  function YearOfEra(doe: int, y: int): (r: int)
    requires 0 <= y <= 399 && DaysBefore(y) <= doe < DaysPerEra
    ensures y <= r <= 399 && DaysBefore(r) <= doe < DaysBefore(r + 1)
    decreases 399 - y
  {
    if y == 399 || doe < DaysBefore(y + 1) then y else YearOfEra(doe, y + 1)
  }

  /** No year has more than 366 days, so the search may start at year doe / 366. */
  lemma GuessBelow(doe: int)
    requires 0 <= doe < DaysPerEra
    ensures 0 <= doe / 366 <= 399 && DaysBefore(doe / 366) <= doe
  {
    var y := doe / 366;
    assert 4 * (y / 400) <= y / 100 by {
      assert 100 * (4 * (y / 400)) <= y;
    }
    assert y / 4 <= y;
  }

  /** Only one year of an era holds a given day. */
  lemma YearOfEraUnique(doe: int, y: int)
    requires 0 <= y <= 399 && DaysBefore(y) <= doe < DaysBefore(y + 1)
    ensures doe < DaysPerEra && YearOfEra(doe, doe / 366) == y
  {
    assert doe < DaysPerEra by {
      DaysBeforeMonotone(y + 1, 400);
    }
    GuessBelow(doe);
    var r := YearOfEra(doe, doe / 366);
    assert DaysBefore(r) <= doe < DaysBefore(r + 1);
    if r < y {
      DaysBeforeMonotone(r + 1, y);
    } else if r > y {
      DaysBeforeMonotone(y + 1, r);
    }
  }

  /** The era of a day number, counted from the one that begins on 0000-03-01. */
  function EraOf(day: int): int {
    (day + 719468) / DaysPerEra
  }

  function DayOfEra(day: int): (doe: int)
    ensures 0 <= doe < DaysPerEra
  {
    (day + 719468) % DaysPerEra
  }

  /** The March-based year of its era that a day number falls in. */
  function YearOfDay(day: int): int {
    var doe := DayOfEra(day);
    GuessBelow(doe);
    YearOfEra(doe, doe / 366)
  }

  /** The day of a day number within its March-based year (0 is the 1st of March). */
  function DayOfYear(day: int): int {
    DayOfEra(day) - DaysBefore(YearOfDay(day))
  }

  /** The month of a day of a March-based year, 0 for March to 11 for February. */
  function MonthOfYear(doy: int): int {
    (5 * doy + 2) / 153
  }

  /** From one day of a year to the next the month advances by at most one. */
  lemma MonthOfYearStep(doy: int)
    ensures MonthOfYear(doy + 1) == MonthOfYear(doy) || MonthOfYear(doy + 1) == MonthOfYear(doy) + 1
  {
  }

  /** The year starts in March and its last day, the 365th or 366th, is in February. */
  lemma MonthOfYearEnds()
    ensures MonthOfYear(0) == 0 && MonthOfYear(364) == 11 && MonthOfYear(365) == 11
  {
  }

  /** The month of a day number (days-to-civil conversion, eras of 400 years). */
  function MonthOfDay(day: int): int {
    var y := YearOfDay(day) + EraOf(day) * 400;
    var mp := MonthOfYear(DayOfYear(day));
    var m := if mp < 10 then mp + 3 else mp - 9;
    (if m <= 2 then y + 1 else y) * 12 + (m - 1)
  }

  /** `.dt.to_period('M')` / strftime('%Y-%m'): the month of a wall-clock time. */
  function Month(t: int): int {
    MonthOfDay(Day(t))
  }

  /** A day of a March-based year is one of its 365 or 366 days. */
  lemma DayOfYearBounds(day: int)
    ensures 0 <= DayOfYear(day) <= 365
  {
    var doe := DayOfEra(day);
    var y := YearOfDay(day);
    assert DaysBefore(y) <= doe < DaysBefore(y + 1);
    YearLength(y);
  }

  /** The month key counts months since March of year 0: twelve per year plus the month since March, plus two. */
  lemma MonthShape(day: int)
    ensures 0 <= DayOfYear(day) <= 365
    ensures MonthOfDay(day) == (EraOf(day) * 400 + YearOfDay(day)) * 12 + MonthOfYear(DayOfYear(day)) + 2
  {
    DayOfYearBounds(day);
    var mp := MonthOfYear(DayOfYear(day));
    assert 0 <= mp <= 11;
  }

  /** The day after a day number is the next day of its era, or the first day of the next era. */
  lemma NextDay(day: int)
    ensures DayOfEra(day) == DaysPerEra - 1 ==> EraOf(day + 1) == EraOf(day) + 1 && DayOfEra(day + 1) == 0
    ensures DayOfEra(day) < DaysPerEra - 1 ==> EraOf(day + 1) == EraOf(day) && DayOfEra(day + 1) == DayOfEra(day) + 1
  {
  }

  /** The last day of an era is the 366th day of its year 399, the first day is the first of year 0. */
  lemma EraEnds(day: int)
    ensures DayOfEra(day) == DaysPerEra - 1 ==> YearOfDay(day) == 399 && DayOfYear(day) == 365
    ensures DayOfEra(day) == 0 ==> YearOfDay(day) == 0 && DayOfYear(day) == 0
  {
    if DayOfEra(day) == DaysPerEra - 1 {
      YearOfEraUnique(DaysPerEra - 1, 399);
    } else if DayOfEra(day) == 0 {
      YearOfEraUnique(0, 0);
    }
  }

  /** The day after a day of an era that is not the last of its year is the next day of that year. */
  lemma NextDayOfYear(day: int)
    requires DayOfEra(day + 1) == DayOfEra(day) + 1
    requires DayOfEra(day) + 1 < DaysBefore(YearOfDay(day) + 1)
    ensures YearOfDay(day + 1) == YearOfDay(day) && DayOfYear(day + 1) == DayOfYear(day) + 1
  {
    YearOfEraUnique(DayOfEra(day) + 1, YearOfDay(day));
  }

  /** The last day of a year of an era is its 365th or 366th day. */
  lemma LastDayOfYear(day: int)
    requires DayOfEra(day) + 1 == DaysBefore(YearOfDay(day) + 1)
    ensures DayOfYear(day) == 364 || DayOfYear(day) == 365
  {
    YearLength(YearOfDay(day));
  }

  /** The day after the last day of a year of an era is the first day of the next year. */
  lemma NextYearOfEra(day: int)
    requires DayOfEra(day + 1) == DayOfEra(day) + 1
    requires DayOfEra(day) + 1 == DaysBefore(YearOfDay(day) + 1)
    ensures YearOfDay(day + 1) == YearOfDay(day) + 1 && DayOfYear(day + 1) == 0
  {
    var y := YearOfDay(day);
    assert y + 1 != 400;
    YearLength(y + 1);
    YearOfEraUnique(DayOfEra(day) + 1, y + 1);
  }

  /** The last day of an era is in the month before the first day of the next era. */
  lemma EraBoundaryStep(day: int)
    requires DayOfEra(day) == DaysPerEra - 1
    ensures MonthOfDay(day + 1) == MonthOfDay(day) + 1
  {
    NextDay(day);
    EraEnds(day);
    EraEnds(day + 1);
    MonthOfYearEnds();
    MonthShape(day);
    MonthShape(day + 1);
  }

  /** Within a year of an era, the month advances by at most one a day. */
  lemma SameYearStep(day: int)
    requires DayOfEra(day) < DaysPerEra - 1
    requires DayOfEra(day) + 1 < DaysBefore(YearOfDay(day) + 1)
    ensures MonthOfDay(day + 1) == MonthOfDay(day) || MonthOfDay(day + 1) == MonthOfDay(day) + 1
  {
    NextDay(day);
    NextDayOfYear(day);
    MonthOfYearStep(DayOfYear(day));
    MonthShape(day);
    MonthShape(day + 1);
  }

  /** The last day of a year (in February) is in the month before the 1st of March that follows. */
  lemma NewYearStep(day: int)
    requires DayOfEra(day) < DaysPerEra - 1
    requires DayOfEra(day) + 1 == DaysBefore(YearOfDay(day) + 1)
    ensures MonthOfDay(day + 1) == MonthOfDay(day) + 1
  {
    NextDay(day);
    NextYearOfEra(day);
    LastDayOfYear(day);
    MonthOfYearEnds();
    MonthShape(day);
    MonthShape(day + 1);
  }

  /** The next day is in the same month or in the next one. */
  lemma MonthStep(day: int)
    ensures MonthOfDay(day + 1) == MonthOfDay(day) || MonthOfDay(day + 1) == MonthOfDay(day) + 1
  {
    if DayOfEra(day) == DaysPerEra - 1 {
      EraBoundaryStep(day);
    } else if DayOfEra(day) + 1 < DaysBefore(YearOfDay(day) + 1) {
      SameYearStep(day);
    } else {
      NewYearStep(day);
    }
  }

  /** A later day never lies in an earlier month. */
  lemma {:induction false} MonthMonotone(d1: int, d2: int)
    requires d1 <= d2
    ensures MonthOfDay(d1) <= MonthOfDay(d2)
    decreases d2 - d1
  {
    if d1 < d2 {
      MonthMonotone(d1, d2 - 1);
      MonthStep(d2 - 1);
    }
  }

  /** Every time of a day has that day's number, and the day number only grows with time. */
  lemma DayBounds(t: int)
    ensures Day(t) * SecondsPerDay <= t < (Day(t) + 1) * SecondsPerDay
  {
  }

  lemma {:induction false} DayMonotone(t: int, u: int)
    requires t <= u
    ensures Day(t) <= Day(u)
  {
    DayBounds(t);
    DayBounds(u);
  }

  /** A later time never lies in an earlier month. */
  lemma MonthOfTimeMonotone(t: int, u: int)
    requires t <= u
    ensures Month(t) <= Month(u)
  {
    DayMonotone(t, u);
    MonthMonotone(Day(t), Day(u));
  }

  /** Reference points: 1970-01-01, 2024-01-05, 2024-02-29 and 1969-12-31. */
  lemma EpochExample()
    ensures Day(0) == 0 && Month(0) == 1970 * 12 + 0
  {
    assert EraOf(0) == 4 && DayOfEra(0) == 135080;
    YearOfEraUnique(135080, 369);
    assert 1532 / 153 == 10;
  }

  lemma NewYearExample()
    ensures Day(1704412800) == 19727 && Month(1704412800) == 2024 * 12 + 0
  {
    assert 1704412800 / 86400 == 19727;
    assert EraOf(19727) == 5 && DayOfEra(19727) == 8710;
    YearOfEraUnique(8710, 23);
    assert 1552 / 153 == 10;
  }

  lemma LeapDayExample()
    ensures MonthOfDay(19782) == 2024 * 12 + 1
  {
    assert EraOf(19782) == 5 && DayOfEra(19782) == 8765;
    YearOfEraUnique(8765, 23);
    assert 1827 / 153 == 11;
  }

  lemma BeforeEpochExample()
    ensures Day(-1) == -1 && MonthOfDay(-1) == 1969 * 12 + 11
  {
    assert -1 / 86400 == -1;
    assert EraOf(-1) == 4 && DayOfEra(-1) == 135079;
    YearOfEraUnique(135079, 369);
    assert 1527 / 153 == 9;
  }
}
