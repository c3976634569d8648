/** The updater's civil dates and timestamps, against a calendar that is stepped one day at a time. */
module Calendar {

  datatype Date = Date(year: int, month: int, day: int)

  // ---------------------------------------------------------------------------------------------
  // The Gregorian calendar, day by day
  // ---------------------------------------------------------------------------------------------

  predicate Leap(year: int) {
    year % 4 == 0 && (year % 100 != 0 || year % 400 == 0)
  }

  function MonthLength(year: int, month: int): int {
    if month == 2 then if Leap(year) then 29 else 28
    else if month == 4 || month == 6 || month == 9 || month == 11 then 30
    else 31
  }

  predicate ValidDate(date: Date) {
    1 <= date.month <= 12 && 1 <= date.day <= MonthLength(date.year, date.month)
  }

  function Tomorrow(date: Date): Date {
    if date.day < MonthLength(date.year, date.month) then date.(day := date.day + 1)
    else if date.month < 12 then Date(date.year, date.month + 1, 1)
    else Date(date.year + 1, 1, 1)
  }

  const EPOCH := Date(1970, 1, 1)

  function DateAfter(days: nat): Date {
    if days == 0 then EPOCH else Tomorrow(DateAfter(days - 1))
  }

  // ---------------------------------------------------------------------------------------------
  // The closed formula
  // ---------------------------------------------------------------------------------------------

  const I64_LIMIT: nat := 0x8000_0000_0000_0000

  function YearOfEra(dayOfEra: nat): int {
    (dayOfEra - dayOfEra / 1_460 + dayOfEra / 36_524 - dayOfEra / 146_096) / 365
  }

  /** The day of the era on which a year begins, counting years from March. */
  function YearStart(yearOfEra: int): int {
    365 * yearOfEra + yearOfEra / 4 - yearOfEra / 100
  }

  function MonthPrime(dayOfYear: int): int {
    (5 * dayOfYear + 2) / 153
  }

  /** Month and day from the day of a March-based year. */
  function DateInYear(era: int, yearOfEra: int, dayOfYear: int): Date {
    var monthPrime := MonthPrime(dayOfYear);
    var day := dayOfYear - (153 * monthPrime + 2) / 5 + 1;
    var month := monthPrime + if monthPrime < 10 then 3 else -9;
    var year := yearOfEra + era * 400;
    Date(if month <= 2 then year + 1 else year, month, day)
  }

  /** `utc_date` on a day count: the era of 400 years, the year of the era, the day of the March-based year. */
  function CivilDate(days: nat): Date {
    var z := days + 719_468;
    var era := z / 146_097;
    DateInEra(era, z - era * 146_097)
  }

  function DateInEra(era: int, dayOfEra: nat): Date {
    var yearOfEra := YearOfEra(dayOfEra);
    DateInYear(era, yearOfEra, dayOfEra - YearStart(yearOfEra))
  }

  /** A day of the era as centuries, four-year spans, years and days. */
  predicate EraParts(dayOfEra: int, c: int, q: int, r: int, s: int) {
    && dayOfEra == 36_524 * c + 1_461 * q + 365 * r + s
    && 0 <= c <= 3 && 0 <= q <= 24 && 0 <= r <= 3 && 0 <= s <= 365
    && (s == 365 ==> r == 3 && (q < 24 || c == 3))
  }

  lemma FindEraParts(dayOfEra: nat) returns (c: int, q: int, r: int, s: int)
    requires dayOfEra < 146_097
    ensures EraParts(dayOfEra, c, q, r, s)
  {
    c := if dayOfEra / 36_524 < 4 then dayOfEra / 36_524 else 3;
    var inCentury := dayOfEra - 36_524 * c;
    q := if inCentury / 1_461 < 25 then inCentury / 1_461 else 24;
    var inSpan := inCentury - 1_461 * q;
    r := if inSpan / 365 < 4 then inSpan / 365 else 3;
    s := inSpan - 365 * r;
  }

  lemma QuotientIs(n: int, d: int, q: int)
    requires d > 0 && d * q <= n < d * q + d
    ensures n / d == q
  {
    var p, m := n / d, n % d;
    assert n == d * p + m;
    Scaled(p + 1, q, d);
    Scaled(q + 1, p, d);
  }

  lemma Scaled(a: int, b: int, d: int)
    requires d > 0
    ensures a <= b ==> d * a <= d * b
  {
  }

  lemma YearOfParts(dayOfEra: nat, c: int, q: int, r: int, s: int)
    requires dayOfEra < 146_097 && EraParts(dayOfEra, c, q, r, s)
    ensures YearOfEra(dayOfEra) == 100 * c + 4 * q + r
  {
    var carry := if 24 * c + q + 365 * r + s >= 1_460 then 1 else 0;
    assert dayOfEra / 1_460 == 25 * c + q + carry;
    var last := if dayOfEra == 146_096 then 1 else 0;
    assert dayOfEra / 146_096 == last;
    assert dayOfEra / 36_524 == c + last;
    QuotientIs(dayOfEra - dayOfEra / 1_460 + dayOfEra / 36_524 - dayOfEra / 146_096, 365, 100 * c + 4 * q + r);
  }

  lemma StartOfParts(c: int, q: int, r: int)
    requires 0 <= c <= 4 && 0 <= q <= 24 && 0 <= r <= 3
    ensures YearStart(100 * c + 4 * q + r) == 36_524 * c + 1_461 * q + 365 * r
  {
  }

  /** The year of the era is the year in which the day falls. */
  lemma YearOfEraIs(dayOfEra: nat)
    requires dayOfEra < 146_097
    ensures var y := YearOfEra(dayOfEra);
            0 <= y < 400 && YearStart(y) <= dayOfEra < YearStart(y) + YearLength(y)
  {
    var c, q, r, s := FindEraParts(dayOfEra);
    YearOfParts(dayOfEra, c, q, r, s);
    hide YearOfEra;
    StartOfParts(c, q, r);
    hide YearStart;
    if s == 365 {
      LeapOfParts(c, q);
    }
    hide Leap;
  }

  lemma LeapOfParts(c: int, q: int)
    requires 0 <= c <= 3 && 0 <= q <= 24 && (q < 24 || c == 3)
    ensures Leap(100 * c + 4 * q + 4)
  {
  }

  /** The length of a March-based year: the leap day ends it. */
  function YearLength(y: int): int {
    if y >= 0 && Leap(y + 1) then 366 else 365
  }

  /** Each year starts where the one before it ends; the last year of an era ends the era. */
  lemma YearsAdjoin(y: nat)
    requires y < 400
    ensures YearStart(y) + YearLength(y) == if y == 399 then 146_097 else YearStart(y + 1)
  {
  }

  /** A day's year is the only one whose span it lies in. */
  lemma YearUnique(dayOfEra: nat, y: nat)
    requires dayOfEra < 146_097 && y < 400 && YearStart(y) <= dayOfEra < YearStart(y) + YearLength(y)
    ensures YearOfEra(dayOfEra) == y
  {
    YearOfEraIs(dayOfEra);
    var w := YearOfEra(dayOfEra);
    if w < y {
      StartsGrow(w, y);
    } else if y < w {
      StartsGrow(y, w);
    }
  }

  lemma {:induction false} StartsGrow(x: nat, y: nat)
    requires x < y < 400
    ensures YearStart(x) + YearLength(x) <= YearStart(y)
    decreases y - x
  {
    YearsAdjoin(x);
    if x + 1 < y {
      StartsGrow(x + 1, y);
    }
  }

  // ---------------------------------------------------------------------------------------------
  // The formula steps with the calendar
  // ---------------------------------------------------------------------------------------------

  lemma RemainderShift(y: int, k: int, d: int)
    requires d > 0
    ensures (y + d * k) % d == y % d
  {
    var q, r := y / d, y % d;
    assert y + d * k == d * (q + k) + r;
    QuotientIs(y + d * k, d, q + k);
  }

  lemma LeapAcrossEras(y: int, era: int)
    ensures Leap(y + era * 400) == Leap(y)
  {
    RemainderShift(y, era, 400);
    RemainderShift(y, 4 * era, 100);
    RemainderShift(y, 100 * era, 4);
  }

  /** The month and day of a day of the year. */
  lemma MonthOfDay(dayOfYear: int)
    requires 0 <= dayOfYear <= 365
    ensures var m := MonthPrime(dayOfYear);
            0 <= m <= 11 && (153 * m + 2) / 5 <= dayOfYear && (m < 11 ==> dayOfYear < (153 * (m + 1) + 2) / 5)
  {
  }

  lemma MonthUnique(dayOfYear: int, m: int)
    requires 0 <= dayOfYear <= 365 && 0 <= m <= 11
    requires (153 * m + 2) / 5 <= dayOfYear && (m < 11 ==> dayOfYear < (153 * (m + 1) + 2) / 5)
    ensures MonthPrime(dayOfYear) == m
  {
  }

  lemma NextDayInYear(era: int, y: int, dayOfYear: int)
    requires 0 <= y && 0 <= dayOfYear && dayOfYear + 1 < YearLength(y)
    ensures DateInYear(era, y, dayOfYear + 1) == Tomorrow(DateInYear(era, y, dayOfYear))
    ensures ValidDate(DateInYear(era, y, dayOfYear))
  {
    LeapAcrossEras(y + 1, era);
    hide Leap;
    var m := MonthPrime(dayOfYear);
    MonthOfDay(dayOfYear);
    if m < 11 && dayOfYear + 1 == (153 * (m + 1) + 2) / 5 {
      MonthUnique(dayOfYear + 1, m + 1);
      hide MonthPrime;
    } else {
      MonthUnique(dayOfYear + 1, m);
      hide MonthPrime;
    }
  }

  lemma LastDayOfYear(era: int, y: int)
    requires 0 <= y
    ensures Tomorrow(DateInYear(era, y, YearLength(y) - 1)) == Date(y + 1 + era * 400, 3, 1)
    ensures ValidDate(DateInYear(era, y, YearLength(y) - 1))
  {
    LeapAcrossEras(y + 1, era);
    MonthUnique(YearLength(y) - 1, 11);
  }

  /** A day of the era, given its year. */
  lemma DateInKnownYear(era: int, y: nat, dayOfYear: nat)
    requires y < 400 && dayOfYear < YearLength(y)
    ensures 0 <= YearStart(y) && YearStart(y) + dayOfYear < 146_097
    ensures DateInEra(era, YearStart(y) + dayOfYear) == DateInYear(era, y, dayOfYear)
  {
    YearsAdjoin(y);
    if y < 399 {
      StartsGrow(y, 399);
      YearsAdjoin(399);
    }
    hide YearLength, YearOfEra, DateInYear;
    assert YearStart(y) >= 0;
    hide YearStart;
    YearUnique(YearStart(y) + dayOfYear, y);
  }

  /** Within an era the next day is tomorrow; after its last day comes the first of the next era. */
  lemma EraSteps(era: int, dayOfEra: nat)
    requires dayOfEra < 146_097
    ensures ValidDate(DateInEra(era, dayOfEra))
    ensures Tomorrow(DateInEra(era, dayOfEra)) ==
            if dayOfEra < 146_096 then DateInEra(era, dayOfEra + 1) else DateInEra(era + 1, 0)
  {
    hide YearLength, YearStart, YearOfEra, DateInYear, Tomorrow, ValidDate;
    var y := YearOfEra(dayOfEra);
    YearOfEraIs(dayOfEra);
    YearsAdjoin(y);
    var dayOfYear := dayOfEra - YearStart(y);
    if dayOfYear + 1 < YearLength(y) {
      NextDayInYear(era, y, dayOfYear);
      DateInKnownYear(era, y, dayOfYear + 1);
    } else {
      LastDayOfYear(era, y);
      if y < 399 {
        YearBegins(era, y + 1);
        assert dayOfEra + 1 == YearStart(y + 1);
      } else {
        YearBegins(era + 1, 0);
        assert dayOfEra == 146_096;
      }
    }
  }

  lemma YearBegins(era: int, y: nat)
    requires y < 400
    ensures DateInEra(era, YearStart(y)) == Date(y + era * 400, 3, 1)
    ensures YearStart(0) == 0 && YearStart(y) < 146_097
  {
    assert YearLength(y) > 0;
    hide YearOfEra, YearLength, DateInEra;
    DateInKnownYear(era, y, 0);
  }

  /** One day later the formula gives the next day. */
  lemma CivilDateSteps(days: nat)
    ensures CivilDate(days + 1) == Tomorrow(CivilDate(days))
    ensures ValidDate(CivilDate(days))
  {
    hide DateInEra, Tomorrow, ValidDate;
    var z := days + 719_468;
    var era := z / 146_097;
    EraSteps(era, z - era * 146_097);
    QuotientIs(z + 1, 146_097, if z - era * 146_097 < 146_096 then era else era + 1);
  }

  lemma CivilEpoch()
    ensures CivilDate(0) == EPOCH
  {
    assert YearStart(369) + 306 == 135_080;
    DateInKnownYear(4, 369, 306);
    assert DateInYear(4, 369, 306) == EPOCH;
    hide DateInEra, YearStart;
    assert 719_468 / 146_097 == 4;
  }

  /** The formula is the calendar, on every day count. */
  lemma {:induction false} CivilDateIsCalendar(days: nat)
    ensures CivilDate(days) == DateAfter(days)
    ensures ValidDate(DateAfter(days))
  {
    hide CivilDate, Tomorrow, ValidDate;
    CivilDateSteps(days);
    if days == 0 {
      CivilEpoch();
    } else {
      CivilDateIsCalendar(days - 1);
      CivilDateSteps(days - 1);
    }
  }

  // ---------------------------------------------------------------------------------------------
  // Distinct days
  // ---------------------------------------------------------------------------------------------

  predicate Earlier(a: Date, b: Date) {
    a.year < b.year || (a.year == b.year && (a.month < b.month || (a.month == b.month && a.day < b.day)))
  }

  /** Later days have later dates, so no date comes twice. */
  lemma {:induction false} DatesIncrease(i: nat, j: nat)
    requires i < j
    ensures Earlier(DateAfter(i), DateAfter(j))
    decreases j - i
  {
    CivilDateIsCalendar(j - 1);
    TomorrowIsLater(DateAfter(j - 1));
    hide Tomorrow, ValidDate;
    if i < j - 1 {
      DatesIncrease(i, j - 1);
    }
  }

  lemma TomorrowIsLater(date: Date)
    requires ValidDate(date)
    ensures Earlier(date, Tomorrow(date))
  {
    hide Leap;
  }
}
