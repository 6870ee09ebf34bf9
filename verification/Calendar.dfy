/** Proleptic Gregorian day counting, as the authority instants use it. */
module Calendar {

  datatype Date = Date(year: int, month: int, day: int)

  /** The Gregorian leap rule. */
  predicate Leap(year: int) {
    year % 4 == 0 && (year % 100 != 0 || year % 400 == 0)
  }

  function MonthLength(year: int, month: int): int
    requires 1 <= month <= 12
  {
    if month == 2 then (if Leap(year) then 29 else 28)
    else if month in {4, 6, 9, 11} then 30
    else 31
  }

  predicate ValidDate(d: Date) {
    1 <= d.month <= 12 && 1 <= d.day <= MonthLength(d.year, d.month)
  }

  /** The calendar's own notion of "tomorrow", independent of any day count. */
  function NextDay(d: Date): (r: Date)
    requires ValidDate(d)
    ensures ValidDate(r)
    ensures Before(d, r)
  {
    if d.day < MonthLength(d.year, d.month) then Date(d.year, d.month, d.day + 1)
    else if d.month < 12 then Date(d.year, d.month + 1, 1)
    else Date(d.year + 1, 1, 1)
  }

  /** Chronological order on calendar dates. */
  predicate Before(a: Date, b: Date) {
    a.year < b.year
    || (a.year == b.year && (a.month < b.month || (a.month == b.month && a.day < b.day)))
  }

  // Both conversions count years from 1 March, in eras of 400 years (146097 days).

  function DaysFromCivil(d: Date): int {
    var adjustedYear := d.year - (if d.month <= 2 then 1 else 0);
    var era := adjustedYear / 400;
    var yearOfEra := adjustedYear - era * 400;
    var monthPrime := d.month + (if d.month > 2 then -3 else 9);
    var dayOfYear := (153 * monthPrime + 2) / 5 + d.day - 1;
    var dayOfEra := yearOfEra * 365 + yearOfEra / 4 - yearOfEra / 100 + dayOfYear;
    era * 146097 + dayOfEra - 719468
  }

  function CivilFromDays(daysSinceEpoch: int): Date {
    var shifted := daysSinceEpoch + 719468;
    var era := shifted / 146097;
    var dayOfEra := shifted - era * 146097;
    var yearOfEra := YearOfEra(dayOfEra);
    var dayOfYear := dayOfEra - (365 * yearOfEra + yearOfEra / 4 - yearOfEra / 100);
    var monthPrime := (5 * dayOfYear + 2) / 153;
    var day := dayOfYear - (153 * monthPrime + 2) / 5 + 1;
    var month := monthPrime + (if monthPrime < 10 then 3 else -9);
    var year := yearOfEra + era * 400 + (if month <= 2 then 1 else 0);
    Date(year, month, day)
  }

  function YearOfEra(dayOfEra: int): int {
    (dayOfEra - dayOfEra / 1460 + dayOfEra / 36524 - dayOfEra / 146096) / 365
  }

  // ---- Years within an era -------------------------------------------------

  /** Days before March-based year `y` of an era. */
  function YearStart(y: int): int {
    365 * y + y / 4 - y / 100
  }

  /** Length of March-based year `y`: it ends with the February of civil year y+1. */
  function YearLength(y: int): int {
    if Leap(y + 1) then 366 else 365
  }

  lemma YearStartStep(y: int)
    requires 0 <= y < 400
    ensures YearStart(y + 1) + (if y == 399 then 1 else 0) == YearStart(y) + YearLength(y)
  {
    assert (y + 1) / 4 == y / 4 + (if (y + 1) % 4 == 0 then 1 else 0);
    assert (y + 1) / 100 == y / 100 + (if (y + 1) % 100 == 0 then 1 else 0);
    assert (y + 1) % 400 == 0 <==> y == 399;
  }

  /** Century, leap cycle and year of the cycle of a March-based year. */
  lemma YearParts(y: int, doy: int) returns (c: int, q: int, r: int)
    requires 0 <= y < 400 && 0 <= doy < YearLength(y)
    ensures y == 100 * c + 4 * q + r && 0 <= c <= 3 && 0 <= q <= 24 && 0 <= r <= 3
    ensures YearStart(y) == 36524 * c + 1461 * q + 365 * r
    ensures 0 <= doy <= 365 && (doy == 365 ==> r == 3 && (q < 24 || c == 3))
  {
    c, q, r := y / 100, y % 100 / 4, y % 4;
  }

  /** The remainder of a quotient-remainder pair is the remainder. */
  lemma Remainder(n: int, q: int, r: int, m: int)
    requires m in {4, 100, 400, 1460, 36524, 146096, 146097} && n == q * m + r && 0 <= r < m
    ensures n / m == q && n % m == r
  {
  }

  predicate InEra(c: int, q: int, r: int, doy: int) {
    0 <= c <= 3 && 0 <= q <= 24 && 0 <= r <= 3 && 0 <= doy <= 365 && (doy == 365 ==> r == 3 && (q < 24 || c == 3))
  }

  lemma LeapCycles(c: int, q: int, r: int, doy: int)
    requires InEra(c, q, r, doy)
    ensures var e := if 24 * c + q + 365 * r + doy >= 1460 then 1 else 0;
            (36524 * c + 1461 * q + 365 * r + doy) / 1460 == 25 * c + q + e && 0 <= doy - e < 365
  {
    var rest := 24 * c + q + 365 * r + doy;
    var e := if rest >= 1460 then 1 else 0;
    Remainder(36524 * c + 1461 * q + 365 * r + doy, 25 * c + q + e, rest - 1460 * e, 1460);
  }

  lemma CenturiesAndEra(c: int, q: int, r: int, doy: int)
    requires InEra(c, q, r, doy)
    ensures var doe := 36524 * c + 1461 * q + 365 * r + doy;
            doe / 36524 - doe / 146096 == c
  {
    var doe := 36524 * c + 1461 * q + 365 * r + doy;
    var last := if c == 3 && q == 24 && r == 3 && doy == 365 then 1 else 0;
    Remainder(doe, c + last, doe - 36524 * (c + last), 36524);
    Remainder(doe, last, doe - 146096 * last, 146096);
  }

  /** The division trick finds the year that a day of an era falls in. */
  lemma YearOfEraExact(y: int, doy: int)
    requires 0 <= y < 400 && 0 <= doy < YearLength(y)
    ensures YearOfEra(YearStart(y) + doy) == y
  {
    var c, q, r := YearParts(y, doy);
    hide Leap, YearLength, YearStart;
    LeapCycles(c, q, r, doy);
    CenturiesAndEra(c, q, r, doy);
  }

  /** Every day of an era lies in exactly the year the division trick names. */
  lemma {:induction false} DayOfEraSplit(doe: int, y: int)
    requires 0 <= y <= 400 && 0 <= doe < YearStart(y) + (if y == 400 then 1 else 0)
    ensures var k := YearOfEra(doe); 0 <= k < 400 && 0 <= doe - YearStart(k) < YearLength(k)
    decreases y
  {
    YearStartStep(y - 1);
    if YearStart(y - 1) <= doe {
      YearOfEraExact(y - 1, doe - YearStart(y - 1));
    } else {
      DayOfEraSplit(doe, y - 1);
    }
  }

  // ---- Months within a year ------------------------------------------------

  function MonthStart(monthPrime: int): int {
    (153 * monthPrime + 2) / 5
  }

  lemma MonthExact(y: int, monthPrime: int, day: int)
    requires 0 <= monthPrime < 12
    requires var month := monthPrime + (if monthPrime < 10 then 3 else -9);
             1 <= day <= MonthLength(if month <= 2 then y + 1 else y, month)
    ensures var doy := MonthStart(monthPrime) + day - 1;
            0 <= doy < YearLength(y) && (5 * doy + 2) / 153 == monthPrime
  {
  }

  lemma MonthSplit(y: int, doy: int)
    requires 0 <= doy < YearLength(y)
    ensures var mp := (5 * doy + 2) / 153;
            var month := mp + (if mp < 10 then 3 else -9);
            && 0 <= mp < 12
            && 1 <= doy - MonthStart(mp) + 1 <= MonthLength(if month <= 2 then y + 1 else y, month)
  {
    var mp := (5 * doy + 2) / 153;
    assert 0 <= mp < 12;
  }

  /** The leap rule repeats every 400 years. */
  lemma LeapPeriod(year: int, era: int)
    ensures Leap(year + 400 * era) == Leap(year)
  {
    Remainder(year + 400 * era, year / 4 + 100 * era, year % 4, 4);
    Remainder(year + 400 * era, year / 100 + 4 * era, year % 100, 100);
    Remainder(year + 400 * era, year / 400 + era, year % 400, 400);
  }

  // ---- The bijection -------------------------------------------------------

  // A date seen from 1 March: era, year of the era, month counted from March, day of the month.

  function AdjustedYear(d: Date): int {
    d.year - (if d.month <= 2 then 1 else 0)
  }

  function MonthPrime(d: Date): int {
    d.month + (if d.month > 2 then -3 else 9)
  }

  lemma MarchView(d: Date)
    requires ValidDate(d)
    ensures var y := AdjustedYear(d) % 400;
            var doy := MonthStart(MonthPrime(d)) + d.day - 1;
            && 0 <= y < 400 && 0 <= doy < YearLength(y)
            && (5 * doy + 2) / 153 == MonthPrime(d)
            && DaysFromCivil(d) == AdjustedYear(d) / 400 * 146097 + YearStart(y) + doy - 719468
  {
    var era, y := AdjustedYear(d) / 400, AdjustedYear(d) % 400;
    LeapPeriod(y + 1, era);
    assert y + 1 + 400 * era == AdjustedYear(d) + 1;
    LeapPeriod(y, era);
    MonthExact(y, MonthPrime(d), d.day);
  }

  lemma {:induction false} DayOfEraBound(y: int, doy: int)
    requires 0 <= y < 400 && 0 <= doy < YearLength(y)
    ensures 0 <= YearStart(y) + doy < 146097
  {
    if y != 399 {
      assert y / 4 - y / 100 <= 97;
    }
  }

  /** The date at day `doy` of March-based year `y` of an era. */
  function DateAt(era: int, y: int, doy: int): Date {
    var mp := (5 * doy + 2) / 153;
    var month := mp + (if mp < 10 then 3 else -9);
    Date(y + era * 400 + (if month <= 2 then 1 else 0), month, doy - MonthStart(mp) + 1)
  }

  lemma CivilOfShifted(n: int, era: int, doe: int)
    requires n == era * 146097 + doe && 0 <= doe < 146097
    ensures CivilFromDays(n - 719468) == DateAt(era, YearOfEra(doe), doe - YearStart(YearOfEra(doe)))
  {
    hide YearOfEra;
    Remainder(n, era, doe, 146097);
  }

  lemma CivilFromParts(era: int, y: int, doy: int)
    requires 0 <= y < 400 && 0 <= doy < YearLength(y)
    ensures CivilFromDays(era * 146097 + YearStart(y) + doy - 719468) == DateAt(era, y, doy)
  {
    hide CivilFromDays, DateAt, YearOfEra;
    var doe := YearStart(y) + doy;
    DayOfEraBound(y, doy);
    YearOfEraExact(y, doy);
    CivilOfShifted(era * 146097 + doe, era, doe);
  }

  /** `DateAt` and the March view of a date undo each other. */
  lemma PartsOfDateAt(era: int, y: int, doy: int)
    requires 0 <= y < 400 && 0 <= doy < YearLength(y)
    ensures var d := DateAt(era, y, doy);
            && ValidDate(d)
            && AdjustedYear(d) / 400 == era && AdjustedYear(d) % 400 == y
            && MonthStart(MonthPrime(d)) + d.day - 1 == doy
  {
    MonthSplit(y, doy);
    LeapPeriod(y, era);
    LeapPeriod(y + 1, era);
    assert y + 1 + 400 * era == y + 400 * era + 1;
    Remainder(y + era * 400, era, y, 400);
  }

  lemma DateAtMarchView(d: Date)
    requires ValidDate(d)
    ensures DateAt(AdjustedYear(d) / 400, AdjustedYear(d) % 400, MonthStart(MonthPrime(d)) + d.day - 1) == d
  {
    MarchView(d);
  }

  /** Every valid date survives the trip through its day number. */
  lemma CivilAfterDays(d: Date)
    requires ValidDate(d)
    ensures CivilFromDays(DaysFromCivil(d)) == d
  {
    hide CivilFromDays, DaysFromCivil, DateAt, MonthStart, MonthPrime, YearStart, YearLength, ValidDate, AdjustedYear;
    var era, y := AdjustedYear(d) / 400, AdjustedYear(d) % 400;
    var doy := MonthStart(MonthPrime(d)) + d.day - 1;
    MarchView(d);
    CivilFromParts(era, y, doy);
    DateAtMarchView(d);
  }

  lemma EraSplit(n: int) returns (era: int, y: int, doy: int)
    ensures 0 <= y < 400 && 0 <= doy < YearLength(y)
    ensures n == era * 146097 + YearStart(y) + doy
  {
    era := n / 146097;
    DayOfEraSplit(n % 146097, 400);
    y := YearOfEra(n % 146097);
    doy := n % 146097 - YearStart(y);
  }

  /** Every integer is the day number of the valid date it converts to. */
  lemma DaysAfterCivil(n: int)
    ensures ValidDate(CivilFromDays(n))
    ensures DaysFromCivil(CivilFromDays(n)) == n
  {
    var era, y, doy := EraSplit(n + 719468);
    CivilFromParts(era, y, doy);
    PartsOfDateAt(era, y, doy);
    MarchView(DateAt(era, y, doy));
  }

  /** Counting days is counting tomorrows: the conversion agrees with the calendar itself. */
  lemma NextDayIsNextNumber(d: Date)
    requires ValidDate(d)
    ensures DaysFromCivil(NextDay(d)) == DaysFromCivil(d) + 1
  {
    var n := NextDay(d);
    MarchView(d);
    MarchView(n);
    if n.month == 3 && n.day == 1 {
      LastOfFebruary(d);
      NextMarchYear(AdjustedYear(d));
    } else {
      NextDayInMarchYear(d);
    }
  }

  lemma NextDayInMarchYear(d: Date)
    requires ValidDate(d) && !(NextDay(d).month == 3 && NextDay(d).day == 1)
    ensures var n := NextDay(d);
            && AdjustedYear(n) == AdjustedYear(d)
            && MonthStart(MonthPrime(n)) + n.day == MonthStart(MonthPrime(d)) + d.day + 1
  {
  }

  lemma NextMarchYear(a: int)
    ensures (a + 1) / 400 * 146097 + YearStart((a + 1) % 400)
            == a / 400 * 146097 + YearStart(a % 400) + YearLength(a % 400)
  {
    var era, y := a / 400, a % 400;
    YearStartStep(y);
    if y == 399 {
      Remainder(a + 1, era + 1, 0, 400);
    } else {
      Remainder(a + 1, era, y + 1, 400);
    }
  }

  lemma LastOfFebruary(d: Date)
    requires ValidDate(d) && d.month == 2 && d.day == MonthLength(d.year, 2)
    ensures MonthStart(MonthPrime(d)) + d.day == YearLength(AdjustedYear(d) % 400)
  {
    var era, y := AdjustedYear(d) / 400, AdjustedYear(d) % 400;
    LeapPeriod(y + 1, era);
    assert y + 1 + 400 * era == d.year;
  }

  // ---- Order ---------------------------------------------------------------

  /** Day numbers of valid dates grow strictly with the calendar. */
  lemma DaysFollowCalendar(a: Date, b: Date)
    requires ValidDate(a) && ValidDate(b)
    ensures Before(a, b) <==> DaysFromCivil(a) < DaysFromCivil(b)
  {
    if Before(a, b) {
      EarlierIsSmaller(a, b);
    } else if a != b {
      EarlierIsSmaller(b, a);
    }
  }

  function Ordinal(d: Date): int {
    372 * d.year + 31 * (d.month - 1) + d.day
  }

  lemma {:induction false} EarlierIsSmaller(a: Date, b: Date)
    requires ValidDate(a) && ValidDate(b) && Before(a, b)
    ensures DaysFromCivil(a) < DaysFromCivil(b)
    decreases Ordinal(b) - Ordinal(a)
  {
    hide DaysFromCivil;
    var n := NextDay(a);
    NextDayIsNextNumber(a);
    if n != b {
      assert Before(n, b);
      EarlierIsSmaller(n, b);
    }
  }
}
