/** The proleptic Gregorian calendar the engine reads through Python's datetime
    and calendar modules: civil instants, their lexicographic order, and the
    whole-second count that order is isomorphic to. */
module Calendar {

  /** A naive datetime with its microseconds dropped. */
  datatype Civil = Civil(year: int, month: int, day: int, hour: int, minute: int, second: int)

  predicate IsLeap(y: int) {
    y % 4 == 0 && (y % 100 != 0 || y % 400 == 0)
  }

  /** calendar.monthrange(y, m)[1]. */
  function MonthEnd(y: int, m: int): (n: int)
    requires 1 <= m <= 12
    ensures 28 <= n <= 31
  {
    if m == 2 then (if IsLeap(y) then 29 else 28)
    else if m == 4 || m == 6 || m == 9 || m == 11 then 30
    else 31
  }

  /** Days before January 1st of year y, counted from 0001-01-01. */
  function DaysBeforeYear(y: int): int {
    var p := y - 1;
    365 * p + p / 4 - p / 100 + p / 400
  }

  function DaysBeforeMonth(y: int, m: int): (n: int)
    requires 1 <= m <= 12
    ensures 0 <= n
    ensures m == 12 ==> n + 31 == (if IsLeap(y) then 366 else 365)
    decreases m
  {
    if m == 1 then 0 else
      assert m == 12 ==> DaysBeforeMonth(y, 11) == DaysBeforeMonth(y, 10) + 31;
      assert m >= 10 ==> DaysBeforeMonth(y, 9) == DaysBeforeMonth(y, 8) + 31;
      assert m >= 8 ==> DaysBeforeMonth(y, 7) == DaysBeforeMonth(y, 6) + 30;
      assert m >= 6 ==> DaysBeforeMonth(y, 5) == DaysBeforeMonth(y, 4) + 30;
      assert m >= 4 ==> DaysBeforeMonth(y, 3) == DaysBeforeMonth(y, 2) + MonthEnd(y, 2);
      DaysBeforeMonth(y, m - 1) + MonthEnd(y, m - 1)
  }

  predicate ValidDate(y: int, m: int, d: int) {
    1 <= m <= 12 && 1 <= d <= MonthEnd(y, m)
  }

  /** date.toordinal(): 0001-01-01 is day 1. */
  function Ordinal(y: int, m: int, d: int): int
    requires 1 <= m <= 12
  {
    DaysBeforeYear(y) + DaysBeforeMonth(y, m) + d
  }

  /** date.weekday(): Monday is 0, Sunday is 6. */
  function Weekday(y: int, m: int, d: int): int
    requires 1 <= m <= 12
  {
    (Ordinal(y, m, d) + 6) % 7
  }

  predicate ValidCivil(c: Civil) {
    ValidDate(c.year, c.month, c.day) && 0 <= c.hour < 24 && 0 <= c.minute < 60 && 0 <= c.second < 60
  }

  function SecondOfDay(c: Civil): int {
    3600 * c.hour + 60 * c.minute + c.second
  }

  predicate DateLess(a: Civil, b: Civil) {
    a.year < b.year || (a.year == b.year && (a.month < b.month || (a.month == b.month && a.day < b.day)))
  }

  predicate SameDate(a: Civil, b: Civil) {
    a.year == b.year && a.month == b.month && a.day == b.day
  }

  /** datetime's own ordering. */
  predicate Less(a: Civil, b: Civil) {
    DateLess(a, b) || (SameDate(a, b) && SecondOfDay(a) < SecondOfDay(b))
  }

  /** The whole-second count of a civil instant. */
  function Seconds(c: Civil): int
    requires 1 <= c.month <= 12
  {
    86400 * Ordinal(c.year, c.month, c.day) + SecondOfDay(c)
  }

  // ---------------------------------------------------------------------
  // The order and the count agree
  // ---------------------------------------------------------------------

  /** A quotient by a positive constant is fixed by its quotient and remainder. */
  lemma QuotientIs(n: int, k: int, q: int, r: int)
    requires k == 4 || k == 100 || k == 400
    requires n == k * q + r && 0 <= r < k
    ensures n / k == q && n % k == r
  {
  }

  lemma QuotientStep(p: int, k: int)
    requires k == 4 || k == 100 || k == 400
    ensures (p + 1) / k == p / k + (if (p + 1) % k == 0 then 1 else 0)
  {
    if p % k == k - 1 {
      QuotientIs(p + 1, k, p / k + 1, 0);
    } else {
      QuotientIs(p + 1, k, p / k, p % k + 1);
    }
  }

  lemma Divides(y: int)
    ensures y % 400 == 0 ==> y % 100 == 0
    ensures y % 100 == 0 ==> y % 4 == 0
  {
    if y % 400 == 0 {
      QuotientIs(y, 100, 4 * (y / 400), 0);
    }
    if y % 100 == 0 {
      QuotientIs(y, 4, 25 * (y / 100), 0);
    }
  }

  lemma YearLength(y: int)
    ensures DaysBeforeYear(y + 1) == DaysBeforeYear(y) + (if IsLeap(y) then 366 else 365)
  {
    QuotientStep(y - 1, 4);
    QuotientStep(y - 1, 100);
    QuotientStep(y - 1, 400);
    Divides(y);
  }

  lemma {:induction false} YearsMonotone(a: int, b: int)
    requires a <= b
    ensures DaysBeforeYear(a) + 365 * (b - a) <= DaysBeforeYear(b)
    decreases b - a
  {
    if a < b {
      YearLength(b - 1);
      YearsMonotone(a, b - 1);
    }
  }

  lemma {:induction false} MonthsMonotone(y: int, a: int, b: int)
    requires 1 <= a < b <= 12
    ensures DaysBeforeMonth(y, a) + MonthEnd(y, a) <= DaysBeforeMonth(y, b)
    decreases b - a
  {
    if a < b - 1 {
      MonthsMonotone(y, a, b - 1);
    }
  }

  lemma DayOfYearBound(y: int, m: int, d: int)
    requires ValidDate(y, m, d)
    ensures 1 <= DaysBeforeMonth(y, m) + d <= (if IsLeap(y) then 366 else 365)
  {
    if m < 12 {
      MonthsMonotone(y, m, 12);
    }
  }

  lemma DateOrder(a: Civil, b: Civil)
    requires ValidCivil(a) && ValidCivil(b) && DateLess(a, b)
    ensures Ordinal(a.year, a.month, a.day) < Ordinal(b.year, b.month, b.day)
  {
    if a.year < b.year {
      DayOfYearBound(a.year, a.month, a.day);
      DayOfYearBound(b.year, b.month, b.day);
      YearLength(a.year);
      YearsMonotone(a.year + 1, b.year);
    } else if a.month < b.month {
      MonthsMonotone(a.year, a.month, b.month);
    }
  }

  /** The count preserves and reflects datetime's ordering, and is injective. */
  lemma SecondsOrder(a: Civil, b: Civil)
    requires ValidCivil(a) && ValidCivil(b)
    ensures Less(a, b) <==> Seconds(a) < Seconds(b)
    ensures Seconds(a) == Seconds(b) ==> a == b
  {
    if DateLess(a, b) {
      DateOrder(a, b);
    } else if DateLess(b, a) {
      DateOrder(b, a);
    }
  }

  // ---------------------------------------------------------------------
  // The count is onto: every whole second is exactly one civil instant
  // ---------------------------------------------------------------------

  /** The year of the cycle holding day r, searching upward from y. */
  function YearInCycle(r: int, y: int): (found: int)
    requires 1 <= y <= 400 && DaysBeforeYear(y) <= r < 146097
    ensures y <= found <= 400 && DaysBeforeYear(found) <= r < DaysBeforeYear(found + 1)
    decreases 400 - y, r
  {
    if r < DaysBeforeYear(y + 1) then y else YearInCycle(r, y + 1)
  }

  function MonthInYear(y: int, k: int, m: int): (found: int)
    requires 1 <= m <= 12 && DaysBeforeMonth(y, m) <= k
    requires k < (if IsLeap(y) then 366 else 365)
    ensures m <= found <= 12
    ensures DaysBeforeMonth(y, found) <= k < DaysBeforeMonth(y, found) + MonthEnd(y, found)
    decreases 12 - m, k
  {
    if m == 12 || k < DaysBeforeMonth(y, m) + MonthEnd(y, m) then m else MonthInYear(y, k, m + 1)
  }

  lemma CycleShift(y: int, q: int)
    ensures DaysBeforeYear(y + 400 * q) == DaysBeforeYear(y) + 146097 * q
  {
    var p := y - 1;
    QuotientIs(p + 400 * q, 4, p / 4 + 100 * q, p % 4);
    QuotientIs(p + 400 * q, 100, p / 100 + 4 * q, p % 100);
    QuotientIs(p + 400 * q, 400, p / 400 + q, p % 400);
  }

  /** The year holding ordinal day n. */
  function YearOf(n: int): (y: int)
    ensures DaysBeforeYear(y) < n <= DaysBeforeYear(y + 1)
  {
    var cycle, r := (n - 1) / 146097, (n - 1) % 146097;
    var y := YearInCycle(r, 1);
    CycleShift(y, cycle);
    CycleShift(y + 1, cycle);
    y + 400 * cycle
  }

  function Clock(tod: int): (hms: (int, int, int))
    requires 0 <= tod < 86400
    ensures 0 <= hms.0 < 24 && 0 <= hms.1 < 60 && 0 <= hms.2 < 60
    ensures 3600 * hms.0 + 60 * hms.1 + hms.2 == tod
  {
    (tod / 3600, tod % 3600 / 60, tod % 3600 % 60)
  }

  /** The civil instant a whole-second count stands for. */
  function CivilOf(n: int): (c: Civil)
    ensures ValidCivil(c) && Seconds(c) == n
  {
    var ordinal, hms := n / 86400, Clock(n % 86400);
    var y := YearOf(ordinal);
    YearLength(y);
    var k := ordinal - 1 - DaysBeforeYear(y);
    var m := MonthInYear(y, k, 1);
    Civil(y, m, k - DaysBeforeMonth(y, m) + 1, hms.0, hms.1, hms.2)
  }

  lemma CivilOfSeconds(c: Civil)
    requires ValidCivil(c)
    ensures CivilOf(Seconds(c)) == c
  {
    SecondsOrder(CivilOf(Seconds(c)), c);
  }
}
