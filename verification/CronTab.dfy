/** A parsed cron expression (cronstable/cronexpr.py) and which civil instants
    it accepts, with the calendar meaning of the L, W and # day forms. */
module CronTab {
  import opened Wrappers
  import opened Calendar

  /** The field sets of CronTab.__slots__. */
  datatype CronTab = CronTab(
    seconds: set<int>, minutes: set<int>, hours: set<int>,
    dom: set<int>, lastOffsets: set<int>, nearest: set<int>, lastWeekday: bool,
    months: set<int>,
    dow: set<int>, dowLast: set<int>, dowNth: set<(int, int)>,
    years: Option<set<int>>)

  const YEAR_FLOOR := 1970
  const YEAR_HORIZON := 2099

  predicate Within(s: set<int>, lo: int, hi: int) {
    forall x :: x in s ==> lo <= x <= hi
  }

  /** What every accepted expression satisfies (CronParse.ParsedTabIsValid). */
  predicate ValidTab(t: CronTab) {
    && t.seconds != {} && Within(t.seconds, 0, 59)
    && t.minutes != {} && Within(t.minutes, 0, 59)
    && t.hours != {} && Within(t.hours, 0, 23)
    && Within(t.dom, 1, 31) && Within(t.lastOffsets, 0, 30) && Within(t.nearest, 1, 31)
    && (t.dom != {} || t.nearest != {} || t.lastOffsets != {} || t.lastWeekday)
    && t.months != {} && Within(t.months, 1, 12)
    && Within(t.dow, 0, 6) && Within(t.dowLast, 0, 6)
    && (forall p :: p in t.dowNth ==> 0 <= p.0 <= 6 && 1 <= p.1 <= 5)
    && (t.years.Some? ==> t.years.value != {} && Within(t.years.value, YEAR_FLOOR, YEAR_HORIZON))
  }

  // ---------------------------------------------------------------------
  // Matching
  // ---------------------------------------------------------------------

  /** The day a `W` item fires on: Saturday goes back, Sunday goes forward,
      flipped inward at the month's edges. */
  function ShiftToWeekday(y: int, m: int, target: int, monthEnd: int): int
    requires 1 <= m <= 12
  {
    var w := Weekday(y, m, target);
    if w == 5 then (if target > 1 then target - 1 else target + 2)
    else if w == 6 then (if target < monthEnd then target + 1 else target - 2)
    else target
  }

  predicate DomMatches(t: CronTab, y: int, m: int, d: int)
    requires 1 <= m <= 12
  {
    var monthEnd := MonthEnd(y, m);
    || d in t.dom
    || (monthEnd - d) in t.lastOffsets
    || (t.lastWeekday && d == ShiftToWeekday(y, m, monthEnd, monthEnd))
    || (exists n :: n in t.nearest && n <= monthEnd && d == ShiftToWeekday(y, m, n, monthEnd))
  }

  /** Cron's weekday number: Sunday is 0. */
  function CronDow(y: int, m: int, d: int): int
    requires 1 <= m <= 12
  {
    (Weekday(y, m, d) + 1) % 7
  }

  predicate DowMatches(t: CronTab, dow: int, d: int, monthEnd: int) {
    || dow in t.dow
    || (dow in t.dowLast && d > monthEnd - 7)
    || (dow, (d - 1) / 7 + 1) in t.dowNth
  }

  predicate DayMatches(t: CronTab, y: int, m: int, d: int)
    requires 1 <= m <= 12
  {
    DomMatches(t, y, m, d) && DowMatches(t, CronDow(y, m, d), d, MonthEnd(y, m))
  }

  predicate TimeMatches(t: CronTab, h: int, mi: int, s: int) {
    h in t.hours && mi in t.minutes && s in t.seconds
  }

  predicate YearMatches(t: CronTab, y: int) {
    t.years.Some? ==> y in t.years.value
  }

  /** CronTab.test. */
  predicate Test(t: CronTab, c: Civil) {
    && TimeMatches(t, c.hour, c.minute, c.second)
    && 1 <= c.month <= 12 && c.month in t.months
    && YearMatches(t, c.year)
    && DayMatches(t, c.year, c.month, c.day)
  }

  // ---------------------------------------------------------------------
  // What the day forms mean on the calendar
  // ---------------------------------------------------------------------

  predicate IsWorkday(y: int, m: int, d: int)
    requires 1 <= m <= 12
  {
    Weekday(y, m, d) < 5
  }

  function Distance(a: int, b: int): int {
    if a <= b then b - a else a - b
  }

  /** d is the one Monday-to-Friday day of the month closest to day n. */
  ghost predicate IsNearestWorkday(y: int, m: int, n: int, d: int)
    requires 1 <= m <= 12
  {
    && 1 <= d <= MonthEnd(y, m) && IsWorkday(y, m, d)
    && forall e :: 1 <= e <= MonthEnd(y, m) && IsWorkday(y, m, e) && e != d ==> Distance(n, d) < Distance(n, e)
  }

  ghost predicate IsLastWorkday(y: int, m: int, d: int)
    requires 1 <= m <= 12
  {
    && 1 <= d <= MonthEnd(y, m) && IsWorkday(y, m, d)
    && forall e :: d < e <= MonthEnd(y, m) ==> !IsWorkday(y, m, e)
  }

  /** How many of days 1..d of the month fall on weekday dow. */
  ghost function CountDow(y: int, m: int, dow: int, d: int): nat
    requires 1 <= m <= 12
    decreases d
  {
    if d < 1 then 0 else CountDow(y, m, dow, d - 1) + (if CronDow(y, m, d) == dow then 1 else 0)
  }

  lemma Mod7(a: int, k: int)
    requires -7 <= k <= 7
    ensures (a + k) % 7 == (a % 7 + k + 7) % 7
  {
    var b := a % 7 + k + 7;
    assert a + k == 7 * (a / 7 - 1 + b / 7) + b % 7;
  }

  lemma WeekdayShift(y: int, m: int, d: int, k: int)
    requires 1 <= m <= 12 && -7 <= k <= 7
    ensures Weekday(y, m, d + k) == (Weekday(y, m, d) + k + 7) % 7
    ensures CronDow(y, m, d + k) == (CronDow(y, m, d) + k + 7) % 7
  {
    Mod7(Ordinal(y, m, d) + 6, k);
    var w := Weekday(y, m, d);
    Mod7(w + k + 7, 1);
    Mod7(w + 1, k);
  }

  lemma AroundWeekend(y: int, m: int, n: int)
    requires 1 <= m <= 12
    ensures Weekday(y, m, n) == 5 ==>
            Weekday(y, m, n - 1) == 4 && Weekday(y, m, n + 1) == 6 && Weekday(y, m, n + 2) == 0
    ensures Weekday(y, m, n) == 6 ==>
            Weekday(y, m, n - 2) == 4 && Weekday(y, m, n - 1) == 5 && Weekday(y, m, n + 1) == 0
    ensures 0 <= Weekday(y, m, n) <= 6
  {
    WeekdayShift(y, m, n, -2);
    WeekdayShift(y, m, n, -1);
    WeekdayShift(y, m, n, 1);
    WeekdayShift(y, m, n, 2);
  }

  lemma NearestFromNeighbours(y: int, m: int, n: int, s: int)
    requires 1 <= m <= 12 && 1 <= s <= MonthEnd(y, m) && IsWorkday(y, m, s)
    requires forall e :: 1 <= e <= MonthEnd(y, m) && e != s && Distance(n, e) <= Distance(n, s) ==> !IsWorkday(y, m, e)
    ensures IsNearestWorkday(y, m, n, s)
  {
  }

  /** The W rule picks the unique nearest working day of the month. */
  lemma ShiftIsNearest(y: int, m: int, n: int, d: int)
    requires 1 <= m <= 12 && 1 <= n <= MonthEnd(y, m)
    ensures d == ShiftToWeekday(y, m, n, MonthEnd(y, m)) <==> IsNearestWorkday(y, m, n, d)
  {
    var s := ShiftToWeekday(y, m, n, MonthEnd(y, m));
    AroundWeekend(y, m, n);
    forall e | 1 <= e <= MonthEnd(y, m) && e != s && Distance(n, e) <= Distance(n, s)
      ensures !IsWorkday(y, m, e)
    {
      assert e == n || e == n - 1 || e == n + 1 || e == n - 2 || e == n + 2;
    }
    NearestFromNeighbours(y, m, n, s);
  }

  /** LW is the same rule aimed at the final day: the last working day. */
  lemma ShiftIsLast(y: int, m: int, d: int)
    requires 1 <= m <= 12
    ensures d == ShiftToWeekday(y, m, MonthEnd(y, m), MonthEnd(y, m)) <==> IsLastWorkday(y, m, d)
  {
    AroundWeekend(y, m, MonthEnd(y, m));
    assert IsLastWorkday(y, m, ShiftToWeekday(y, m, MonthEnd(y, m), MonthEnd(y, m)));
  }

  lemma {:induction false} CountFlat(y: int, m: int, dow: int, a: int, b: int)
    requires 1 <= m <= 12 && 0 <= a <= b
    requires forall e :: a < e <= b ==> CronDow(y, m, e) != dow
    ensures CountDow(y, m, dow, b) == CountDow(y, m, dow, a)
    decreases b - a
  {
    if a < b {
      CountFlat(y, m, dow, a, b - 1);
    }
  }

  lemma SameDowApart(y: int, m: int, d: int, e: int)
    requires 1 <= m <= 12 && d < e < d + 7
    ensures CronDow(y, m, e) != CronDow(y, m, d)
  {
    WeekdayShift(y, m, d, e - d);
  }

  /** (d - 1) // 7 + 1 is which occurrence of its weekday day d is. */
  lemma {:induction false} OrdinalIsCount(y: int, m: int, d: int)
    requires 1 <= m <= 12 && 1 <= d
    ensures CountDow(y, m, CronDow(y, m, d), d) == (d - 1) / 7 + 1
    decreases d
  {
    var dow, a := CronDow(y, m, d), if d <= 7 then 0 else d - 7;
    forall e | a < e <= d - 1 ensures CronDow(y, m, e) != dow {
      SameDowApart(y, m, e, d);
    }
    CountFlat(y, m, dow, a, d - 1);
    if d > 7 {
      WeekdayShift(y, m, d, -7);
      OrdinalIsCount(y, m, d - 7);
    }
  }

  /** d > monthEnd - 7 says no later day of the month shares d's weekday. */
  lemma LastSevenIsLast(y: int, m: int, d: int)
    requires 1 <= m <= 12 && 1 <= d <= MonthEnd(y, m)
    ensures d > MonthEnd(y, m) - 7 <==>
            forall e :: d < e <= MonthEnd(y, m) ==> CronDow(y, m, e) != CronDow(y, m, d)
  {
    if d > MonthEnd(y, m) - 7 {
      forall e | d < e <= MonthEnd(y, m) ensures CronDow(y, m, e) != CronDow(y, m, d) {
        SameDowApart(y, m, d, e);
      }
    } else {
      WeekdayShift(y, m, d, 7);
    }
  }

  /** The day-of-month side, in calendar terms. */
  lemma DomMatchesMeaning(t: CronTab, y: int, m: int, d: int)
    requires 1 <= m <= 12 && ValidTab(t)
    ensures DomMatches(t, y, m, d) <==>
            || d in t.dom
            || (exists k :: k in t.lastOffsets && d == MonthEnd(y, m) - k)
            || (t.lastWeekday && IsLastWorkday(y, m, d))
            || (exists n :: n in t.nearest && n <= MonthEnd(y, m) && IsNearestWorkday(y, m, n, d))
  {
    ShiftIsLast(y, m, d);
    forall n | n in t.nearest && n <= MonthEnd(y, m)
      ensures d == ShiftToWeekday(y, m, n, MonthEnd(y, m)) <==> IsNearestWorkday(y, m, n, d)
    {
      ShiftIsNearest(y, m, n, d);
    }
    if k :| k in t.lastOffsets && d == MonthEnd(y, m) - k {
      assert MonthEnd(y, m) - d == k;
    }
  }

  lemma CountGrows(y: int, m: int, dow: int, d: int, e: int, last: int)
    requires 1 <= m <= 12 && 0 <= d < e <= last && CronDow(y, m, e) == dow
    ensures CountDow(y, m, dow, d) < CountDow(y, m, dow, last)
  {
    CountMonotone(y, m, dow, d, e - 1);
    CountMonotone(y, m, dow, e, last);
  }

  /** Day d is the last of its weekday up to `last` exactly when the count of that
      weekday is complete at d. */
  lemma LastIsComplete(y: int, m: int, dow: int, d: int, last: int)
    requires 1 <= m <= 12 && 0 <= d <= last
    ensures (forall e :: d < e <= last ==> CronDow(y, m, e) != dow) <==>
            CountDow(y, m, dow, d) == CountDow(y, m, dow, last)
  {
    if e :| d < e <= last && CronDow(y, m, e) == dow {
      CountGrows(y, m, dow, d, e, last);
    } else {
      CountFlat(y, m, dow, d, last);
    }
  }

  /** The day-of-week side: plain values, last-such-weekday, n-th such weekday. */
  lemma DowMatchesMeaning(t: CronTab, y: int, m: int, d: int)
    requires 1 <= m <= 12 && 1 <= d <= MonthEnd(y, m)
    ensures var dow := CronDow(y, m, d);
            DowMatches(t, dow, d, MonthEnd(y, m)) <==>
            || dow in t.dow
            || (dow in t.dowLast && CountDow(y, m, dow, d) == CountDow(y, m, dow, MonthEnd(y, m)))
            || (dow, CountDow(y, m, dow, d)) in t.dowNth
  {
    OrdinalIsCount(y, m, d);
    LastSevenIsLast(y, m, d);
    LastIsComplete(y, m, CronDow(y, m, d), d, MonthEnd(y, m));
  }

  lemma {:induction false} CountMonotone(y: int, m: int, dow: int, a: int, b: int)
    requires 1 <= m <= 12 && a <= b
    ensures CountDow(y, m, dow, a) <= CountDow(y, m, dow, b)
    decreases b - a
  {
    if a < b {
      CountMonotone(y, m, dow, a, b - 1);
    }
  }
}
