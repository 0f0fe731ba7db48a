/** The forward and backward calendar walks of cronstable/cronexpr.py:
    _first_time / _next_civil and their mirrors _last_time / _prev_civil, each
    proved to return the nearest accepted instant, and the naive iterator. */
module CivilSearch {
  import opened Wrappers
  import opened Calendar
  import opened CronTab

  datatype Time = Time(hour: int, minute: int, second: int)

  predicate ValidTime(t: Time) {
    0 <= t.hour < 24 && 0 <= t.minute < 60 && 0 <= t.second < 60
  }

  predicate TimeLeq(a: Time, b: Time) {
    a.hour < b.hour || (a.hour == b.hour && (a.minute < b.minute || (a.minute == b.minute && a.second <= b.second)))
  }

  predicate Fires(tab: CronTab, t: Time) {
    ValidTime(t) && TimeMatches(tab, t.hour, t.minute, t.second)
  }

  predicate Increasing(s: seq<int>) {
    forall i, j :: 0 <= i < j < |s| ==> s[i] < s[j]
  }

  // ---------------------------------------------------------------------
  // Time of day
  // ---------------------------------------------------------------------

  /** tuple(sorted(s)) for a field whose values lie in lo..hi. */
  method Sorted(s: set<int>, lo: int, hi: int) returns (r: seq<int>)
    requires Within(s, lo, hi)
    ensures Increasing(r) && forall x :: x in r <==> x in s
    ensures s != {} ==> r != []
  {
    r := [];
    var v := lo;
    while v <= hi
      invariant Increasing(r) && forall x :: x in r <==> x in s && x < v
      decreases hi - v
    {
      assert forall i :: 0 <= i < |r| ==> r[i] in r;
      if v in s {
        r := r + [v];
      }
      v := v + 1;
    }
    assert s != {} ==> exists x :: x in s;
  }

  /** No minute/second pair of the columns is at or after lo within its hour. */
  ghost predicate HourSpent(ms: seq<int>, ss: seq<int>, lo: Time) {
    forall mi, s :: mi in ms && s in ss ==> mi < lo.minute || (mi == lo.minute && s < lo.second)
  }

  ghost predicate HourUnopened(ms: seq<int>, ss: seq<int>, hi: Time) {
    forall mi, s :: mi in ms && s in ss ==> mi > hi.minute || (mi == hi.minute && s > hi.second)
  }

  /** The nested column scan of _first_time. */
  method FirstAtOrAfter(hs: seq<int>, ms: seq<int>, ss: seq<int>, lo: Time) returns (r: Option<Time>)
    requires Increasing(hs) && Increasing(ms) && Increasing(ss) && ms != [] && ss != []
    ensures r.Some? ==> r.value.hour in hs && r.value.minute in ms && r.value.second in ss && TimeLeq(lo, r.value)
    ensures forall t: Time :: t.hour in hs && t.minute in ms && t.second in ss && TimeLeq(lo, t) ==> r.Some? && TimeLeq(r.value, t)
  {
    for i := 0 to |hs|
      invariant forall k :: 0 <= k < i ==> hs[k] <= lo.hour && (hs[k] == lo.hour ==> HourSpent(ms, ss, lo))
    {
      var hour := hs[i];
      if hour < lo.hour {
        continue;
      }
      if hour > lo.hour {
        return Some(Time(hour, ms[0], ss[0]));
      }
      for j := 0 to |ms|
        invariant forall k :: 0 <= k < j ==> ms[k] <= lo.minute && (ms[k] == lo.minute ==> forall s :: s in ss ==> s < lo.second)
      {
        var minute := ms[j];
        if minute < lo.minute {
          continue;
        }
        if minute > lo.minute {
          return Some(Time(hour, minute, ss[0]));
        }
        for k := 0 to |ss|
          invariant forall q :: 0 <= q < k ==> ss[q] < lo.second
        {
          if ss[k] >= lo.second {
            return Some(Time(hour, minute, ss[k]));
          }
        }
      }
    }
    return None;
  }

  /** The nested reversed scan of _last_time. */
  method LastAtOrBefore(hs: seq<int>, ms: seq<int>, ss: seq<int>, hi: Time) returns (r: Option<Time>)
    requires Increasing(hs) && Increasing(ms) && Increasing(ss) && ms != [] && ss != []
    ensures r.Some? ==> r.value.hour in hs && r.value.minute in ms && r.value.second in ss && TimeLeq(r.value, hi)
    ensures forall t: Time :: t.hour in hs && t.minute in ms && t.second in ss && TimeLeq(t, hi) ==> r.Some? && TimeLeq(t, r.value)
  {
    for i := |hs| downto 0
      invariant forall k :: i <= k < |hs| ==> hs[k] >= hi.hour && (hs[k] == hi.hour ==> HourUnopened(ms, ss, hi))
    {
      var hour := hs[i];
      if hour > hi.hour {
        continue;
      }
      if hour < hi.hour {
        return Some(Time(hour, ms[|ms| - 1], ss[|ss| - 1]));
      }
      for j := |ms| downto 0
        invariant forall k :: j <= k < |ms| ==> ms[k] >= hi.minute && (ms[k] == hi.minute ==> forall s :: s in ss ==> s > hi.second)
      {
        var minute := ms[j];
        if minute > hi.minute {
          continue;
        }
        if minute < hi.minute {
          return Some(Time(hour, minute, ss[|ss| - 1]));
        }
        for k := |ss| downto 0
          invariant forall q :: k <= q < |ss| ==> ss[q] > hi.second
        {
          if ss[k] <= hi.second {
            return Some(Time(hour, minute, ss[k]));
          }
        }
      }
    }
    return None;
  }

  /** _first_time: the earliest matching time of day, at/after `at` if set. */
  method FirstTime(tab: CronTab, at: Option<Time>) returns (r: Option<Time>)
    requires ValidTab(tab)
    ensures r.Some? ==> Fires(tab, r.value) && (at.Some? ==> TimeLeq(at.value, r.value))
    ensures forall t :: Fires(tab, t) && (at.Some? ==> TimeLeq(at.value, t)) ==> r.Some? && TimeLeq(r.value, t)
  {
    var hs := Sorted(tab.hours, 0, 23);
    var ms := Sorted(tab.minutes, 0, 59);
    var ss := Sorted(tab.seconds, 0, 59);
    if at.None? {
      assert hs[0] in hs && ms[0] in ms && ss[0] in ss;
      r := Some(Time(hs[0], ms[0], ss[0]));
    } else {
      r := FirstAtOrAfter(hs, ms, ss, at.value);
    }
  }

  /** _last_time: the latest matching time of day, at/before `at` if set. */
  method LastTime(tab: CronTab, at: Option<Time>) returns (r: Option<Time>)
    requires ValidTab(tab)
    ensures r.Some? ==> Fires(tab, r.value) && (at.Some? ==> TimeLeq(r.value, at.value))
    ensures forall t :: Fires(tab, t) && (at.Some? ==> TimeLeq(t, at.value)) ==> r.Some? && TimeLeq(t, r.value)
  {
    var hs := Sorted(tab.hours, 0, 23);
    var ms := Sorted(tab.minutes, 0, 59);
    var ss := Sorted(tab.seconds, 0, 59);
    if at.None? {
      assert hs[|hs| - 1] in hs && ms[|ms| - 1] in ms && ss[|ss| - 1] in ss;
      r := Some(Time(hs[|hs| - 1], ms[|ms| - 1], ss[|ss| - 1]));
    } else {
      r := LastAtOrBefore(hs, ms, ss, at.value);
    }
  }

  // ---------------------------------------------------------------------
  // The forward walk
  // ---------------------------------------------------------------------

  function TimeOf(c: Civil): Time {
    Time(c.hour, c.minute, c.second)
  }

  /** An accepted instant the forward search may return. */
  ghost predicate Ahead(tab: CronTab, civil: Civil, c: Civil) {
    ValidCivil(c) && c.year <= YEAR_HORIZON && Test(tab, c) && Less(civil, c)
  }

  /** r is the least accepted instant strictly after civil up to the horizon,
      or there is none. */
  ghost predicate IsNext(tab: CronTab, civil: Civil, r: Option<Civil>) {
    match r
    case None => forall c :: !Ahead(tab, civil, c)
    case Some(n) => Ahead(tab, civil, n) && forall c :: Ahead(tab, civil, c) ==> !Less(c, n)
  }

  /** c is at or after the cursor (y, m, d, at). */
  predicate AtLeast(c: Civil, y: int, m: int, d: int, at: Option<Time>) {
    c.year > y || (c.year == y && (c.month > m || (c.month == m && (c.day > d ||
      (c.day == d && (at.Some? ==> TimeLeq(at.value, TimeOf(c))))))))
  }

  ghost predicate NoneBefore(tab: CronTab, civil: Civil, y: int, m: int, d: int, at: Option<Time>) {
    forall c :: Ahead(tab, civil, c) ==> AtLeast(c, y, m, d, at)
  }

  /** The cursor is still on base, or has left its date behind. */
  predicate Past(base: Civil, y: int, m: int, d: int, at: Option<Time>) {
    y > base.year || (y == base.year && (m > base.month || (m == base.month && (d > base.day ||
      (d == base.day && at == Some(TimeOf(base)))))))
  }

  lemma TimeOrder(a: Civil, b: Civil)
    requires ValidCivil(a) && ValidCivil(b)
    ensures TimeLeq(TimeOf(a), TimeOf(b)) <==> SecondOfDay(a) <= SecondOfDay(b)
  {
  }

  lemma StartsAtBase(tab: CronTab, civil: Civil, base: Civil)
    requires ValidCivil(civil) && base == CivilOf(Seconds(civil) + 1)
    ensures NoneBefore(tab, civil, base.year, base.month, base.day, Some(TimeOf(base)))
  {
    forall c | Ahead(tab, civil, c) ensures AtLeast(c, base.year, base.month, base.day, Some(TimeOf(base))) {
      SecondsOrder(civil, c);
      SecondsOrder(c, base);
      TimeOrder(base, c);
    }
  }

  lemma SkipYear(tab: CronTab, civil: Civil, y: int, m: int, d: int, at: Option<Time>, next: int)
    requires NoneBefore(tab, civil, y, m, d, at) && !YearMatches(tab, y)
    requires forall z :: z in tab.years.value && z > y ==> z >= next
    ensures NoneBefore(tab, civil, next, 1, 1, None)
  {
    forall c | Ahead(tab, civil, c) ensures AtLeast(c, next, 1, 1, None) {
      assert AtLeast(c, y, m, d, at) && YearMatches(tab, c.year);
    }
  }

  /** Month m is not selected and `next` is the next selected month of the year. */
  lemma SkipMonth(tab: CronTab, civil: Civil, y: int, m: int, d: int, at: Option<Time>, next: int)
    requires NoneBefore(tab, civil, y, m, d, at) && m !in tab.months
    requires forall z :: z in tab.months && z > m ==> z >= next
    ensures NoneBefore(tab, civil, y, next, 1, None)
  {
    forall c | Ahead(tab, civil, c) ensures AtLeast(c, y, next, 1, None) {
      assert AtLeast(c, y, m, d, at) && c.month in tab.months;
    }
  }

  /** No selected month is left in the year: on to the first of the next one. */
  lemma SkipToNextYear(tab: CronTab, civil: Civil, y: int, m: int, d: int, at: Option<Time>, first: int)
    requires NoneBefore(tab, civil, y, m, d, at)
    requires forall z :: z in tab.months ==> z < m && first <= z
    ensures NoneBefore(tab, civil, y + 1, first, 1, None)
  {
    forall c | Ahead(tab, civil, c) ensures AtLeast(c, y + 1, first, 1, None) {
      assert AtLeast(c, y, m, d, at) && c.month in tab.months;
    }
  }

  /** Nothing on day d at or after the cursor: on to the next day. */
  lemma SkipDay(tab: CronTab, civil: Civil, y: int, m: int, d: int, at: Option<Time>)
    requires 1 <= m <= 12 && NoneBefore(tab, civil, y, m, d, at)
    requires DayMatches(tab, y, m, d) ==> forall t :: Fires(tab, t) ==> at.Some? && !TimeLeq(at.value, t)
    ensures NoneBefore(tab, civil, y, m, d + 1, None)
  {
    forall c | Ahead(tab, civil, c) ensures AtLeast(c, y, m, d + 1, None) {
      assert AtLeast(c, y, m, d, at) && Fires(tab, TimeOf(c));
    }
  }

  lemma SkipPastMonthEnd(tab: CronTab, civil: Civil, y: int, m: int)
    requires 1 <= m <= 12 && NoneBefore(tab, civil, y, m, MonthEnd(y, m) + 1, None)
    ensures m < 12 ==> NoneBefore(tab, civil, y, m + 1, 1, None)
    ensures m == 12 ==> NoneBefore(tab, civil, y + 1, 1, 1, None)
  {
    forall c | Ahead(tab, civil, c)
      ensures if m < 12 then AtLeast(c, y, m + 1, 1, None) else AtLeast(c, y + 1, 1, 1, None)
    {
      assert AtLeast(c, y, m, MonthEnd(y, m) + 1, None);
    }
  }

  /** The first matching time on the first matching day is the answer. */
  lemma Arrived(tab: CronTab, civil: Civil, y: int, m: int, d: int, at: Option<Time>, t: Time)
    requires ValidDate(y, m, d) && y <= YEAR_HORIZON && m in tab.months && YearMatches(tab, y)
    requires ValidCivil(civil) && Past(CivilOf(Seconds(civil) + 1), y, m, d, at)
    requires NoneBefore(tab, civil, y, m, d, at) && DayMatches(tab, y, m, d)
    requires Fires(tab, t) && (at.Some? ==> TimeLeq(at.value, t))
    requires forall u :: Fires(tab, u) && (at.Some? ==> TimeLeq(at.value, u)) ==> TimeLeq(t, u)
    ensures IsNext(tab, civil, Some(Civil(y, m, d, t.hour, t.minute, t.second)))
  {
    var n, base := Civil(y, m, d, t.hour, t.minute, t.second), CivilOf(Seconds(civil) + 1);
    TimeOrder(base, n);
    SecondsOrder(n, base);
    SecondsOrder(civil, n);
    forall c | Ahead(tab, civil, c) ensures !Less(c, n) {
      assert AtLeast(c, y, m, d, at) && Fires(tab, TimeOf(c));
      TimeOrder(n, c);
    }
  }

  method NextIn(ordered: seq<int>, current: int) returns (r: Option<int>)
    requires Increasing(ordered)
    ensures r.Some? ==> r.value in ordered && r.value > current
    ensures forall z :: z in ordered && z > current ==> r.Some? && r.value <= z
  {
    for i := 0 to |ordered|
      invariant forall k :: 0 <= k < i ==> ordered[k] <= current
    {
      if ordered[i] > current {
        return Some(ordered[i]);
      }
    }
    return None;
  }

  /** The day loop of _next_civil, within one selected month. */
  method ScanMonth(tab: CronTab, civil: Civil, y: int, m: int, day: int, at: Option<Time>) returns (r: Option<Civil>)
    requires ValidTab(tab) && ValidCivil(civil) && ValidDate(y, m, day)
    requires y <= YEAR_HORIZON && YearMatches(tab, y) && m in tab.months
    requires Past(CivilOf(Seconds(civil) + 1), y, m, day, at) && NoneBefore(tab, civil, y, m, day, at)
    ensures r.Some? ==> IsNext(tab, civil, r)
    ensures r.None? ==> NoneBefore(tab, civil, y, m, MonthEnd(y, m) + 1, None)
  {
    var d, tod, monthEnd := day, at, MonthEnd(y, m);
    ghost var base := CivilOf(Seconds(civil) + 1);
    while d <= monthEnd
      invariant 1 <= d <= monthEnd + 1 && Past(base, y, m, d, tod)
      invariant NoneBefore(tab, civil, y, m, d, tod)
      invariant d > monthEnd ==> tod == None
    {
      if DayMatches(tab, y, m, d) {
        var t := FirstTime(tab, tod);
        if t.Some? {
          Arrived(tab, civil, y, m, d, tod, t.value);
          return Some(Civil(y, m, d, t.value.hour, t.value.minute, t.value.second));
        }
      }
      SkipDay(tab, civil, y, m, d, tod);
      d, tod := d + 1, None;
    }
    return None;
  }

  /** A year outside the year column: the next listed year, or the search is over. */
  method NextYear(tab: CronTab, civil: Civil, y: int, m: int, d: int, at: Option<Time>) returns (next: Option<int>)
    requires ValidTab(tab) && ValidDate(y, m, d) && NoneBefore(tab, civil, y, m, d, at)
    requires tab.years.Some? && y !in tab.years.value
    ensures next.None? ==> IsNext(tab, civil, None)
    ensures next.Some? ==> y < next.value <= YEAR_HORIZON && NoneBefore(tab, civil, next.value, 1, 1, None)
  {
    var years := Sorted(tab.years.value, YEAR_FLOOR, YEAR_HORIZON);
    next := NextIn(years, y);
    if next.None? {
      SkipYear(tab, civil, y, m, d, at, YEAR_HORIZON + 1);
    } else {
      SkipYear(tab, civil, y, m, d, at, next.value);
    }
  }

  /** A month outside the month column: the next listed month of this year, or the
      first listed one of the next. */
  method NextMonth(tab: CronTab, civil: Civil, y: int, m: int, d: int, at: Option<Time>) returns (year: int, month: int)
    requires ValidTab(tab) && ValidDate(y, m, d) && NoneBefore(tab, civil, y, m, d, at) && m !in tab.months
    ensures 1 <= month <= 12 && ((year == y && month > m) || year == y + 1)
    ensures NoneBefore(tab, civil, year, month, 1, None)
  {
    var months := Sorted(tab.months, 1, 12);
    var next := NextIn(months, m);
    if next.None? {
      assert months[0] in months;
      SkipToNextYear(tab, civil, y, m, d, at, months[0]);
      return y + 1, months[0];
    }
    SkipMonth(tab, civil, y, m, d, at, next.value);
    return y, next.value;
  }

  /** _next_civil: the least accepted instant strictly after civil. */
  method NextCivil(tab: CronTab, civil: Civil) returns (r: Option<Civil>)
    requires ValidTab(tab) && ValidCivil(civil)
    ensures IsNext(tab, civil, r)
  {
    var base := CivilOf(Seconds(civil) + 1);
    var y, m, d, tod := base.year, base.month, base.day, Some(TimeOf(base));
    StartsAtBase(tab, civil, base);
    while y <= YEAR_HORIZON
      invariant ValidDate(y, m, d) && Past(base, y, m, d, tod)
      invariant NoneBefore(tab, civil, y, m, d, tod)
      decreases YEAR_HORIZON - y, 12 - m
    {
      if tab.years.Some? && y !in tab.years.value {
        var next := NextYear(tab, civil, y, m, d, tod);
        if next.None? {
          return None;
        }
        y, m, d, tod := next.value, 1, 1, None;
        continue;
      }
      if m !in tab.months {
        y, m := NextMonth(tab, civil, y, m, d, tod);
        d, tod := 1, None;
        continue;
      }
      r := ScanMonth(tab, civil, y, m, d, tod);
      if r.Some? {
        return r;
      }
      SkipPastMonthEnd(tab, civil, y, m);
      m, d, tod := m + 1, 1, None;
      if m > 12 {
        y, m := y + 1, 1;
      }
    }
    return None;
  }

  // ---------------------------------------------------------------------
  // The backward walk
  // ---------------------------------------------------------------------

  /** c is strictly before civil plus its microseconds. */
  predicate Before(c: Civil, civil: Civil, micro: nat) {
    if micro > 0 then !Less(civil, c) else Less(c, civil)
  }

  ghost predicate Behind(tab: CronTab, civil: Civil, micro: nat, c: Civil) {
    ValidCivil(c) && YEAR_FLOOR <= c.year && Test(tab, c) && Before(c, civil, micro)
  }

  /** r is the greatest accepted instant strictly before civil since the floor. */
  ghost predicate IsPrev(tab: CronTab, civil: Civil, micro: nat, r: Option<Civil>) {
    match r
    case None => forall c :: !Behind(tab, civil, micro, c)
    case Some(p) => Behind(tab, civil, micro, p) && forall c :: Behind(tab, civil, micro, c) ==> !Less(p, c)
  }

  predicate AtMost(c: Civil, y: int, m: int, d: int, at: Option<Time>) {
    c.year < y || (c.year == y && (c.month < m || (c.month == m && (c.day < d ||
      (c.day == d && (at.Some? ==> TimeLeq(TimeOf(c), at.value)))))))
  }

  ghost predicate NoneAfter(tab: CronTab, civil: Civil, micro: nat, y: int, m: int, d: int, at: Option<Time>) {
    forall c :: Behind(tab, civil, micro, c) ==> AtMost(c, y, m, d, at)
  }

  /** The last whole second strictly before civil plus its microseconds. */
  function PrevBase(civil: Civil, micro: nat): (b: Civil)
    requires ValidCivil(civil)
    ensures ValidCivil(b)
  {
    if micro > 0 then civil else CivilOf(Seconds(civil) - 1)
  }

  predicate Receded(base: Civil, y: int, m: int, d: int, at: Option<Time>) {
    y < base.year || (y == base.year && (m < base.month || (m == base.month && (d < base.day ||
      (d == base.day && at == Some(TimeOf(base)))))))
  }

  lemma BeforeIffAtMostBase(c: Civil, civil: Civil, micro: nat)
    requires ValidCivil(c) && ValidCivil(civil)
    ensures Before(c, civil, micro) <==> !Less(PrevBase(civil, micro), c)
  {
    SecondsOrder(c, civil);
    SecondsOrder(civil, c);
    SecondsOrder(PrevBase(civil, micro), c);
  }

  lemma RecedesFromBase(tab: CronTab, civil: Civil, micro: nat)
    requires ValidCivil(civil)
    ensures var b := PrevBase(civil, micro); NoneAfter(tab, civil, micro, b.year, b.month, b.day, Some(TimeOf(b)))
  {
    var b := PrevBase(civil, micro);
    forall c | Behind(tab, civil, micro, c) ensures AtMost(c, b.year, b.month, b.day, Some(TimeOf(b))) {
      BeforeIffAtMostBase(c, civil, micro);
      TimeOrder(c, b);
    }
  }

  lemma BackYear(tab: CronTab, civil: Civil, micro: nat, y: int, m: int, d: int, at: Option<Time>, prev: int)
    requires NoneAfter(tab, civil, micro, y, m, d, at) && !YearMatches(tab, y)
    requires forall z :: z in tab.years.value && z < y ==> z <= prev
    ensures NoneAfter(tab, civil, micro, prev, 12, 31, None)
  {
    forall c | Behind(tab, civil, micro, c) ensures AtMost(c, prev, 12, 31, None) {
      assert AtMost(c, y, m, d, at) && YearMatches(tab, c.year);
    }
  }

  lemma BackMonth(tab: CronTab, civil: Civil, micro: nat, y: int, m: int, d: int, at: Option<Time>, prev: int)
    requires NoneAfter(tab, civil, micro, y, m, d, at) && m !in tab.months
    requires forall z :: z in tab.months && z < m ==> z <= prev
    ensures NoneAfter(tab, civil, micro, y, prev, 31, None)
  {
    forall c | Behind(tab, civil, micro, c) ensures AtMost(c, y, prev, 31, None) {
      assert AtMost(c, y, m, d, at) && c.month in tab.months;
    }
  }

  lemma BackToPrevYear(tab: CronTab, civil: Civil, micro: nat, y: int, m: int, d: int, at: Option<Time>, last: int)
    requires NoneAfter(tab, civil, micro, y, m, d, at)
    requires forall z :: z in tab.months ==> z > m && last >= z
    ensures NoneAfter(tab, civil, micro, y - 1, last, 31, None)
  {
    forall c | Behind(tab, civil, micro, c) ensures AtMost(c, y - 1, last, 31, None) {
      assert AtMost(c, y, m, d, at) && c.month in tab.months;
    }
  }

  /** The rollback sentinel 31 clamps to the month's real end. */
  lemma ClampToMonth(tab: CronTab, civil: Civil, micro: nat, y: int, m: int, d: int)
    requires 1 <= m <= 12 && NoneAfter(tab, civil, micro, y, m, d, None) && d > MonthEnd(y, m)
    ensures NoneAfter(tab, civil, micro, y, m, MonthEnd(y, m), None)
  {
    forall c | Behind(tab, civil, micro, c) ensures AtMost(c, y, m, MonthEnd(y, m), None) {
      assert AtMost(c, y, m, d, None);
    }
  }

  lemma BackDay(tab: CronTab, civil: Civil, micro: nat, y: int, m: int, d: int, at: Option<Time>)
    requires 1 <= m <= 12 && NoneAfter(tab, civil, micro, y, m, d, at)
    requires DayMatches(tab, y, m, d) ==> forall t :: Fires(tab, t) ==> at.Some? && !TimeLeq(t, at.value)
    ensures NoneAfter(tab, civil, micro, y, m, d - 1, None)
  {
    forall c | Behind(tab, civil, micro, c) ensures AtMost(c, y, m, d - 1, None) {
      assert AtMost(c, y, m, d, at) && Fires(tab, TimeOf(c));
    }
  }

  lemma BackPastMonthStart(tab: CronTab, civil: Civil, micro: nat, y: int, m: int)
    requires 1 <= m <= 12 && NoneAfter(tab, civil, micro, y, m, 0, None)
    ensures m > 1 ==> NoneAfter(tab, civil, micro, y, m - 1, 31, None)
    ensures m == 1 ==> NoneAfter(tab, civil, micro, y - 1, 12, 31, None)
  {
    forall c | Behind(tab, civil, micro, c)
      ensures if m > 1 then AtMost(c, y, m - 1, 31, None) else AtMost(c, y - 1, 12, 31, None)
    {
      assert AtMost(c, y, m, 0, None);
    }
  }

  lemma ArrivedBack(tab: CronTab, civil: Civil, micro: nat, y: int, m: int, d: int, at: Option<Time>, t: Time)
    requires ValidDate(y, m, d) && YEAR_FLOOR <= y && m in tab.months && YearMatches(tab, y)
    requires ValidCivil(civil) && Receded(PrevBase(civil, micro), y, m, d, at)
    requires NoneAfter(tab, civil, micro, y, m, d, at) && DayMatches(tab, y, m, d)
    requires Fires(tab, t) && (at.Some? ==> TimeLeq(t, at.value))
    requires forall u :: Fires(tab, u) && (at.Some? ==> TimeLeq(u, at.value)) ==> TimeLeq(u, t)
    ensures IsPrev(tab, civil, micro, Some(Civil(y, m, d, t.hour, t.minute, t.second)))
  {
    var p := Civil(y, m, d, t.hour, t.minute, t.second);
    TimeOrder(p, PrevBase(civil, micro));
    BeforeIffAtMostBase(p, civil, micro);
    forall c | Behind(tab, civil, micro, c) ensures !Less(p, c) {
      assert AtMost(c, y, m, d, at) && Fires(tab, TimeOf(c));
      TimeOrder(c, p);
    }
  }

  method PrevIn(ordered: seq<int>, current: int) returns (r: Option<int>)
    requires Increasing(ordered)
    ensures r.Some? ==> r.value in ordered && r.value < current
    ensures forall z :: z in ordered && z < current ==> r.Some? && z <= r.value
  {
    for i := |ordered| downto 0
      invariant forall k :: i <= k < |ordered| ==> ordered[k] >= current
    {
      if ordered[i] < current {
        return Some(ordered[i]);
      }
    }
    return None;
  }

  /** The day loop of _prev_civil, within one selected month. */
  method ScanMonthBack(tab: CronTab, civil: Civil, micro: nat, y: int, m: int, day: int, at: Option<Time>)
    returns (r: Option<Civil>)
    requires ValidTab(tab) && ValidCivil(civil) && ValidDate(y, m, day)
    requires YEAR_FLOOR <= y && YearMatches(tab, y) && m in tab.months
    requires Receded(PrevBase(civil, micro), y, m, day, at) && NoneAfter(tab, civil, micro, y, m, day, at)
    ensures r.Some? ==> IsPrev(tab, civil, micro, r)
    ensures r.None? ==> NoneAfter(tab, civil, micro, y, m, 0, None)
  {
    var d, tod := day, at;
    ghost var base := PrevBase(civil, micro);
    while d >= 1
      invariant 0 <= d <= MonthEnd(y, m) && Receded(base, y, m, d, tod)
      invariant NoneAfter(tab, civil, micro, y, m, d, tod)
      invariant d < 1 ==> tod == None
    {
      if DayMatches(tab, y, m, d) {
        var t := LastTime(tab, tod);
        if t.Some? {
          ArrivedBack(tab, civil, micro, y, m, d, tod, t.value);
          return Some(Civil(y, m, d, t.value.hour, t.value.minute, t.value.second));
        }
      }
      BackDay(tab, civil, micro, y, m, d, tod);
      d, tod := d - 1, None;
    }
    return None;
  }

  /** _prev_civil: the greatest accepted instant strictly before civil. */
  method PrevCivil(tab: CronTab, civil: Civil, micro: nat) returns (r: Option<Civil>)
    requires ValidTab(tab) && ValidCivil(civil)
    ensures IsPrev(tab, civil, micro, r)
  {
    var base := PrevBase(civil, micro);
    var months := Sorted(tab.months, 1, 12);
    var y, m, d, tod := base.year, base.month, base.day, Some(TimeOf(base));
    RecedesFromBase(tab, civil, micro);
    while y >= YEAR_FLOOR
      invariant 1 <= m <= 12 && (ValidDate(y, m, d) || (d == 31 && tod == None))
      invariant Receded(base, y, m, d, tod) && NoneAfter(tab, civil, micro, y, m, d, tod)
      decreases y, m
    {
      if tab.years.Some? && y !in tab.years.value {
        var years := Sorted(tab.years.value, YEAR_FLOOR, YEAR_HORIZON);
        var prev := PrevIn(years, y);
        if prev.None? {
          BackYear(tab, civil, micro, y, m, d, tod, YEAR_FLOOR - 1);
          return None;
        }
        BackYear(tab, civil, micro, y, m, d, tod, prev.value);
        y, m, d, tod := prev.value, 12, 31, None;
        continue;
      }
      if m !in tab.months {
        var prev := PrevIn(months, m);
        if prev.None? {
          assert months[|months| - 1] in months;
          BackToPrevYear(tab, civil, micro, y, m, d, tod, months[|months| - 1]);
          y, m := y - 1, months[|months| - 1];
        } else {
          BackMonth(tab, civil, micro, y, m, d, tod, prev.value);
          m := prev.value;
        }
        d, tod := 31, None;
        continue;
      }
      if d > MonthEnd(y, m) {
        ClampToMonth(tab, civil, micro, y, m, d);
        d := MonthEnd(y, m);
      }
      r := ScanMonthBack(tab, civil, micro, y, m, d, tod);
      if r.Some? {
        return r;
      }
      BackPastMonthStart(tab, civil, micro, y, m);
      m, d, tod := m - 1, 31, None;
      if m < 1 {
        y, m := y - 1, 12;
      }
    }
    return None;
  }

  // ---------------------------------------------------------------------
  // The two walks against each other, and the naive iterator
  // ---------------------------------------------------------------------

  /** An accepted instant inside the years both walks cover. */
  ghost predicate Accepted(tab: CronTab, c: Civil) {
    ValidCivil(c) && YEAR_FLOOR <= c.year <= YEAR_HORIZON && Test(tab, c)
  }

  lemma LessTrichotomy(a: Civil, b: Civil)
    requires ValidCivil(a) && ValidCivil(b)
    ensures Less(a, b) || a == b || Less(b, a)
    ensures !(Less(a, b) && Less(b, a)) && !Less(a, a)
  {
    SecondsOrder(a, b);
    SecondsOrder(b, a);
  }

  /** Stepping forward and then back, or back and then forward, returns to the
      same accepted instant; the walks agree on which instants neighbour. */
  lemma WalksAreInverse(tab: CronTab, a: Civil, b: Civil)
    requires Accepted(tab, a) && Accepted(tab, b)
    ensures IsNext(tab, a, Some(b)) <==> IsPrev(tab, b, 0, Some(a))
  {
    forall c | ValidCivil(c) ensures (Less(c, b) || c == b || Less(b, c)) && (Less(c, a) || c == a || Less(a, c)) {
      LessTrichotomy(c, a);
      LessTrichotomy(c, b);
    }
    LessTrichotomy(a, b);
    if IsNext(tab, a, Some(b)) {
      forall c | Behind(tab, b, 0, c) ensures !Less(a, c) {
        if Less(a, c) {
          LessTrichotomy(c, b);
          YearsOrdered(c, b);
          assert Ahead(tab, a, c);
        }
      }
    }
    if IsPrev(tab, b, 0, Some(a)) {
      forall c | Ahead(tab, a, c) ensures !Less(c, b) {
        if Less(c, b) {
          LessTrichotomy(a, c);
          YearsOrdered(a, c);
          assert Behind(tab, b, 0, c);
        }
      }
    }
  }

  lemma YearsOrdered(a: Civil, b: Civil)
    requires Less(a, b)
    ensures a.year <= b.year
  {
  }

  /** The search result is determined by its specification. */
  lemma NextIsUnique(tab: CronTab, civil: Civil, r: Option<Civil>, s: Option<Civil>)
    requires IsNext(tab, civil, r) && IsNext(tab, civil, s)
    ensures r == s
  {
    if r.Some? && s.Some? {
      LessTrichotomy(r.value, s.value);
    }
  }

  /** ys lists, in order, every accepted instant after start up to civil. */
  ghost predicate Lists(tab: CronTab, start: Civil, ys: seq<Civil>, civil: Civil) {
    && ValidCivil(civil) && civil == (if ys == [] then start else ys[|ys| - 1])
    && (forall i :: 0 <= i < |ys| ==> Ahead(tab, start, ys[i]))
    && (forall i, j :: 0 <= i < j < |ys| ==> Less(ys[i], ys[j]))
    && (forall c :: Ahead(tab, start, c) && !Less(civil, c) ==> c in ys)
  }

  lemma LessTransitive(a: Civil, b: Civil, c: Civil)
    requires ValidCivil(a) && ValidCivil(b) && ValidCivil(c) && Less(a, b) && Less(b, c)
    ensures Less(a, c)
  {
    SecondsOrder(a, b);
    SecondsOrder(b, c);
    SecondsOrder(a, c);
  }

  lemma ListedAreBefore(tab: CronTab, start: Civil, ys: seq<Civil>, civil: Civil, n: Civil)
    requires ValidCivil(start) && Lists(tab, start, ys, civil) && ValidCivil(n) && Less(civil, n)
    ensures Less(start, n) && forall i :: 0 <= i < |ys| ==> Less(ys[i], n)
  {
    forall i | 0 <= i < |ys| ensures Less(ys[i], n) {
      if i < |ys| - 1 {
        LessTransitive(ys[i], civil, n);
      }
    }
    if ys != [] {
      LessTransitive(start, civil, n);
    }
  }

  lemma ListNext(tab: CronTab, start: Civil, ys: seq<Civil>, civil: Civil, n: Civil)
    requires ValidCivil(start) && Lists(tab, start, ys, civil) && IsNext(tab, civil, Some(n))
    ensures Lists(tab, start, ys + [n], n)
  {
    ListedAreBefore(tab, start, ys, civil, n);
    forall c | Ahead(tab, start, c) && !Less(n, c) ensures c in ys + [n] {
      LessTrichotomy(c, n);
      assert Less(civil, c) ==> Ahead(tab, civil, c);
    }
  }

  /** occurrences with a naive start, run for at most `limit` yields. */
  method OccurrencesNaive(tab: CronTab, start: Civil, limit: nat) returns (ys: seq<Civil>, ended: bool)
    requires ValidTab(tab) && ValidCivil(start)
    ensures |ys| <= limit && (ended || |ys| == limit)
    ensures forall i :: 0 <= i < |ys| ==> Ahead(tab, start, ys[i])
    ensures forall i, j :: 0 <= i < j < |ys| ==> Less(ys[i], ys[j])
    ensures forall c :: Ahead(tab, start, c) && (ended || (ys != [] && !Less(ys[|ys| - 1], c))) ==> c in ys
  {
    ys, ended := [], false;
    var civil := start;
    while |ys| < limit
      invariant |ys| <= limit && Lists(tab, start, ys, civil)
    {
      var target := NextCivil(tab, civil);
      if target.None? {
        forall c | Ahead(tab, start, c) ensures c in ys {
          assert !Ahead(tab, civil, c);
        }
        ended := true;
        return;
      }
      ListNext(tab, start, ys, civil, target.value);
      ys, civil := ys + [target.value], target.value;
    }
  }
}
