/** The month-length lint of cronstable/croninfo.py, checked against the
    engine's own day-of-month test over every year. */
module MonthLint {
  import opened Wrappers
  import opened Calendar
  import opened CronTab
  import opened CivilSearch

  datatype Finding = SkippedMonths(months: seq<int>) | LeapDayOnly

  /** _MONTH_MAX: the longest a month ever gets. */
  function MonthMax(m: int): (n: int)
    requires 1 <= m <= 12
    ensures n == MonthEnd(2000, m)
  {
    if m == 2 then 29 else if m in {4, 6, 9, 11} then 30 else 31
  }

  /** The month never lands: no date of it, in any year, passes the engine. */
  ghost predicate NeverLands(tab: CronTab, m: int)
    requires 1 <= m <= 12
  {
    forall y, d :: ValidDate(y, m, d) ==> !DomMatches(tab, y, m, d)
  }

  /** Some date of the month passes the engine in year y. */
  ghost predicate LandsIn(tab: CronTab, y: int, m: int)
    requires 1 <= m <= 12
  {
    exists d :: ValidDate(y, m, d) && DomMatches(tab, y, m, d)
  }

  ghost predicate LeapOnly(tab: CronTab) {
    && (forall y :: IsLeap(y) ==> LandsIn(tab, y, 2))
    && (forall y :: !IsLeap(y) ==> !LandsIn(tab, y, 2))
  }

  /** Some selected day, target or offset fits a month of n days. */
  ghost predicate Fits(tab: CronTab, n: int) {
    || (exists d :: d in tab.dom && d <= n)
    || (exists d :: d in tab.nearest && d <= n)
    || (exists k :: k in tab.lastOffsets && k <= n - 1)
    || tab.lastWeekday
  }

  /** A month lands in a year exactly when some day form fits its length then. */
  lemma LandsIffFits(tab: CronTab, y: int, m: int)
    requires ValidTab(tab) && 1 <= m <= 12
    ensures LandsIn(tab, y, m) <==> Fits(tab, MonthEnd(y, m))
  {
    var n := MonthEnd(y, m);
    if LandsIn(tab, y, m) {
      var d :| ValidDate(y, m, d) && DomMatches(tab, y, m, d);
      if d !in tab.dom && (n - d) in tab.lastOffsets {
        assert n - d <= n - 1;
      }
    }
    if d :| d in tab.dom && d <= n {
      assert ValidDate(y, m, d) && DomMatches(tab, y, m, d);
    } else if d :| d in tab.nearest && d <= n {
      var s := ShiftToWeekday(y, m, d, n);
      ShiftIsNearest(y, m, d, s);
      assert ValidDate(y, m, s) && DomMatches(tab, y, m, s);
    } else if k :| k in tab.lastOffsets && k <= n - 1 {
      assert n - (n - k) == k;
      assert ValidDate(y, m, n - k) && DomMatches(tab, y, m, n - k);
    } else if tab.lastWeekday {
      var s := ShiftToWeekday(y, m, n, n);
      ShiftIsLast(y, m, s);
      assert ValidDate(y, m, s) && DomMatches(tab, y, m, s);
    }
  }

  lemma FitsMonotone(tab: CronTab, a: int, b: int)
    requires a <= b && Fits(tab, a)
    ensures Fits(tab, b)
  {
  }

  lemma NeverLandsIffTooLong(tab: CronTab, m: int)
    requires ValidTab(tab) && 1 <= m <= 12
    ensures NeverLands(tab, m) <==> !Fits(tab, MonthMax(m))
  {
    LandsIffFits(tab, 2000, m);
    if !Fits(tab, MonthMax(m)) {
      forall y, d | ValidDate(y, m, d) ensures !DomMatches(tab, y, m, d) {
        LandsIffFits(tab, y, m);
        if Fits(tab, MonthEnd(y, m)) {
          FitsMonotone(tab, MonthEnd(y, m), MonthMax(m));
        }
      }
    }
  }

  lemma LeapOnlyIffFits29(tab: CronTab)
    requires ValidTab(tab)
    ensures LeapOnly(tab) <==> Fits(tab, 29) && !Fits(tab, 28)
  {
    forall y ensures LandsIn(tab, y, 2) <==> Fits(tab, if IsLeap(y) then 29 else 28) {
      LandsIffFits(tab, y, 2);
    }
    assert IsLeap(2000) && !IsLeap(2001);
  }

  /** min over the selected days or offsets, or None for an empty set. */
  method MinOf(s: set<int>, hi: int) returns (r: Option<int>)
    requires Within(s, 0, hi)
    ensures r.None? <==> s == {}
    ensures r.Some? ==> r.value in s && forall x :: x in s ==> r.value <= x
  {
    var sorted := Sorted(s, 0, hi);
    if sorted == [] {
      return None;
    }
    assert sorted[0] in sorted;
    return Some(sorted[0]);
  }

  predicate Reachable(dmin: Option<int>, omin: Option<int>, longest: int) {
    (dmin.Some? && dmin.value <= longest) || (omin.Some? && omin.value <= longest - 1)
  }

  /** The selected months too short for every day form, in order. */
  method Unreachable(selected: set<int>, dmin: Option<int>, omin: Option<int>) returns (skipped: seq<int>)
    requires Within(selected, 1, 12)
    ensures Increasing(skipped) && forall m :: m in skipped ==> m in selected
    ensures forall m :: m in selected && 1 <= m <= 12 ==> (m in skipped <==> !Reachable(dmin, omin, MonthMax(m)))
  {
    var months := Sorted(selected, 1, 12);
    skipped := [];
    for i := 0 to |months|
      invariant Increasing(skipped) && forall m :: m in skipped ==> m in months[..i]
      invariant forall m :: m in months[..i] && 1 <= m <= 12 ==> (m in skipped <==> !Reachable(dmin, omin, MonthMax(m)))
    {
      assert months[i] in months;
      assert forall k :: 0 <= k < |skipped| ==> skipped[k] in skipped;
      if !Reachable(dmin, omin, MonthMax(months[i])) {
        skipped := skipped + [months[i]];
      }
    }
  }

  /** _lint_month_lengths: the decision and the months it names. */
  method LintMonthLengths(tab: CronTab) returns (findings: seq<Finding>)
    requires ValidTab(tab)
    ensures forall f :: f in findings ==> f.LeapDayOnly? || (f.months != [] && Increasing(f.months))
    ensures forall m :: 1 <= m <= 12 && m in tab.months ==>
      ((exists f :: f in findings && f.SkippedMonths? && m in f.months) <==> NeverLands(tab, m))
    ensures forall f, m :: f in findings && f.SkippedMonths? && m in f.months ==> m in tab.months
    ensures LeapDayOnly in findings <==> 2 in tab.months && LeapOnly(tab)
  {
    findings := [];
    forall m | 1 <= m <= 12 ensures NeverLands(tab, m) <==> !Fits(tab, MonthMax(m)) {
      NeverLandsIffTooLong(tab, m);
    }
    LeapOnlyIffFits29(tab);
    if 0 in tab.lastOffsets || tab.lastWeekday {
      assert forall n :: n >= 1 ==> Fits(tab, n);
      return;
    }
    var dayLike := tab.dom + tab.nearest;
    if (dayLike == {} && tab.lastOffsets == {}) || (forall d :: 1 <= d <= 31 ==> d in tab.dom) {
      assert tab.dom <= dayLike && tab.nearest <= dayLike;
      assert 1 in tab.dom;
      assert forall n :: n >= 1 ==> Fits(tab, n);
      return;
    }
    var dmin := MinOf(dayLike, 31);
    var omin := MinOf(tab.lastOffsets, 30);
    forall n ensures Reachable(dmin, omin, n) <==> Fits(tab, n) {
      ReachableIffFits(tab, dmin, omin, n);
    }
    var skipped := Unreachable(tab.months, dmin, omin);
    if skipped != [] {
      findings := findings + [SkippedMonths(skipped)];
    }
    if 2 in tab.months && 2 !in skipped && !Reachable(dmin, omin, 28) {
      findings := findings + [LeapDayOnly];
    }
  }

  lemma ReachableIffFits(tab: CronTab, dmin: Option<int>, omin: Option<int>, n: int)
    requires !tab.lastWeekday
    requires dmin.None? <==> tab.dom + tab.nearest == {}
    requires dmin.Some? ==> dmin.value in tab.dom + tab.nearest && forall x :: x in tab.dom + tab.nearest ==> dmin.value <= x
    requires omin.None? <==> tab.lastOffsets == {}
    requires omin.Some? ==> omin.value in tab.lastOffsets && forall x :: x in tab.lastOffsets ==> omin.value <= x
    ensures Reachable(dmin, omin, n) <==> Fits(tab, n)
  {
    if d :| d in tab.dom && d <= n {
      assert d in tab.dom + tab.nearest;
    } else if d :| d in tab.nearest && d <= n {
      assert d in tab.dom + tab.nearest;
    }
  }
}
