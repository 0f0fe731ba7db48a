/** next and occurrences for an aware datetime (cronstable/cronexpr.py): the
    rewound seed after a spring-forward, the resolved-UTC guard, and what the
    two loops return over a zone's transitions. */
module ZonedSearch {
  import opened Wrappers
  import opened Calendar
  import opened CronTab
  import opened CivilSearch
  import opened Zone

  // ---------------------------------------------------------------------
  // The seed
  // ---------------------------------------------------------------------

  /** now.astimezone(utc) of the aware datetime (lab, fold). */
  function Instant(z: Zone, lab: int, fold: bool): int
    requires |z.off| == |z.at| + 1
  {
    lab - LabelOffset(z, lab, fold)
  }

  /** _gap_rewound_seed. */
  function RewoundSeed(z: Zone, lab: int, fold: bool): int
    requires |z.off| == |z.at| + 1
  {
    if z.at == [] then lab else  // a fixed-offset datetime.timezone
      var n, offNow := Instant(z, lab, fold), LabelOffset(z, lab, fold);
      var offThen := OffsetAt(z, n - PROBE);
      if offNow <= offThen then lab else
        var jump := offNow - offThen;
        if OffsetAt(z, n - jump) == offNow then lab else lab - jump
  }

  /** The one kind of datetime the seed can misplace is a wall time the gap
      skipped, marked fold=1, with an earlier transition near enough to be
      probed in place of the gap itself. */
  predicate SeedTrusted(z: Zone, lab: int, fold: bool)
    requires |z.off| == |z.at| + 1
  {
    var n, offNow := Instant(z, lab, fold), LabelOffset(z, lab, fold);
    var offThen := OffsetAt(z, n - PROBE);
    fold && Label(z, n) != lab ==>
      offThen <= OffsetAt(z, n) && OffsetAt(z, n - (offNow - offThen)) != offNow
  }

  /** Which segment the instant of an aware datetime lies in. */
  lemma InstantSegment(z: Zone, lab: int, fold: bool)
    requires WellSeparated(z)
    ensures var j, n := LabelSegment(z, fold, lab), Instant(z, lab, fold);
            var k := Segment(z, n);
            && (k == j || (!fold && k == j + 1 && InGapShadow(z, n)) || (fold && k == j - 1 && z.off[k] < z.off[j]))
            && (Label(z, n) == lab <==> z.off[k] == z.off[j])
  {
    var j, n := LabelSegment(z, fold, lab), Instant(z, lab, fold);
    var k: int := Segment(z, n);
    if j > 0 {
      assert JumpFits(z, j - 1);
    }
    if j < |z.at| {
      assert JumpFits(z, j);
    }
    if k > j + 1 {
      TransitionsApart(z, j, k - 1);
    } else if k < j - 1 {
      TransitionsApart(z, k, j - 1);
    }
  }

  /** The probe sees the current segment or the one before it. */
  lemma ProbeSegment(z: Zone, n: int)
    requires WellSeparated(z)
    ensures var k := Segment(z, n);
            Segment(z, n - PROBE) == if k > 0 && n - PROBE < z.at[k - 1] then k - 1 else k
  {
    var k: int, i: int := Segment(z, n), Segment(z, n - PROBE);
    SegmentOrder(z, n - PROBE, n);
    if i < k - 1 {
      TransitionsApart(z, i, k - 1);
    }
  }

  lemma EdgeSegment(z: Zone, n: int, back: int)
    requires WellSeparated(z) && 0 <= back <= PROBE
    ensures var k := Segment(z, n);
            Segment(z, n - back) == if k > 0 && n - back < z.at[k - 1] then k - 1 else k
  {
    ProbeSegment(z, n);
    SegmentOrder(z, n - PROBE, n - back);
    SegmentOrder(z, n - back, n);
  }

  /** What the probe and the rewound edge see from an instant in segment k. */
  lemma ProbeOffsets(z: Zone, n: int)
    requires WellSeparated(z)
    ensures var k := Segment(z, n);
            && (k == 0 ==> OffsetAt(z, n - PROBE) == z.off[0])
            && (k > 0 ==>
              && OffsetAt(z, n - PROBE) == (if n - PROBE < z.at[k - 1] then z.off[k - 1] else z.off[k])
              && (Jump(z, k - 1) >= 0 ==>
                OffsetAt(z, n - Jump(z, k - 1)) == if n < z.at[k - 1] + Jump(z, k - 1) then z.off[k - 1] else z.off[k]))
  {
    var k: int := Segment(z, n);
    ProbeSegment(z, n);
    if k > 0 {
      assert JumpFits(z, k - 1);
      if Jump(z, k - 1) >= 0 {
        EdgeSegment(z, n, Jump(z, k - 1));
      }
    }
  }

  /** A datetime that shows the clock of its own instant rewinds to the threshold. */
  lemma UnmovedSeed(z: Zone, lab: int, fold: bool)
    requires WellSeparated(z) && Label(z, Instant(z, lab, fold)) == lab
    ensures RewoundSeed(z, lab, fold) == Threshold(z, Instant(z, lab, fold))
  {
    InstantSegment(z, lab, fold);
    var n := Instant(z, lab, fold);
    ProbeOffsets(z, n);
    if Segment(z, n) > 0 {
      assert JumpFits(z, Segment(z, n) - 1);
    }
  }

  /** A skipped wall time with fold=0 carries the offset before the gap, and is the
      threshold already. */
  lemma MovedSeed(z: Zone, lab: int)
    requires WellSeparated(z) && Label(z, Instant(z, lab, false)) != lab
    ensures RewoundSeed(z, lab, false) == lab == Threshold(z, Instant(z, lab, false))
  {
    InstantSegment(z, lab, false);
    var n := Instant(z, lab, false);
    ProbeOffsets(z, n);
    assert JumpFits(z, Segment(z, n) - 1);
  }

  /** A skipped wall time with fold=1 is rewound past the gap when it is trusted. */
  lemma MovedFoldSeed(z: Zone, lab: int)
    requires WellSeparated(z) && Label(z, Instant(z, lab, true)) != lab && SeedTrusted(z, lab, true)
    ensures var n, seed := Instant(z, lab, true), RewoundSeed(z, lab, true);
            seed <= Threshold(z, n) && (InGapShadow(z, n) ==> seed == Threshold(z, n))
  {
    InstantSegment(z, lab, true);
    var n := Instant(z, lab, true);
    ProbeOffsets(z, n);
    var k := Segment(z, n);
    assert JumpFits(z, k);
    if k > 0 {
      assert JumpFits(z, k - 1) && Apart(z, k);
    }
  }

  /** For a trusted datetime the seed is at or below the threshold, and exactly
      on it while gap-shifted fires are pending. */
  lemma TrustedSeed(z: Zone, lab: int, fold: bool)
    requires WellSeparated(z) && SeedTrusted(z, lab, fold)
    ensures var n, seed := Instant(z, lab, fold), RewoundSeed(z, lab, fold);
            seed <= Threshold(z, n) && (InGapShadow(z, n) ==> seed == Threshold(z, n))
  {
    if Label(z, Instant(z, lab, fold)) == lab {
      UnmovedSeed(z, lab, fold);
    } else if fold {
      MovedFoldSeed(z, lab);
    } else {
      MovedSeed(z, lab);
    }
  }

  /** An untrusted datetime sits in a gap whose labels all resolve after it: its
      seed is the label itself, and that label resolves later still. */
  lemma UntrustedSeed(z: Zone, lab: int, fold: bool)
    requires WellSeparated(z) && !SeedTrusted(z, lab, fold)
    ensures var n, seed := Instant(z, lab, fold), RewoundSeed(z, lab, fold);
            seed > Label(z, n) && LabelSegment(z, false, seed) >= Segment(z, n)
  {
    var n, seed := Instant(z, lab, fold), RewoundSeed(z, lab, fold);
    InstantSegment(z, lab, fold);
    ProbeSegment(z, n);
    var k := Segment(z, n);
    assert JumpFits(z, k);
    if k > 0 {
      assert JumpFits(z, k - 1) && Apart(z, k);
      SegmentsOrdered(z, seed, k - 1);
    }
  }

  /** From the seed of an untrusted datetime on, every label is still to come. */
  lemma UntrustedSeedIsAhead(z: Zone, lab: int, fold: bool, t: int)
    requires WellSeparated(z) && !SeedTrusted(z, lab, fold) && t >= RewoundSeed(z, lab, fold)
    ensures Resolve(z, t) > Instant(z, lab, fold)
  {
    var n, seed := Instant(z, lab, fold), RewoundSeed(z, lab, fold);
    UntrustedSeed(z, lab, fold);
    ResolvesAfter(z, t, n);
    var k := Segment(z, n);
    if k > 0 {
      SegmentsOrdered(z, seed, k - 1);
      SegmentsOrdered(z, t, k - 1);
    }
  }

  /** The rewound seed loses no pending fire exactly for the trusted datetimes. */
  lemma SeedLosesNothing(z: Zone, lab: int, fold: bool)
    requires WellSeparated(z)
    ensures SeedTrusted(z, lab, fold) <==>
            forall t :: t <= RewoundSeed(z, lab, fold) ==> Resolve(z, t) <= Instant(z, lab, fold)
  {
    var n, seed := Instant(z, lab, fold), RewoundSeed(z, lab, fold);
    if SeedTrusted(z, lab, fold) {
      TrustedSeed(z, lab, fold);
      forall t | t <= seed ensures Resolve(z, t) <= n {
        ThresholdIsSafe(z, n, t);
      }
    } else {
      UntrustedSeedIsAhead(z, lab, fold, seed);
    }
  }

  // ---------------------------------------------------------------------
  // next
  // ---------------------------------------------------------------------

  /** A label the schedule accepts, up to the search horizon. */
  ghost predicate Matches(tab: CronTab, t: int) {
    Test(tab, CivilOf(t)) && CivilOf(t).year <= YEAR_HORIZON
  }

  /** The labels a schedule accepts: what the loops below search. */
  ghost function Accepts(tab: CronTab): iset<int> {
    iset t | Matches(tab, t)
  }

  /** Past every label whose year is within the horizon. */
  function HorizonEnd(): int {
    86400 * (DaysBeforeYear(YEAR_HORIZON + 1) + 1)
  }

  lemma BelowHorizon(c: Civil)
    requires ValidCivil(c) && c.year <= YEAR_HORIZON
    ensures Seconds(c) < HorizonEnd()
  {
    DayOfYearBound(c.year, c.month, c.day);
    YearLength(c.year);
    YearsMonotone(c.year + 1, YEAR_HORIZON + 1);
  }

  /** target is the least accepted label above civil: what _next_civil finds. */
  ghost predicate IsNextLabel(fires: iset<int>, civil: int, target: int) {
    target in fires && civil < target && forall s :: s in fires && civil < s ==> target <= s
  }

  ghost predicate NoLaterLabel(fires: iset<int>, civil: int) {
    forall s :: s in fires ==> s <= civil
  }

  /** _next_civil read on whole-second labels. */
  method NextLabel(tab: CronTab, t: int) returns (r: Option<int>)
    requires ValidTab(tab)
    ensures r.Some? ==> t < r.value < HorizonEnd() && IsNextLabel(Accepts(tab), t, r.value)
    ensures r.None? ==> NoLaterLabel(Accepts(tab), t)
  {
    var c := NextCivil(tab, CivilOf(t));
    forall s | t < s && Matches(tab, s) ensures c.Some? && Seconds(c.value) <= s {
      SecondsOrder(CivilOf(t), CivilOf(s));
      assert Ahead(tab, CivilOf(t), CivilOf(s));
      if c.Some? {
        SecondsOrder(CivilOf(s), c.value);
      }
    }
    if c.None? {
      return None;
    }
    SecondsOrder(CivilOf(t), c.value);
    CivilOfSeconds(c.value);
    BelowHorizon(c.value);
    return Some(Seconds(c.value));
  }

  /** No accepted label above the seed, up to `upto`, resolves after instant n. */
  ghost predicate NonePending(z: Zone, fires: iset<int>, seed: int, n: int, upto: int)
    requires |z.off| == |z.at| + 1
  {
    forall t :: t in fires && seed < t <= upto ==> Resolve(z, t) <= n
  }

  /** target is the least accepted label above the seed that resolves strictly
      after n. */
  ghost predicate IsFirstFire(z: Zone, fires: iset<int>, seed: int, n: int, target: int)
    requires |z.off| == |z.at| + 1
  {
    && target in fires && target > seed && Resolve(z, target) > n
    && forall t :: t in fires && t > seed && Resolve(z, t) > n ==> target <= t
  }

  /** No accepted label above the seed resolves after n. */
  ghost predicate NoneLeft(z: Zone, fires: iset<int>, seed: int, n: int)
    requires |z.off| == |z.at| + 1
  {
    forall t :: t in fires && t > seed ==> Resolve(z, t) <= n
  }

  /** target is the least accepted label that resolves strictly after n. */
  ghost predicate IsNextFire(z: Zone, fires: iset<int>, n: int, target: int)
    requires |z.off| == |z.at| + 1
  {
    && target in fires && Resolve(z, target) > n
    && forall t :: t in fires && Resolve(z, t) > n ==> target <= t
  }

  ghost predicate NeverFires(z: Zone, fires: iset<int>, n: int)
    requires |z.off| == |z.at| + 1
  {
    forall t :: t in fires ==> Resolve(z, t) <= n
  }

  /** For a trusted datetime, searching above the seed is searching everywhere. */
  lemma TrustedSearch(z: Zone, fires: iset<int>, lab: int, fold: bool, target: int)
    requires WellSeparated(z) && SeedTrusted(z, lab, fold)
    ensures var seed, n := RewoundSeed(z, lab, fold), Instant(z, lab, fold);
            && (IsFirstFire(z, fires, seed, n, target) <==> IsNextFire(z, fires, n, target))
            && (NoneLeft(z, fires, seed, n) <==> NeverFires(z, fires, n))
  {
    SeedLosesNothing(z, lab, fold);
  }

  /** What makes stepping over rejected candidates safe: no gap label above the seed
      is still pending below it, or nothing above the seed is ever rejected. */
  ghost predicate Fits(z: Zone, seed: int, n: int)
    requires |z.off| == |z.at| + 1
  {
    (InGapShadow(z, n) ==> Threshold(z, n) <= seed) || (forall t :: t > seed ==> Resolve(z, t) > n)
  }

  /** Every rewound seed fits, trusted or not. */
  lemma SeedFits(z: Zone, lab: int, fold: bool)
    requires WellSeparated(z)
    ensures Fits(z, RewoundSeed(z, lab, fold), Instant(z, lab, fold))
  {
    if SeedTrusted(z, lab, fold) {
      TrustedSeed(z, lab, fold);
    } else {
      forall t | t > RewoundSeed(z, lab, fold) ensures Resolve(z, t) > Instant(z, lab, fold) {
        UntrustedSeedIsAhead(z, lab, fold, t);
      }
    }
  }

  /** Passing over a rejected candidate keeps nothing pending behind the cursor. */
  lemma RejectKeepsClean(z: Zone, fires: iset<int>, seed: int, n: int, civil: int, target: int)
    requires WellSeparated(z) && Fits(z, seed, n) && seed <= civil && NonePending(z, fires, seed, n, civil)
    requires IsNextLabel(fires, civil, target) && Resolve(z, target) <= n
    ensures NonePending(z, fires, seed, n, Max(target, Label(z, Resolve(z, target))))
  {
    forall t | t in fires && seed < t <= Max(target, Label(z, Resolve(z, target))) ensures Resolve(z, t) <= n {
      if target < t {
        AdvanceIsSafe(z, n, target, t);
      }
    }
  }

  function Max(a: int, b: int): int {
    if a < b then b else a
  }

  /** A delay of `delay` microseconds from n and `micro` leads to the fire of label t. */
  ghost predicate LeadsTo(z: Zone, fires: iset<int>, n: int, micro: int, delay: int, t: int)
    requires |z.off| == |z.at| + 1
  {
    t in fires && Resolve(z, t) > n && delay == 1_000_000 * (Resolve(z, t) - n) - micro
  }

  /** The loop of next: the least accepted label above the seed still to come. */
  method SearchFrom(z: Zone, tab: CronTab, seed: int, n: int) returns (r: Option<int>)
    requires WellSeparated(z) && ValidTab(tab) && Fits(z, seed, n)
    ensures r.Some? ==> IsFirstFire(z, Accepts(tab), seed, n, r.value)
    ensures r.None? <==> NoneLeft(z, Accepts(tab), seed, n)
  {
    ghost var fires := Accepts(tab);
    var civil := seed;
    while true
      invariant seed <= civil && NonePending(z, fires, seed, n, civil)
      decreases HorizonEnd() - civil
    {
      r := NextLabel(tab, civil);
      if r.None? || Resolve(z, r.value) > n {
        return;
      }
      RejectKeepsClean(z, fires, seed, n, civil, r.value);
      civil := Max(r.value, Label(z, Resolve(z, r.value)));
    }
  }

  /** next for an aware now with `micro` microseconds: the delay in
      microseconds to the fire of the least accepted label above the seed that
      is still to come; for a trusted now, the least of all. */
  method Next(z: Zone, tab: CronTab, lab: int, fold: bool, micro: nat) returns (delay: Option<int>)
    requires WellSeparated(z) && ValidTab(tab) && micro < 1_000_000
    ensures delay.Some? ==> delay.value > 0
    ensures delay.Some? ==>
      exists t :: LeadsTo(z, Accepts(tab), Instant(z, lab, fold), micro, delay.value, t) &&
        IsFirstFire(z, Accepts(tab), RewoundSeed(z, lab, fold), Instant(z, lab, fold), t) &&
        (SeedTrusted(z, lab, fold) ==> IsNextFire(z, Accepts(tab), Instant(z, lab, fold), t))
    ensures delay.None? <==> NoneLeft(z, Accepts(tab), RewoundSeed(z, lab, fold), Instant(z, lab, fold))
    ensures SeedTrusted(z, lab, fold) ==> (delay.None? <==> NeverFires(z, Accepts(tab), Instant(z, lab, fold)))
  {
    var n := Instant(z, lab, fold);
    SeedFits(z, lab, fold);
    var target := SearchFrom(z, tab, RewoundSeed(z, lab, fold), n);
    if SeedTrusted(z, lab, fold) {
      TrustedSearch(z, Accepts(tab), lab, fold, if target.Some? then target.value else 0);
    }
    if target.None? {
      return None;
    }
    delay := Some(1_000_000 * (Resolve(z, target.value) - n) - micro);
    assert LeadsTo(z, Accepts(tab), n, micro, delay.value, target.value);
  }

  // ---------------------------------------------------------------------
  // An untrusted now
  // ---------------------------------------------------------------------

  predicate Inside(lo: int, hi: int, x: int) {
    lo <= x <= hi
  }

  /** The integers from lo to hi. */
  function Between(lo: int, hi: int): set<int> {
    set x | lo <= x <= hi && Inside(lo, hi, x)
  }

  /** `* * * * * * *`. */
  function EverySecond(): CronTab {
    CronTab(Between(0, 59), Between(0, 59), Between(0, 23), Between(1, 31), {}, {}, false, Between(1, 12), Between(0, 6), {}, {}, None)
  }

  lemma EverySecondIsValid()
    ensures ValidTab(EverySecond())
  {
    assert Inside(0, 59, 0) && Inside(0, 23, 0) && Inside(1, 31, 1) && Inside(1, 12, 1);
    assert 0 in Between(0, 59) && 0 in Between(0, 23) && 1 in Between(1, 31) && 1 in Between(1, 12);
  }

  lemma BeforeHorizon(t: int)
    requires t < HorizonEnd()
    ensures CivilOf(t).year <= YEAR_HORIZON
  {
    var c := CivilOf(t);
    if c.year > YEAR_HORIZON {
      YearsMonotone(YEAR_HORIZON + 1, c.year);
      DayOfYearBound(c.year, c.month, c.day);
    }
  }

  lemma EverySecondTests(c: Civil)
    requires ValidCivil(c)
    ensures Test(EverySecond(), c)
  {
    var dow := CronDow(c.year, c.month, c.day);
    assert Inside(0, 59, c.second) && Inside(0, 59, c.minute) && Inside(0, 23, c.hour);
    assert Inside(1, 31, c.day) && Inside(1, 12, c.month) && Inside(0, 6, dow);
  }

  lemma EverySecondAccepts(t: int)
    requires t < HorizonEnd()
    ensures t in Accepts(EverySecond())
  {
    EverySecondTests(CivilOf(t));
    BeforeHorizon(t);
  }

  /** Every label before the horizon is accepted. */
  ghost predicate AcceptsAll(fires: iset<int>) {
    forall t :: t < HorizonEnd() ==> t in fires
  }

  lemma EverySecondAcceptsAll()
    ensures ValidTab(EverySecond()) && AcceptsAll(Accepts(EverySecond()))
  {
    EverySecondIsValid();
    forall t | t < HorizonEnd() ensures t in Accepts(EverySecond()) {
      EverySecondAccepts(t);
    }
  }

  /** The schedule of one civil instant, with its year. */
  function OneShot(c: Civil): CronTab {
    CronTab({c.second}, {c.minute}, {c.hour}, {c.day}, {}, {}, false, {c.month}, Between(0, 6), {}, {}, Some({c.year}))
  }

  lemma OneShotIsValid(c: Civil)
    requires ValidCivil(c) && YEAR_FLOOR <= c.year <= YEAR_HORIZON
    ensures ValidTab(OneShot(c))
  {
    assert c.second in {c.second} && c.minute in {c.minute} && c.hour in {c.hour};
    assert c.day in {c.day} && c.month in {c.month} && c.year in {c.year};
  }

  lemma OneShotTests(c: Civil, d: Civil)
    requires ValidCivil(c) && ValidCivil(d)
    ensures Test(OneShot(c), d) <==> d == c
  {
    var dow := CronDow(d.year, d.month, d.day);
    assert Inside(0, 6, dow);
  }

  lemma OneShotAccepts(c: Civil)
    requires ValidCivil(c) && YEAR_FLOOR <= c.year <= YEAR_HORIZON
    ensures Accepts(OneShot(c)) == iset{Seconds(c)}
  {
    CivilOfSeconds(c);
    forall t ensures Test(OneShot(c), CivilOf(t)) <==> t == Seconds(c) {
      OneShotTests(c, CivilOf(t));
    }
  }

  /** What next returns at this now is what the least label still to come calls for:
      the same instant, and None exactly when there is no such label. */
  ghost predicate ReturnsTheLeast(z: Zone, fires: iset<int>, lab: int, fold: bool)
    requires |z.off| == |z.at| + 1
  {
    var seed, n := RewoundSeed(z, lab, fold), Instant(z, lab, fold);
    && (NoneLeft(z, fires, seed, n) <==> NeverFires(z, fires, n))
    && forall t, t' :: IsFirstFire(z, fires, seed, n, t) && IsNextFire(z, fires, n, t') ==> Resolve(z, t) == Resolve(z, t')
  }

  lemma TrustedReturnsTheLeast(z: Zone, fires: iset<int>, lab: int, fold: bool)
    requires WellSeparated(z) && SeedTrusted(z, lab, fold)
    ensures ReturnsTheLeast(z, fires, lab, fold)
  {
    var seed, n := RewoundSeed(z, lab, fold), Instant(z, lab, fold);
    TrustedSearch(z, fires, lab, fold, 0);
    forall t, t' | IsFirstFire(z, fires, seed, n, t) && IsNextFire(z, fires, n, t') ensures t == t' {
      TrustedSearch(z, fires, lab, fold, t);
    }
  }

  /** At every untrusted now, the one-shot schedule on the seed's own label is lost:
      next returns None though it is still to come. */
  lemma UntrustedNowLosesAFire(z: Zone, lab: int, fold: bool)
    requires WellSeparated(z) && !SeedTrusted(z, lab, fold)
    requires YEAR_FLOOR <= CivilOf(RewoundSeed(z, lab, fold)).year <= YEAR_HORIZON
    ensures var seed, n := RewoundSeed(z, lab, fold), Instant(z, lab, fold);
            var tab := OneShot(CivilOf(seed));
            && ValidTab(tab) && Accepts(tab) == iset{seed}
            && NoneLeft(z, Accepts(tab), seed, n) && Resolve(z, seed) > n
  {
    var seed := RewoundSeed(z, lab, fold);
    OneShotIsValid(CivilOf(seed));
    OneShotAccepts(CivilOf(seed));
    UntrustedSeedIsAhead(z, lab, fold, seed);
  }

  /** SeedTrusted is exact: a now is trusted if and only if, for every schedule, next
      returns what the least label still to come calls for. */
  lemma TrustIsExact(z: Zone, lab: int, fold: bool)
    requires WellSeparated(z) && YEAR_FLOOR <= CivilOf(RewoundSeed(z, lab, fold)).year <= YEAR_HORIZON
    ensures SeedTrusted(z, lab, fold) <==> forall tab :: ValidTab(tab) ==> ReturnsTheLeast(z, Accepts(tab), lab, fold)
  {
    if SeedTrusted(z, lab, fold) {
      forall tab | ValidTab(tab) ensures ReturnsTheLeast(z, Accepts(tab), lab, fold) {
        TrustedReturnsTheLeast(z, Accepts(tab), lab, fold);
      }
    } else {
      UntrustedNowLosesAFire(z, lab, fold);
      var tab, seed := OneShot(CivilOf(RewoundSeed(z, lab, fold))), RewoundSeed(z, lab, fold);
      assert seed in Accepts(tab);
      assert !ReturnsTheLeast(z, Accepts(tab), lab, fold);
    }
  }

  /** Untrusted datetimes exist: a two-hour fall-back and, 26 hours and 100 seconds
      later, a one-hour gap, read at the gap's start with fold=1. */
  lemma UntrustedNowExists(base: int)
    ensures var z := Zone([base, base + 93700], [7200, 0, 3600]);
            WellSeparated(z) && !SeedTrusted(z, base + 93700, true) && RewoundSeed(z, base + 93700, true) == base + 93700
  {
    var z, lab := Zone([base, base + 93700], [7200, 0, 3600]), base + 93700;
    assert Apart(z, 1) && JumpFits(z, 0) && JumpFits(z, 1);
    assert LabelSegment(z, true, lab) == 2;
    assert Segment(z, base + 90100) == 1;
    assert CountAt(z, base - 3500, 1) == 0;
    assert Segment(z, base - 3500) == 0;
  }

  // ---------------------------------------------------------------------
  // occurrences
  // ---------------------------------------------------------------------

  /** Instant by instant, ts lists the labels the yields ys fire for. */
  ghost predicate Yields(z: Zone, fires: iset<int>, n: int, ys: seq<int>, ts: seq<int>)
    requires |z.off| == |z.at| + 1
  {
    && |ys| == |ts|
    && (forall i :: 0 <= i < |ys| ==> ts[i] in fires && ys[i] == Resolve(z, ts[i]) && n < ys[i])
    && (forall i, j :: 0 <= i < j < |ys| ==> ys[i] < ys[j] && ts[i] < ts[j])
  }

  /** t was yielded, or was stepped over by the shifted label of a yield. */
  ghost predicate Covered(z: Zone, ys: seq<int>, ts: seq<int>, t: int)
    requires |z.off| == |z.at| + 1 && |ys| == |ts|
  {
    t in ts || exists i :: 0 <= i < |ts| && ts[i] < t <= Label(z, ys[i])
  }

  /** Every accepted label above the seed, up to `upto`, that is still ahead of n
      is covered. */
  ghost predicate AllCovered(z: Zone, fires: iset<int>, seed: int, n: int, ys: seq<int>, ts: seq<int>, upto: int)
    requires |z.off| == |z.at| + 1 && |ys| == |ts|
  {
    forall t :: t in fires && Resolve(z, t) > n && seed < t <= upto ==> Covered(z, ys, ts, t)
  }

  /** t is a label of the latest gap that resolves after u, though the clock at u
      shows a later one. */
  predicate Shadowed(z: Zone, u: int, t: int)
    requires |z.off| == |z.at| + 1
  {
    InGapShadow(z, u) && Threshold(z, u) < t < WallAt(z, false, Segment(z, u) - 1)
  }

  /** No accepted label is shadowed at u. */
  ghost predicate NothingShadowed(z: Zone, fires: iset<int>, u: int)
    requires |z.off| == |z.at| + 1
  {
    forall t :: t in fires ==> !Shadowed(z, u, t)
  }

  /** t is the least accepted label shadowed at u. */
  ghost predicate LeastShadowed(z: Zone, fires: iset<int>, u: int, t: int)
    requires |z.off| == |z.at| + 1
  {
    t in fires && Shadowed(z, u, t) && forall s :: s in fires && Shadowed(z, u, s) ==> t <= s
  }

  /** At u, next fires at instant v. */
  ghost predicate NextFiresAt(z: Zone, fires: iset<int>, u: int, v: int)
    requires |z.off| == |z.at| + 1
  {
    exists t :: IsNextFire(z, fires, u, t) && Resolve(z, t) == v
  }

  /** No accepted label is shadowed at u, or the least one, moved by the gap's jump,
      is `target`. */
  ghost predicate ShadowMeets(z: Zone, fires: iset<int>, u: int, target: int)
    requires |z.off| == |z.at| + 1
  {
    NothingShadowed(z, fires, u) ||
    exists t :: LeastShadowed(z, fires, u, t) && target == t + Jump(z, Segment(z, u) - 1)
  }

  /** Each yield is the instant next fires at from the one before exactly when the
      labels shadowed there meet it. */
  ghost predicate StepsLikeNext(z: Zone, fires: iset<int>, ys: seq<int>, ts: seq<int>)
    requires |z.off| == |z.at| + 1 && |ys| == |ts|
  {
    forall i :: 0 < i < |ys| ==> (NextFiresAt(z, fires, ys[i - 1], ys[i]) <==> ShadowMeets(z, fires, ys[i - 1], ts[i]))
  }

  /** What the loop of occurrences keeps about its cursor. */
  ghost predicate CursorInv(z: Zone, fires: iset<int>, seed: int, n: int, ys: seq<int>, ts: seq<int>, civil: int)
    requires |z.off| == |z.at| + 1
  {
    && Yields(z, fires, n, ys, ts) && StepsLikeNext(z, fires, ys, ts)
    && AllCovered(z, fires, seed, n, ys, ts, civil)
    && (ys == [] ==> seed <= civil && NonePending(z, fires, seed, n, civil))
    && (ys != [] ==> civil == Label(z, ys[|ys| - 1]) && IsFirstFire(z, fires, seed, n, ts[0]))
  }

  /** A candidate already past in real time is only ever met before the first
      yield, and passing it keeps the invariant. */
  lemma CursorReject(z: Zone, fires: iset<int>, seed: int, n: int, ys: seq<int>, ts: seq<int>, civil: int, target: int)
    requires WellSeparated(z) && Fits(z, seed, n) && CursorInv(z, fires, seed, n, ys, ts, civil)
    requires IsNextLabel(fires, civil, target) && Resolve(z, target) <= n
    ensures CursorInv(z, fires, seed, n, ys, ts, Max(target, Label(z, Resolve(z, target))))
  {
    if ys != [] {
      LaterLabelsResolveLater(z, ts[|ts| - 1], target);
      assert false;
    }
    RejectKeepsClean(z, fires, seed, n, civil, target);
  }

  lemma CursorYield(z: Zone, fires: iset<int>, seed: int, n: int, ys: seq<int>, ts: seq<int>, civil: int, target: int)
    requires WellSeparated(z) && CursorInv(z, fires, seed, n, ys, ts, civil)
    requires IsNextLabel(fires, civil, target) && Resolve(z, target) > n
    ensures CursorInv(z, fires, seed, n, ys + [Resolve(z, target)], ts + [target], Label(z, Resolve(z, target)))
    ensures civil < Label(z, Resolve(z, target))
  {
    ShiftedLabel(z, target);
    YieldExtends(z, fires, n, ys, ts, civil, target);
    if ys != [] {
      StepAgreesWithNext(z, fires, ys[|ys| - 1], ts[|ts| - 1], target);
    }
    StepsExtend(z, fires, ys, ts, Resolve(z, target), target);
    CoverageGrows(z, fires, seed, n, ys, ts, civil, target);
    assert IsFirstFire(z, fires, seed, n, (ts + [target])[0]);
  }

  lemma StepsExtend(z: Zone, fires: iset<int>, ys: seq<int>, ts: seq<int>, u: int, target: int)
    requires |z.off| == |z.at| + 1 && |ys| == |ts| && StepsLikeNext(z, fires, ys, ts)
    requires ys != [] ==> (NextFiresAt(z, fires, ys[|ys| - 1], u) <==> ShadowMeets(z, fires, ys[|ys| - 1], target))
    ensures StepsLikeNext(z, fires, ys + [u], ts + [target])
  {
    var ys', ts' := ys + [u], ts + [target];
    forall i | 0 < i < |ys'| ensures NextFiresAt(z, fires, ys'[i - 1], ys'[i]) <==> ShadowMeets(z, fires, ys'[i - 1], ts'[i]) {
      assert ys'[i - 1] == ys[i - 1];
    }
  }

  lemma YieldExtends(z: Zone, fires: iset<int>, n: int, ys: seq<int>, ts: seq<int>, civil: int, target: int)
    requires WellSeparated(z) && Yields(z, fires, n, ys, ts) && (ys != [] ==> civil == Label(z, ys[|ys| - 1]))
    requires civil < target && target in fires && Resolve(z, target) > n
    ensures Yields(z, fires, n, ys + [Resolve(z, target)], ts + [target])
  {
    if ys != [] {
      var last := |ys| - 1;
      LaterLabelsResolveLater(z, ts[last], target);
      ShiftedLabel(z, ts[last]);
      AppendYield(z, fires, n, ys, ts, Resolve(z, target), target);
    }
  }

  lemma AppendYield(z: Zone, fires: iset<int>, n: int, ys: seq<int>, ts: seq<int>, u: int, target: int)
    requires |z.off| == |z.at| + 1 && Yields(z, fires, n, ys, ts) && ys != []
    requires target in fires && u == Resolve(z, target) && ys[|ys| - 1] < u && ts[|ts| - 1] < target
    ensures Yields(z, fires, n, ys + [u], ts + [target])
  {
  }

  /** What the loop of occurrences has listed when it stops. */
  ghost predicate Listed(z: Zone, fires: iset<int>, seed: int, n: int, ys: seq<int>, ts: seq<int>, ended: bool)
    requires |z.off| == |z.at| + 1
  {
    && Yields(z, fires, n, ys, ts) && StepsLikeNext(z, fires, ys, ts)
    && (ys != [] ==> IsFirstFire(z, fires, seed, n, ts[0]) && AllCovered(z, fires, seed, n, ys, ts, Label(z, ys[|ys| - 1])))
    && (ended && ys == [] ==> NoneLeft(z, fires, seed, n))
    && (ended && ys != [] ==> (NeverFires(z, fires, ys[|ys| - 1]) <==> NothingShadowed(z, fires, ys[|ys| - 1])))
    && (ended ==> forall upto :: AllCovered(z, fires, seed, n, ys, ts, upto))
  }

  lemma ListedSoFar(z: Zone, fires: iset<int>, seed: int, n: int, ys: seq<int>, ts: seq<int>, civil: int, ended: bool)
    requires WellSeparated(z) && CursorInv(z, fires, seed, n, ys, ts, civil)
    requires ended ==> NoLaterLabel(fires, civil)
    ensures Listed(z, fires, seed, n, ys, ts, ended)
  {
    if ended && ys != [] {
      EndAgreesWithNext(z, fires, ys[|ys| - 1], ts[|ts| - 1]);
    }
  }

  /** What one pass of the loop of occurrences comes to. */
  datatype Pass = Ended | Rejected | Yielded(at: int)

  /** The cursor after a candidate: past a rejected one, on the label shown at a
      yielded one. */
  function Onward(z: Zone, target: int, n: int): int
    requires |z.off| == |z.at| + 1
  {
    var shown := Label(z, Resolve(z, target));
    if Resolve(z, target) <= n then Max(target, shown) else shown
  }

  /** What a pass leaves behind. */
  ghost predicate Passes(z: Zone, fires: iset<int>, seed: int, n: int, ys: seq<int>, ts: seq<int>,
                         pass: Pass, cursor: int, target: int)
    requires |z.off| == |z.at| + 1
  {
    match pass
    case Ended => CursorInv(z, fires, seed, n, ys, ts, cursor) && NoLaterLabel(fires, cursor)
    case Rejected => CursorInv(z, fires, seed, n, ys, ts, cursor)
    case Yielded(u) => CursorInv(z, fires, seed, n, ys + [u], ts + [target], cursor)
  }

  lemma CandidatePasses(z: Zone, fires: iset<int>, seed: int, n: int, ys: seq<int>, ts: seq<int>, civil: int, target: int)
    requires WellSeparated(z) && Fits(z, seed, n) && CursorInv(z, fires, seed, n, ys, ts, civil)
    requires IsNextLabel(fires, civil, target)
    ensures civil < Onward(z, target, n)
    ensures var u := Resolve(z, target);
            Passes(z, fires, seed, n, ys, ts, if u <= n then Rejected else Yielded(u), Onward(z, target, n), target)
  {
    if Resolve(z, target) <= n {
      CursorReject(z, fires, seed, n, ys, ts, civil, target);
    } else {
      CursorYield(z, fires, seed, n, ys, ts, civil, target);
    }
  }

  /** One pass of the loop of occurrences. */
  method PassOnce(z: Zone, tab: CronTab, ghost seed: int, n: int, civil: int, ghost ys: seq<int>, ghost ts: seq<int>)
    returns (pass: Pass, cursor: int, ghost target: int)
    requires WellSeparated(z) && ValidTab(tab) && Fits(z, seed, n)
    requires CursorInv(z, Accepts(tab), seed, n, ys, ts, civil)
    ensures Passes(z, Accepts(tab), seed, n, ys, ts, pass, cursor, target)
    ensures !pass.Ended? ==> civil < cursor && civil < HorizonEnd()
  {
    var candidate := NextLabel(tab, civil);
    if candidate.None? {
      return Ended, civil, 0;
    }
    target := candidate.value;
    CandidatePasses(z, Accepts(tab), seed, n, ys, ts, civil, target);
    var resolved := Resolve(z, candidate.value);
    pass := if resolved <= n then Rejected else Yielded(resolved);
    cursor := Onward(z, candidate.value, n);
  }

  lemma CursorStart(z: Zone, fires: iset<int>, seed: int, n: int)
    requires |z.off| == |z.at| + 1
    ensures CursorInv(z, fires, seed, n, [], [], seed)
  {
  }

  /** occurrences for an aware start, run for at most `limit` yields: the first is
      what next gives at the start, and each later one is the instant next fires at
      from the one before exactly when the labels shadowed there meet it. */
  method Occurrences(z: Zone, tab: CronTab, lab: int, fold: bool, limit: nat)
    returns (ys: seq<int>, ended: bool, ghost ts: seq<int>)
    requires WellSeparated(z) && ValidTab(tab)
    ensures |ys| <= limit && (ended || |ys| == limit)
    ensures Listed(z, Accepts(tab), RewoundSeed(z, lab, fold), Instant(z, lab, fold), ys, ts, ended)
    ensures SeedTrusted(z, lab, fold) && ys != [] ==> IsNextFire(z, Accepts(tab), Instant(z, lab, fold), ts[0])
    ensures SeedTrusted(z, lab, fold) && ys == [] && ended ==> NeverFires(z, Accepts(tab), Instant(z, lab, fold))
  {
    ghost var fires := Accepts(tab);
    var n, seed := Instant(z, lab, fold), RewoundSeed(z, lab, fold);
    var civil := seed;
    ys, ended, ts := [], false, [];
    SeedFits(z, lab, fold);
    CursorStart(z, fires, seed, n);
    while |ys| < limit && !ended
      invariant |ys| <= limit && CursorInv(z, fires, seed, n, ys, ts, civil)
      invariant ended ==> NoLaterLabel(fires, civil)
      decreases !ended, HorizonEnd() - civil
    {
      var pass;
      ghost var target;
      pass, civil, target := PassOnce(z, tab, seed, n, civil, ys, ts);
      match pass
      case Ended => ended := true;
      case Rejected =>
      case Yielded(u) => ys, ts := ys + [u], ts + [target];
    }
    ListedSoFar(z, fires, seed, n, ys, ts, civil, ended);
    if SeedTrusted(z, lab, fold) {
      TrustedSearch(z, fires, lab, fold, if ys != [] then ts[0] else 0);
    }
  }

  // ---------------------------------------------------------------------
  // occurrences against iterated next
  // ---------------------------------------------------------------------

  /** A yield read back as an aware datetime: the clock at u with fold=0 is u again,
      and next is trusted there. */
  lemma YieldIsTrusted(z: Zone, lab: int)
    requires WellSeparated(z)
    ensures var u := Resolve(z, lab); Instant(z, Label(z, u), false) == u && SeedTrusted(z, Label(z, u), false)
  {
    ShiftedLabel(z, lab);
  }

  /** At a resolved instant u, the labels up to the one shown that resolve after u
      are exactly the shadowed ones. */
  lemma PendingIsShadowed(z: Zone, lab: int, t: int)
    requires WellSeparated(z)
    ensures var u := Resolve(z, lab); t <= Label(z, u) ==> (Resolve(z, t) > u <==> Shadowed(z, u, t))
  {
    var u := Resolve(z, lab);
    var k := Segment(z, u);
    ShiftedLabel(z, lab);
    ResolvesAfter(z, t, u);
    if k < |z.at| {
      SegmentsOrdered(z, t, k);
      SegmentsOrdered(z, Label(z, u), k);
    }
    if k > 0 {
      SegmentsOrdered(z, t, k - 1);
    }
    if k > 1 {
      SegmentsOrdered(z, t, k - 2);
      ThresholdPastEarlierWall(z, u);
    }
  }

  /** A shadowed label lies in the segment just before the gap. */
  lemma ThresholdPastEarlierWall(z: Zone, u: int)
    requires WellSeparated(z) && Segment(z, u) > 1
    ensures InGapShadow(z, u) ==> WallAt(z, false, Segment(z, u) - 2) <= Threshold(z, u)
  {
    var k := Segment(z, u);
    assert Apart(z, k - 1) && JumpFits(z, k - 2);
  }

  /** A shadowed label is below the clock's reading. */
  lemma ShadowedIsBehind(z: Zone, lab: int, t: int)
    requires WellSeparated(z)
    ensures var u := Resolve(z, lab); Shadowed(z, u, t) ==> t < Label(z, u)
  {
    var u := Resolve(z, lab);
    var k := Segment(z, u);
    ShiftedLabel(z, lab);
    if k > 0 {
      SegmentsOrdered(z, Label(z, u), k - 1);
    }
  }

  /** The label after the clock's at u is the one next picks exactly when no
      accepted label is shadowed at u; otherwise next picks the least shadowed. */
  lemma NextPicks(z: Zone, fires: iset<int>, u: int, lab: int, target: int, t: int)
    requires WellSeparated(z) && u == Resolve(z, lab) && target in fires && Label(z, u) < target
    requires forall s :: Label(z, u) < s && s in fires ==> target <= s
    ensures IsNextFire(z, fires, u, t) <==>
            if NothingShadowed(z, fires, u) then t == target else LeastShadowed(z, fires, u, t)
  {
    LaterLabelsResolveLater(z, lab, target);
    forall s ensures s <= Label(z, u) ==> (Resolve(z, s) > u <==> Shadowed(z, u, s)) {
      PendingIsShadowed(z, lab, s);
    }
    forall s ensures Shadowed(z, u, s) ==> s < Label(z, u) {
      ShadowedIsBehind(z, lab, s);
    }
  }

  /** A shadowed label resolves with the offset before the gap. */
  lemma ShadowedResolves(z: Zone, u: int, t: int)
    requires WellSeparated(z) && Shadowed(z, u, t)
    ensures var k := Segment(z, u);
            Resolve(z, t) == t - z.off[k - 1] && Resolve(z, t) < z.at[k - 1] + Jump(z, k - 1)
  {
    var k := Segment(z, u);
    SegmentsOrdered(z, t, k - 1);
    if k > 1 {
      ThresholdPastEarlierWall(z, u);
      SegmentsOrdered(z, t, k - 2);
    }
  }

  /** A shadowed label and a label past the clock's resolve to one instant exactly
      when the gap's jump takes the first to the second. */
  lemma MeetsIffJump(z: Zone, u: int, lab: int, t: int, target: int)
    requires WellSeparated(z) && u == Resolve(z, lab) && Shadowed(z, u, t) && Label(z, u) < target
    ensures Resolve(z, t) == Resolve(z, target) <==> target == t + Jump(z, Segment(z, u) - 1)
  {
    var k, j := Segment(z, u), LabelSegment(z, false, target);
    ShadowedResolves(z, u, t);
    ShiftedLabel(z, lab);
    ResolveBounds(z, target);
    SegmentsOrdered(z, target, k - 1);
    SegmentsOrdered(z, Label(z, u), k - 1);
    assert JumpFits(z, k - 1);
    if k < |z.at| {
      assert Apart(z, k);
      SegmentsOrdered(z, target, k);
    }
    if j > k + 1 {
      TransitionsApart(z, k, j - 1);
    }
  }

  /** The yield after u is the instant next fires at from u exactly when the labels
      shadowed at u meet it. */
  lemma StepAgreesWithNext(z: Zone, fires: iset<int>, u: int, lab: int, target: int)
    requires WellSeparated(z) && u == Resolve(z, lab) && target in fires && Label(z, u) < target
    requires forall s :: Label(z, u) < s && s in fires ==> target <= s
    ensures NextFiresAt(z, fires, u, Resolve(z, target)) <==> ShadowMeets(z, fires, u, target)
  {
    NextPicks(z, fires, u, lab, target, target);
    if !NothingShadowed(z, fires, u) {
      forall t ensures IsNextFire(z, fires, u, t) <==> LeastShadowed(z, fires, u, t) {
        NextPicks(z, fires, u, lab, target, t);
      }
      forall t | LeastShadowed(z, fires, u, t)
        ensures Resolve(z, t) == Resolve(z, target) <==> target == t + Jump(z, Segment(z, u) - 1)
      {
        MeetsIffJump(z, u, lab, t, target);
      }
    }
  }

  /** When occurrences ends, next has nothing left either exactly when no accepted
      label is shadowed at the last yield. */
  lemma EndAgreesWithNext(z: Zone, fires: iset<int>, u: int, lab: int)
    requires WellSeparated(z) && u == Resolve(z, lab) && forall s :: s in fires ==> s <= Label(z, u)
    ensures NeverFires(z, fires, u) <==> NothingShadowed(z, fires, u)
  {
    forall t ensures t <= Label(z, u) ==> (Resolve(z, t) > u <==> Shadowed(z, u, t)) {
      PendingIsShadowed(z, lab, t);
    }
  }

  lemma FirstShadowed(z: Zone, fires: iset<int>, lab: int, t: int)
    requires WellSeparated(z) && AcceptsAll(fires) && Label(z, Resolve(z, lab)) < HorizonEnd() && Shadowed(z, Resolve(z, lab), t)
    ensures LeastShadowed(z, fires, Resolve(z, lab), Threshold(z, Resolve(z, lab)) + 1)
  {
    ShadowedIsBehind(z, lab, t);
  }

  lemma AllAcceptedAgrees(z: Zone, fires: iset<int>, lab: int)
    requires WellSeparated(z) && AcceptsAll(fires) && Label(z, Resolve(z, lab)) + 1 < HorizonEnd()
    ensures var u := Resolve(z, lab); NextFiresAt(z, fires, u, Resolve(z, Label(z, u) + 1))
  {
    var u := Resolve(z, lab);
    if !NothingShadowed(z, fires, u) {
      var t :| t in fires && Shadowed(z, u, t);
      FirstShadowed(z, fires, lab, t);
    }
    StepAgreesWithNext(z, fires, u, lab, Label(z, u) + 1);
  }

  /** Shadowed labels need not part the two: in every zone, at every yield, the
      every-second schedule steps to the instant next fires at. */
  lemma EverySecondAgrees(z: Zone, lab: int)
    requires WellSeparated(z) && Label(z, Resolve(z, lab)) + 1 < HorizonEnd()
    ensures ValidTab(EverySecond())
    ensures var u := Resolve(z, lab); NextFiresAt(z, Accepts(EverySecond()), u, Resolve(z, Label(z, u) + 1))
  {
    EverySecondAcceptsAll();
    AllAcceptedAgrees(z, Accepts(EverySecond()), lab);
  }

  /** `5,20,40 2 * * *`. */
  function ThreeTimes(): CronTab {
    CronTab({0}, {5, 20, 40}, {2}, Between(1, 31), {}, {}, false, Between(1, 12), Between(0, 6), {}, {}, None)
  }

  lemma ThreeTimesIsValid()
    ensures ValidTab(ThreeTimes())
  {
    assert Inside(1, 31, 1) && Inside(1, 12, 1);
    assert 1 in Between(1, 31) && 1 in Between(1, 12) && 0 in {0} && 5 in {5, 20, 40} && 2 in {2};
  }

  lemma ThreeTimesTests(c: Civil)
    requires ValidCivil(c)
    ensures Test(ThreeTimes(), c) <==> SecondOfDay(c) in {7500, 8400, 9600}
  {
    var dow := CronDow(c.year, c.month, c.day);
    assert Inside(1, 31, c.day) && Inside(1, 12, c.month) && Inside(0, 6, dow);
  }

  lemma DaySplit(o: int, sod: int, day: int, second: int)
    requires 0 <= sod < 86400 && 0 <= second < 86400 && 86400 * o + sod == 86400 * day + second
    ensures sod == second
  {
  }

  lemma SecondOfLabel(c: Civil, day: int, second: int)
    requires ValidCivil(c) && 0 <= second < 86400 && Seconds(c) == 86400 * day + second
    ensures SecondOfDay(c) == second
  {
    DaySplit(Ordinal(c.year, c.month, c.day), SecondOfDay(c), day, second);
  }

  /** Its labels: 02:05, 02:20 and 02:40 of every day up to the horizon. */
  lemma ThreeTimesAccepts(day: int, second: int)
    requires 0 <= second < 86400 && 86400 * day + second < HorizonEnd()
    ensures 86400 * day + second in Accepts(ThreeTimes()) <==> second in {7500, 8400, 9600}
  {
    var t := 86400 * day + second;
    BeforeHorizon(t);
    SecondOfLabel(CivilOf(t), day, second);
    ThreeTimesTests(CivilOf(t));
  }

  /** The same, for the label t and a day it lies in. */
  lemma ThreeTimesOn(day: int, t: int)
    requires 86400 * day <= t < 86400 * (day + 1) && t < HorizonEnd()
    ensures t in Accepts(ThreeTimes()) <==> t - 86400 * day in {7500, 8400, 9600}
  {
    ThreeTimesAccepts(day, t - 86400 * day);
  }

  /** From 02:05 of a day to 02:05 of the next only 02:20 and 02:40 are accepted. */
  lemma ThreeTimesOnly(day: int, fires: iset<int>, t: int)
    requires 86400 * day + 7500 < t < 86400 * (day + 1) + 7500 < HorizonEnd()
    requires fires == Accepts(ThreeTimes())
    ensures t in fires <==> t == 86400 * day + 8400 || t == 86400 * day + 9600
  {
    ThreeTimesOn(if t < 86400 * (day + 1) then day else day + 1, t);
  }

  /** The half-hour gap that opens at 02:00 of a day. */
  function HalfHourGap(day: int): Zone {
    Zone([86400 * day + 7200], [0, 1800])
  }

  /** Where the labels of that day and the next resolve, and what the clock shows. */
  lemma HalfHourGapResolves(day: int)
    ensures var z, base := HalfHourGap(day), 86400 * day + 7200;
            && WellSeparated(z)
            && Resolve(z, base + 300) == base + 300 && Label(z, base + 300) == base + 2100
            && Resolve(z, base + 1200) == base + 1200
            && Resolve(z, base + 2400) == base + 600 && Label(z, base + 600) == base + 2400
            && Resolve(z, base + 86700) == base + 84900
            && (forall t :: t <= base + 300 ==> Resolve(z, t) <= base + 600)
  {
    var z, base := HalfHourGap(day), 86400 * day + 7200;
    assert JumpFits(z, 0) && WallAt(z, false, 0) == base + 1800;
    assert LabelSegment(z, false, base + 300) == 0 && LabelSegment(z, false, base + 1200) == 0;
    assert LabelSegment(z, false, base + 2400) == 1 && LabelSegment(z, false, base + 86700) == 1;
    assert Segment(z, base + 300) == 1 && Segment(z, base + 600) == 1;
  }

  /** From 5 minutes past base, the labels at 20 and 40 and then a day later. */
  ghost predicate DayOfThree(fires: iset<int>, base: int) {
    && base + 86700 in fires
    && forall t :: base + 300 < t < base + 86700 ==> (t in fires <==> t == base + 1200 || t == base + 2400)
  }

  lemma ThreeTimesDay(day: int)
    requires 86400 * (day + 1) + 7500 < HorizonEnd()
    ensures DayOfThree(Accepts(ThreeTimes()), 86400 * day + 7200)
  {
    var base := 86400 * day + 7200;
    ThreeTimesAccepts(day + 1, 7500);
    forall t | base + 300 < t < base + 86700
      ensures t in Accepts(ThreeTimes()) <==> t == base + 1200 || t == base + 2400
    {
      ThreeTimesOnly(day, Accepts(ThreeTimes()), t);
    }
  }

  /** Over a half-hour gap from base, the yield for the label at 5 is followed by the
      one for 40, whose label the zone leaves in place, and then by the next day's;
      but from the second yield next fires for the label at 20, before the third. */
  ghost predicate PartsAtTheSecond(z: Zone, fires: iset<int>, base: int)
    requires |z.off| == |z.at| + 1
  {
    var u := Resolve(z, base + 2400);
    && IsNextLabel(fires, Label(z, Resolve(z, base + 300)), base + 2400)
    && Label(z, u) == base + 2400 && IsNextLabel(fires, Label(z, u), base + 86700)
    && NextFiresAt(z, fires, u, Resolve(z, base + 1200)) && Resolve(z, base + 1200) < Resolve(z, base + 86700)
    && !ShadowMeets(z, fires, u, base + 86700)
  }

  lemma HalfHourParts(day: int, fires: iset<int>)
    requires DayOfThree(fires, 86400 * day + 7200)
    ensures PartsAtTheSecond(HalfHourGap(day), fires, 86400 * day + 7200)
  {
    var z, base := HalfHourGap(day), 86400 * day + 7200;
    HalfHourGapResolves(day);
    assert InGapShadow(z, base + 600) && Threshold(z, base + 600) == base + 600 && WallAt(z, false, 0) == base + 1800;
    assert LeastShadowed(z, fires, base + 600, base + 1200);
    NextPicks(z, fires, base + 600, base + 2400, base + 86700, base + 1200);
  }

  /** The disagreement is real, and a yield need not be moved for it: on every day
      before the horizon, the schedule at 02:05, 02:20 and 02:40 parts from iterated
      next at its second yield over a half-hour gap from 02:00. */
  lemma UnmovedYieldDisagrees(day: int)
    requires 86400 * (day + 1) + 7500 < HorizonEnd()
    ensures WellSeparated(HalfHourGap(day)) && ValidTab(ThreeTimes())
    ensures PartsAtTheSecond(HalfHourGap(day), Accepts(ThreeTimes()), 86400 * day + 7200)
  {
    ThreeTimesIsValid();
    HalfHourGapResolves(day);
    ThreeTimesDay(day);
    HalfHourParts(day, Accepts(ThreeTimes()));
  }

  lemma CoverageGrows(z: Zone, fires: iset<int>, seed: int, n: int, ys: seq<int>, ts: seq<int>, civil: int, target: int)
    requires WellSeparated(z) && |ys| == |ts| && civil < target
    requires forall s :: civil < s && s in fires ==> target <= s
    requires AllCovered(z, fires, seed, n, ys, ts, civil)
    ensures AllCovered(z, fires, seed, n, ys + [Resolve(z, target)], ts + [target], Label(z, Resolve(z, target)))
  {
    var ys', ts' := ys + [Resolve(z, target)], ts + [target];
    forall t | t in fires && Resolve(z, t) > n && seed < t <= Label(z, Resolve(z, target))
      ensures Covered(z, ys', ts', t)
    {
      if t > civil {
        assert ts'[|ts|] == target && ys'[|ts|] == Resolve(z, target);
      } else if t !in ts {
        var i :| 0 <= i < |ts| && ts[i] < t <= Label(z, ys[i]);
        assert ts'[i] < t <= Label(z, ys'[i]);
      }
    }
  }
}
