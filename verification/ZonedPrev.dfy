/** prev for an aware datetime (cronstable/cronexpr.py): the walk back over
    anchors, the replay of occurrences from each, and what the answer is worth. */
module ZonedPrev {
  import opened Wrappers
  import opened Calendar
  import opened CronTab
  import opened CivilSearch
  import opened Zone
  import opened ZonedSearch

  // ---------------------------------------------------------------------
  // The backward search on labels
  // ---------------------------------------------------------------------

  /** The accepted labels prev may anchor on: from the floor to the horizon. */
  ghost function Anchors(tab: CronTab): iset<int> {
    iset t | Matches(tab, t) && CivilOf(t).year >= YEAR_FLOOR
  }

  lemma AboveFloor(c: Civil)
    requires ValidCivil(c) && c.year >= YEAR_FLOOR
    ensures Seconds(c) >= 0
  {
    YearsMonotone(1, c.year);
    DayOfYearBound(c.year, c.month, c.day);
  }

  /** The first whole second not strictly before t and its microseconds. */
  function Cut(t: int, micro: nat): int {
    if micro > 0 then t + 1 else t
  }

  lemma BeforeIsBelowCut(c: Civil, t: int, micro: nat)
    requires ValidCivil(c)
    ensures Before(c, CivilOf(t), micro) <==> Seconds(c) < Cut(t, micro)
  {
    SecondsOrder(CivilOf(t), c);
    SecondsOrder(c, CivilOf(t));
  }

  /** An accepted label below a cut inside the horizon is behind it. */
  lemma AnchorIsBehind(tab: CronTab, t: int, micro: nat, s: int)
    requires Cut(t, micro) <= HorizonEnd()
    ensures s in Anchors(tab) && s < Cut(t, micro) <==> Behind(tab, CivilOf(t), micro, CivilOf(s))
  {
    BeforeIsBelowCut(CivilOf(s), t, micro);
    if s < Cut(t, micro) {
      BeforeHorizon(s);
    }
  }

  /** r is the greatest anchor below cut, or there is none. */
  ghost predicate IsPrevLabel(anchors: iset<int>, cut: int, r: Option<int>) {
    && (r.Some? ==> 0 <= r.value < cut && r.value in anchors)
    && (forall s :: s in anchors && s < cut ==> r.Some? && s <= r.value)
  }

  /** _prev_civil read on whole-second labels. */
  method PrevLabel(tab: CronTab, t: int, micro: nat) returns (r: Option<int>)
    requires ValidTab(tab) && Cut(t, micro) <= HorizonEnd()
    ensures IsPrevLabel(Anchors(tab), Cut(t, micro), r)
  {
    var c := PrevCivil(tab, CivilOf(t), micro);
    forall s | s in Anchors(tab) && s < Cut(t, micro) ensures c.Some? && s <= Seconds(c.value) {
      AnchorIsBehind(tab, t, micro, s);
      if c.Some? {
        SecondsOrder(c.value, CivilOf(s));
      }
    }
    if c.None? {
      return None;
    }
    CivilOfSeconds(c.value);
    AnchorIsBehind(tab, t, micro, Seconds(c.value));
    AboveFloor(c.value);
    return Some(Seconds(c.value));
  }

  // ---------------------------------------------------------------------
  // The replay from one anchor
  // ---------------------------------------------------------------------

  /** s is passed over for good: an accepted label below it is moved by a gap to or
      past it, so occurrences never yields both. */
  ghost predicate SteppedOver(z: Zone, fires: iset<int>, s: int)
    requires |z.off| == |z.at| + 1
  {
    exists t :: t in fires && t < s <= Label(z, Resolve(z, t))
  }

  /** u is the instant of an accepted label below the cut, and every accepted label
      above the seed that resolves between the two is passed over. */
  ghost predicate IsLastFrom(z: Zone, fires: iset<int>, seed: int, u: int, cut: int)
    requires |z.off| == |z.at| + 1
  {
    && u < cut && (exists t :: t in fires && Resolve(z, t) == u)
    && forall s :: s in fires && s > seed && u < Resolve(z, s) < cut ==> SteppedOver(z, fires, s)
  }

  predicate AllBelow(ys: seq<int>, cut: int) {
    forall i :: 0 <= i < |ys| ==> ys[i] < cut
  }

  function LastOf(ys: seq<int>): Option<int> {
    if ys == [] then None else Some(ys[|ys| - 1])
  }

  lemma CoveredIsStepped(z: Zone, fires: iset<int>, n: int, ys: seq<int>, ts: seq<int>, s: int)
    requires |z.off| == |z.at| + 1 && Yields(z, fires, n, ys, ts) && Covered(z, ys, ts, s)
    requires forall i :: 0 <= i < |ys| ==> ys[i] != Resolve(z, s)
    ensures SteppedOver(z, fires, s)
  {
  }

  /** A label that no yield resolves to, below what the generator has passed. */
  lemma UnyieldedIsStepped(z: Zone, fires: iset<int>, seed: int, n: int, ys: seq<int>, ts: seq<int>, civil: int, s: int)
    requires WellSeparated(z) && CursorInv(z, fires, seed, n, ys, ts, civil) && ys != []
    requires s in fires && s > seed && n < Resolve(z, s) && (NoLaterLabel(fires, civil) || Resolve(z, s) < ys[|ys| - 1])
    requires forall i :: 0 <= i < |ys| ==> ys[i] != Resolve(z, s)
    ensures SteppedOver(z, fires, s)
  {
    if s > civil {
      LaterLabelsResolveLater(z, ts[|ts| - 1], s);
    } else {
      CoveredIsStepped(z, fires, n, ys, ts, s);
    }
  }

  /** What the replay from a seed is worth: it finds something exactly when the first
      label above the seed still to come resolves below the cut. */
  ghost predicate GivesFrom(z: Zone, fires: iset<int>, seed: int, n: int, cut: int, last: Option<int>)
    requires |z.off| == |z.at| + 1
  {
    && (last.Some? <==> exists t :: IsFirstFire(z, fires, seed, n, t) && Resolve(z, t) < cut)
    && (last.Some? ==> n < last.value && IsLastFrom(z, fires, seed, last.value, cut))
  }

  lemma FirstFireIsOne(z: Zone, fires: iset<int>, seed: int, n: int, t: int, t': int)
    requires |z.off| == |z.at| + 1 && IsFirstFire(z, fires, seed, n, t) && IsFirstFire(z, fires, seed, n, t')
    ensures t == t'
  {
  }

  /** The generator ended with every yield below the cut. */
  lemma ReplayEnds(z: Zone, fires: iset<int>, seed: int, n: int, cut: int, ys: seq<int>, ts: seq<int>, civil: int)
    requires WellSeparated(z) && CursorInv(z, fires, seed, n, ys, ts, civil) && AllBelow(ys, cut) && NoLaterLabel(fires, civil)
    ensures GivesFrom(z, fires, seed, n, cut, LastOf(ys))
  {
    if ys != [] {
      var u := ys[|ys| - 1];
      assert Resolve(z, ts[0]) == ys[0] && Resolve(z, ts[|ts| - 1]) == u;
      forall s | s in fires && s > seed && u < Resolve(z, s) < cut ensures SteppedOver(z, fires, s) {
        UnyieldedIsStepped(z, fires, seed, n, ys, ts, civil, s);
      }
    }
  }

  /** The generator yielded y at or past the cut, after yields below it. */
  lemma ReplayStops(z: Zone, fires: iset<int>, seed: int, n: int, cut: int, ys: seq<int>, y: int, ts: seq<int>, civil: int)
    requires WellSeparated(z) && CursorInv(z, fires, seed, n, ys + [y], ts, civil) && AllBelow(ys, cut) && cut <= y
    ensures GivesFrom(z, fires, seed, n, cut, LastOf(ys))
  {
    var all := ys + [y];
    assert all[0] == Resolve(z, ts[0]);
    if ys == [] {
      forall t | IsFirstFire(z, fires, seed, n, t) ensures Resolve(z, t) >= cut {
        FirstFireIsOne(z, fires, seed, n, t, ts[0]);
      }
    } else {
      var last := |ys| - 1;
      assert all[last] == ys[last] && Resolve(z, ts[last]) == ys[last];
      forall s | s in fires && s > seed && ys[last] < Resolve(z, s) < cut ensures SteppedOver(z, fires, s) {
        UnyieldedIsStepped(z, fires, seed, n, all, ts, civil, s);
      }
    }
  }

  /** occurrences from a seed, consumed up to the first instant not below the cut. */
  method Replay(z: Zone, tab: CronTab, seed: int, n: int, cut: int) returns (last: Option<int>)
    requires WellSeparated(z) && ValidTab(tab) && Fits(z, seed, n)
    ensures GivesFrom(z, Accepts(tab), seed, n, cut, last)
  {
    ghost var fires, ys, ts := Accepts(tab), [], [];
    var civil := seed;
    last := None;
    CursorStart(z, fires, seed, n);
    while true
      invariant CursorInv(z, fires, seed, n, ys, ts, civil) && AllBelow(ys, cut) && last == LastOf(ys)
      decreases HorizonEnd() - civil
    {
      var pass;
      ghost var target;
      pass, civil, target := PassOnce(z, tab, seed, n, civil, ys, ts);
      if pass.Ended? {
        ReplayEnds(z, fires, seed, n, cut, ys, ts, civil);
        return;
      }
      if pass.Yielded? {
        if pass.at >= cut {
          ReplayStops(z, fires, seed, n, cut, ys, pass.at, ts + [target], civil);
          return;
        }
        last, ys, ts := Some(pass.at), ys + [pass.at], ts + [target];
      }
    }
  }

  // ---------------------------------------------------------------------
  // What the replay from the second before an anchor finds
  // ---------------------------------------------------------------------

  /** The instant occurrences yields first from `start` is below the cut. */
  ghost predicate YieldsBelow(z: Zone, fires: iset<int>, start: int, cut: int)
    requires |z.off| == |z.at| + 1
  {
    exists t :: IsNextFire(z, fires, Instant(z, start, false), t) && Resolve(z, t) < cut
  }

  /** Every accepted label that resolves strictly between u and the cut is passed
      over by one a gap moved. */
  ghost predicate IsLastBefore(z: Zone, fires: iset<int>, u: int, cut: int)
    requires |z.off| == |z.at| + 1
  {
    forall s :: s in fires && u < Resolve(z, s) < cut ==> SteppedOver(z, fires, s)
  }

  /** u is the instant of an accepted label below the cut, and the last one but for
      labels passed over. */
  ghost predicate IsAnswer(z: Zone, fires: iset<int>, u: int, cut: int)
    requires |z.off| == |z.at| + 1
  {
    u < cut && IsLastBefore(z, fires, u, cut) && exists t :: t in fires && Resolve(z, t) == u
  }

  /** A start with fold=0 is trusted, so nothing below its seed matters. */
  lemma GivesOverall(z: Zone, fires: iset<int>, start: int, cut: int, last: Option<int>)
    requires WellSeparated(z)
    requires GivesFrom(z, fires, RewoundSeed(z, start, false), Instant(z, start, false), cut, last)
    ensures last.Some? <==> YieldsBelow(z, fires, start, cut)
    ensures last.Some? ==> IsAnswer(z, fires, last.value, cut)
  {
    assert SeedTrusted(z, start, false);
    SeedLosesNothing(z, start, false);
    forall t ensures IsFirstFire(z, fires, RewoundSeed(z, start, false), Instant(z, start, false), t) <==>
                     IsNextFire(z, fires, Instant(z, start, false), t)
    {
      TrustedSearch(z, fires, start, false, t);
    }
  }

  // ---------------------------------------------------------------------
  // prev
  // ---------------------------------------------------------------------

  /** An anchor answers when the zone leaves its label in place and the replay from
      the second before it yields something below the cut. */
  ghost predicate Answers(z: Zone, fires: iset<int>, a: int, cut: int)
    requires |z.off| == |z.at| + 1
  {
    Label(z, Resolve(z, a)) == a && YieldsBelow(z, fires, a - 1, cut)
  }

  /** The civil label the walk starts below: a now past the horizon is clamped. */
  function WalkFrom(lab: int, micro: nat): (from: (int, nat))
    ensures Cut(from.0, from.1) <= HorizonEnd()
  {
    if lab >= HorizonEnd() then (HorizonEnd(), 0) else (lab, micro)
  }

  /** `delay` microseconds before n and `micro` is the fire of the accepted label t. */
  ghost predicate SinceFire(z: Zone, fires: iset<int>, n: int, micro: nat, delay: int, t: int)
    requires |z.off| == |z.at| + 1
  {
    t in fires && Resolve(z, t) < Cut(n, micro) && delay == 1_000_000 * (n - Resolve(z, t)) + micro
  }

  /** One pass of the anchor loop. */
  method TryAnchor(z: Zone, tab: CronTab, a: int, cut: int) returns (last: Option<int>)
    requires WellSeparated(z) && ValidTab(tab)
    ensures last.Some? ==> IsAnswer(z, Accepts(tab), last.value, cut)
    ensures last.Some? <==> Answers(z, Accepts(tab), a, cut)
  {
    if Label(z, Resolve(z, a)) != a {
      return None;
    }
    SeedFits(z, a - 1, false);
    last := Replay(z, tab, RewoundSeed(z, a - 1, false), Instant(z, a - 1, false), cut);
    GivesOverall(z, Accepts(tab), a - 1, cut, last);
  }

  /** No anchor from `above` up, below the walk's start, answers. */
  ghost predicate NoneAnswers(z: Zone, fires: iset<int>, anchors: iset<int>, above: int, start: int, cut: int)
    requires |z.off| == |z.at| + 1
  {
    forall a :: a in anchors && above <= a < start ==> !Answers(z, fires, a, cut)
  }

  /** Where the walk stands: on an anchor, or past the last one. */
  function Floor(anchor: Option<int>): int {
    if anchor.Some? then anchor.value + 1 else 0
  }

  lemma StepBack(z: Zone, fires: iset<int>, anchors: iset<int>, a: int, start: int, cut: int, next: Option<int>)
    requires |z.off| == |z.at| + 1 && NoneAnswers(z, fires, anchors, a + 1, start, cut) && !Answers(z, fires, a, cut)
    requires IsPrevLabel(anchors, a, next)
    ensures NoneAnswers(z, fires, anchors, Floor(next), start, cut)
  {
  }

  lemma WalkStarts(z: Zone, fires: iset<int>, anchors: iset<int>, start: int, cut: int, first: Option<int>)
    requires |z.off| == |z.at| + 1 && IsPrevLabel(anchors, start, first)
    ensures NoneAnswers(z, fires, anchors, Floor(first), start, cut)
  {
  }

  /** The walk back over the anchors below `from` and its microseconds. */
  method WalkBack(z: Zone, tab: CronTab, from: int, micro: nat, cut: int) returns (last: Option<int>)
    requires WellSeparated(z) && ValidTab(tab) && Cut(from, micro) <= HorizonEnd()
    ensures last.Some? ==> IsAnswer(z, Accepts(tab), last.value, cut)
    ensures last.None? <==> NoneAnswers(z, Accepts(tab), Anchors(tab), 0, Cut(from, micro), cut)
  {
    ghost var fires, anchors, start := Accepts(tab), Anchors(tab), Cut(from, micro);
    var anchor := PrevLabel(tab, from, micro);
    WalkStarts(z, fires, anchors, start, cut, anchor);
    while anchor.Some?
      invariant anchor.Some? ==> 0 <= anchor.value < start && anchor.value in anchors
      invariant NoneAnswers(z, fires, anchors, Floor(anchor), start, cut)
      decreases Floor(anchor)
    {
      var a := anchor.value;
      last := TryAnchor(z, tab, a, cut);
      if last.Some? {
        return;
      }
      anchor := PrevLabel(tab, a, 0);
      StepBack(z, fires, anchors, a, start, cut, anchor);
    }
    return None;
  }

  /** prev for an aware now: the microseconds since an accepted label's instant
      strictly before now, after which nothing resolves before now but labels a
      gap-moved fire passes over; None exactly when no anchor answers. */
  method Prev(z: Zone, tab: CronTab, lab: int, fold: bool, micro: nat) returns (delay: Option<int>)
    requires WellSeparated(z) && ValidTab(tab) && micro < 1_000_000
    ensures delay.Some? ==> delay.value > 0
    ensures delay.Some? ==>
      exists t :: SinceFire(z, Accepts(tab), Instant(z, lab, fold), micro, delay.value, t) &&
        IsLastBefore(z, Accepts(tab), Resolve(z, t), Cut(Instant(z, lab, fold), micro))
    ensures var from := WalkFrom(lab, micro);
      delay.None? <==>
      NoneAnswers(z, Accepts(tab), Anchors(tab), 0, Cut(from.0, from.1), Cut(Instant(z, lab, fold), micro))
  {
    var n, from := Instant(z, lab, fold), WalkFrom(lab, micro);
    var last := WalkBack(z, tab, from.0, from.1, Cut(n, micro));
    if last.None? {
      return None;
    }
    delay := Some(1_000_000 * (n - last.value) + micro);
    ghost var t :| t in Accepts(tab) && Resolve(z, t) == last.value;
    assert SinceFire(z, Accepts(tab), n, micro, delay.value, t);
  }

  // ---------------------------------------------------------------------
  // A fire prev never reports
  // ---------------------------------------------------------------------

  /** A schedule with a single label a is answered exactly when the zone leaves a in
      place, its instant is below the cut, and the label before it resolves earlier. */
  lemma OneLabelAnswersIff(z: Zone, a: int, cut: int)
    requires WellSeparated(z)
    ensures Answers(z, iset{a}, a, cut) <==>
            Label(z, Resolve(z, a)) == a && Resolve(z, a) < cut && Resolve(z, a - 1) < Resolve(z, a)
  {
    assert Instant(z, a - 1, false) == Resolve(z, a - 1);
    if Resolve(z, a - 1) < Resolve(z, a) {
      assert IsNextFire(z, iset{a}, Resolve(z, a - 1), a);
    }
  }

  /** The label a forward gap ends on is in place, but the one before it is not and
      resolves no earlier. */
  lemma GapEnd(z: Zone, k: int)
    requires WellSeparated(z) && 0 <= k < |z.at| && Jump(z, k) > 0
    ensures var a := WallAt(z, false, k);
            Resolve(z, a) == z.at[k] && Label(z, z.at[k]) == a && Resolve(z, a - 1) >= Resolve(z, a)
  {
    var a := WallAt(z, false, k);
    LabelAtWall(z, k);
    if k + 1 < |z.at| {
      assert Apart(z, k + 1);
    }
    if Segment(z, z.at[k]) > k + 1 {
      TransitionsApart(z, k, Segment(z, z.at[k]) - 1);
    } else if Segment(z, z.at[k]) < k {
      TransitionsApart(z, Segment(z, z.at[k]), k);
    }
  }

  /** At its wall reading a label takes the offset after the transition, and just
      below it the one before. */
  lemma LabelAtWall(z: Zone, k: int)
    requires WellSeparated(z) && 0 <= k < |z.at| && Jump(z, k) > 0
    ensures LabelSegment(z, false, WallAt(z, false, k)) == k + 1 && LabelSegment(z, false, WallAt(z, false, k) - 1) == k
  {
    var a := WallAt(z, false, k);
    SegmentsOrdered(z, a, k);
    SegmentsOrdered(z, a - 1, k);
    if k + 1 < |z.at| {
      WallsIncrease(z, k, k + 1);
      SegmentsOrdered(z, a, k + 1);
    }
    if k > 0 {
      WallsIncrease(z, k - 1, k);
      SegmentsOrdered(z, a - 1, k - 1);
    }
  }

  lemma GapEndNeverAnswers(z: Zone, k: int, start: int, cut: int)
    requires WellSeparated(z) && 0 <= k < |z.at| && Jump(z, k) > 0
    ensures var a := WallAt(z, false, k);
            Resolve(z, a) == z.at[k] && NoneAnswers(z, iset{a}, iset{a}, 0, start, cut)
  {
    GapEnd(z, k);
    OneLabelAnswersIff(z, WallAt(z, false, k), cut);
  }

  lemma OneShotAnchors(c: Civil)
    requires ValidCivil(c) && YEAR_FLOOR <= c.year <= YEAR_HORIZON
    ensures Anchors(OneShot(c)) == iset{Seconds(c)}
  {
    CivilOfSeconds(c);
    forall t ensures Test(OneShot(c), CivilOf(t)) <==> t == Seconds(c) {
      OneShotTests(c, CivilOf(t));
    }
  }

  /** A one-shot schedule on the label a gap ends on fires at the transition, yet prev
      returns None for every later now: no cut makes its only anchor answer. */
  lemma PrevForgetsGapEnd(z: Zone, k: int, c: Civil, start: int, cut: int)
    requires WellSeparated(z) && 0 <= k < |z.at| && Jump(z, k) > 0
    requires ValidCivil(c) && YEAR_FLOOR <= c.year <= YEAR_HORIZON && Seconds(c) == WallAt(z, false, k)
    ensures ValidTab(OneShot(c)) && Seconds(c) in Accepts(OneShot(c)) && Resolve(z, Seconds(c)) == z.at[k]
    ensures NoneAnswers(z, Accepts(OneShot(c)), Anchors(OneShot(c)), 0, start, cut)
  {
    OneShotIsValid(c);
    OneShotAccepts(c);
    OneShotAnchors(c);
    GapEndNeverAnswers(z, k, start, cut);
  }
}
