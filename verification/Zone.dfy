/** UTC-offset zones as Python's zoneinfo reads them: a list of transitions,
    the offset at a real instant, and the offset of a civil label under PEP 495
    (fold=0 takes the earlier offset both in a gap and in a fold). */
module Zone {

  /** Offset off[k] applies from instant at[k-1] up to instant at[k]. */
  datatype Zone = Zone(at: seq<int>, off: seq<int>)

  /** _GAP_PROBE, in seconds. */
  const PROBE := 93600

  /** The forward jump of transition k; negative when the clock falls back. */
  function Jump(z: Zone, k: int): int
    requires 0 <= k < |z.off| - 1
  {
    z.off[k + 1] - z.off[k]
  }

  predicate Apart(z: Zone, k: int)
    requires 0 < k < |z.at|
  {
    z.at[k] - z.at[k - 1] > PROBE
  }

  predicate JumpFits(z: Zone, k: int)
    requires 0 <= k < |z.off| - 1
  {
    -PROBE < Jump(z, k) < PROBE
  }

  /** The engine's assumption on zones: the probe is wider than every offset
      jump, and no two transitions fall inside one probe window. */
  ghost predicate WellSeparated(z: Zone) {
    && |z.off| == |z.at| + 1
    && (forall k :: 0 < k < |z.at| ==> Apart(z, k))
    && (forall k :: 0 <= k < |z.at| ==> JumpFits(z, k))
  }

  /** How many of the first n transitions have happened by instant u. */
  function CountAt(z: Zone, u: int, n: nat): (k: nat)
    requires n <= |z.at|
    ensures k <= n && (k > 0 ==> z.at[k - 1] <= u) && (k < n ==> u < z.at[k])
  {
    if n == 0 then 0 else if z.at[n - 1] <= u then n else CountAt(z, u, n - 1)
  }

  /** The wall-clock reading from which a label takes the offset after
      transition k: the later of its two readings for fold=0, the earlier for
      fold=1. */
  function WallAt(z: Zone, fold: bool, k: int): int
    requires 0 <= k < |z.at| < |z.off|
  {
    z.at[k] + (if (z.off[k] < z.off[k + 1]) == fold then z.off[k] else z.off[k + 1])
  }

  function CountWall(z: Zone, fold: bool, lab: int, n: nat): (k: nat)
    requires n <= |z.at| < |z.off|
    ensures k <= n && (k > 0 ==> WallAt(z, fold, k - 1) <= lab) && (k < n ==> lab < WallAt(z, fold, k))
  {
    if n == 0 then 0 else if WallAt(z, fold, n - 1) <= lab then n else CountWall(z, fold, lab, n - 1)
  }

  // ---------------------------------------------------------------------
  // Instants and labels
  // ---------------------------------------------------------------------

  function Segment(z: Zone, u: int): (k: nat)
    ensures k <= |z.at| && (k > 0 ==> z.at[k - 1] <= u) && (k < |z.at| ==> u < z.at[k])
  {
    CountAt(z, u, |z.at|)
  }

  function LabelSegment(z: Zone, fold: bool, lab: int): (j: nat)
    requires |z.off| == |z.at| + 1
    ensures j <= |z.at|
    ensures (j > 0 ==> WallAt(z, fold, j - 1) <= lab) && (j < |z.at| ==> lab < WallAt(z, fold, j))
  {
    CountWall(z, fold, lab, |z.at|)
  }

  /** The offset in force at the real instant u. */
  function OffsetAt(z: Zone, u: int): int
    requires |z.off| == |z.at| + 1
  {
    z.off[Segment(z, u)]
  }

  /** The wall clock at the real instant u: astimezone(tz), tzinfo dropped. */
  function Label(z: Zone, u: int): int
    requires |z.off| == |z.at| + 1
  {
    u + OffsetAt(z, u)
  }

  /** label.replace(tzinfo=tz, fold=fold).utcoffset(). */
  function LabelOffset(z: Zone, lab: int, fold: bool): int
    requires |z.off| == |z.at| + 1
  {
    z.off[LabelSegment(z, fold, lab)]
  }

  /** r(label): the real instant a label resolves to with fold=0. */
  function Resolve(z: Zone, lab: int): int
    requires |z.off| == |z.at| + 1
  {
    lab - LabelOffset(z, lab, false)
  }

  /** Shifted labels of the latest transition are still pending at u: u is less
      than its forward jump past it. */
  predicate InGapShadow(z: Zone, u: int)
    requires |z.off| == |z.at| + 1
  {
    var k := Segment(z, u);
    k > 0 && u < z.at[k - 1] + Jump(z, k - 1)
  }

  /** A label none of whose predecessors resolves after u. */
  function Threshold(z: Zone, u: int): int
    requires |z.off| == |z.at| + 1
  {
    if InGapShadow(z, u) then u + z.off[Segment(z, u) - 1] else Label(z, u)
  }

  // ---------------------------------------------------------------------
  // How resolution orders labels
  // ---------------------------------------------------------------------

  lemma {:induction false} TransitionsApart(z: Zone, i: int, j: int)
    requires WellSeparated(z) && 0 <= i < j < |z.at|
    ensures z.at[j] - z.at[i] > PROBE
    decreases j - i
  {
    assert Apart(z, j);
    if i < j - 1 {
      TransitionsApart(z, i, j - 1);
    }
  }

  /** Where a label in wall segment j resolves. */
  lemma ResolveBounds(z: Zone, lab: int)
    requires WellSeparated(z)
    ensures var j, u := LabelSegment(z, false, lab), Resolve(z, lab);
            && u == lab - z.off[j]
            && (j > 0 ==> z.at[j - 1] <= u)
            && (j < |z.at| ==> u < z.at[j] + PROBE && (z.at[j] <= u ==> u < z.at[j] + Jump(z, j)))
  {
    var j := LabelSegment(z, false, lab);
    if j < |z.at| {
      assert JumpFits(z, j);
    }
  }

  /** Exactly which labels resolve strictly after u. */
  lemma ResolvesAfter(z: Zone, lab: int, u: int)
    requires WellSeparated(z)
    ensures var j, k := LabelSegment(z, false, lab), Segment(z, u);
            Resolve(z, lab) > u <==>
            j > k || (j == k && lab > Label(z, u)) || (j == k - 1 && InGapShadow(z, u) && lab > Threshold(z, u))
  {
    var j, k := LabelSegment(z, false, lab), Segment(z, u);
    ResolveBounds(z, lab);
    if j > k + 1 {
      TransitionsApart(z, k, j - 1);
    } else if j + 1 < k {
      TransitionsApart(z, j, k - 1);
    }
  }

  lemma SegmentOrder(z: Zone, u: int, v: int)
    requires WellSeparated(z) && u <= v
    ensures Segment(z, u) <= Segment(z, v)
  {
    var i, j := Segment(z, u), Segment(z, v);
    if j + 1 < i {
      TransitionsApart(z, j, i - 1);
    }
  }

  /** Labels sort into wall segments in order. */
  lemma SegmentsOrdered(z: Zone, lab: int, k: int)
    requires WellSeparated(z) && 0 <= k < |z.at|
    ensures k < LabelSegment(z, false, lab) <==> WallAt(z, false, k) <= lab
  {
    var j := LabelSegment(z, false, lab);
    if k < j - 1 {
      WallsIncrease(z, k, j - 1);
    } else if j < k {
      WallsIncrease(z, j, k);
    }
  }

  lemma {:induction false} WallsIncrease(z: Zone, i: int, j: int)
    requires WellSeparated(z) && 0 <= i < j < |z.at|
    ensures WallAt(z, false, i) < WallAt(z, false, j)
    decreases j - i
  {
    assert Apart(z, j) && JumpFits(z, j - 1);
    if i < j - 1 {
      WallsIncrease(z, i, j - 1);
    }
  }

  /** Nothing at or below the threshold resolves after u. */
  lemma ThresholdIsSafe(z: Zone, u: int, lab: int)
    requires WellSeparated(z) && lab <= Threshold(z, u)
    ensures Resolve(z, lab) <= u
  {
    ResolvesAfter(z, lab, u);
    var k := Segment(z, u);
    if k < |z.at| {
      SegmentsOrdered(z, lab, k);
    }
    if InGapShadow(z, u) {
      SegmentsOrdered(z, lab, k - 1);
    }
  }

  /** A label the zone does not leave in place lies in a forward gap: its
      instant falls in the next segment, whose clock shows a later label. */
  lemma ShiftedLabel(z: Zone, lab: int)
    requires WellSeparated(z)
    ensures var j, u := LabelSegment(z, false, lab), Resolve(z, lab);
            var k := Segment(z, u);
            && (k == j || (k == j + 1 && InGapShadow(z, u) && lab == Threshold(z, u)))
            && LabelSegment(z, false, Label(z, u)) == k
            && lab <= Label(z, u)
  {
    var j, u := LabelSegment(z, false, lab), Resolve(z, lab);
    ResolveBounds(z, lab);
    var k := Segment(z, u);
    if k > j + 1 {
      TransitionsApart(z, j, k - 1);
    } else if k < j - 1 {
      TransitionsApart(z, k, j - 1);
    }
    if k < |z.at| {
      SegmentsOrdered(z, Label(z, u), k);
    }
    if k > 0 {
      SegmentsOrdered(z, Label(z, u), k - 1);
    }
  }

  /** Stepping the civil cursor over the shifted label of a past fire loses no
      label that still resolves in the future. */
  lemma AdvanceIsSafe(z: Zone, u: int, lab: int, later: int)
    requires WellSeparated(z) && Resolve(z, lab) <= u
    requires InGapShadow(z, u) ==> Threshold(z, u) < lab
    requires lab < later <= Label(z, Resolve(z, lab))
    ensures Resolve(z, later) <= u
  {
    var v := Resolve(z, lab);
    ShiftedLabel(z, lab);
    ResolvesAfter(z, lab, u);
    ResolvesAfter(z, later, u);
    var k, s := Segment(z, u), Segment(z, v);
    if s < |z.at| {
      SegmentsOrdered(z, later, s);
      SegmentsOrdered(z, Label(z, v), s);
    }
    if k < s {
      SegmentOrder(z, v, u);
    }
  }

  /** Labels after the one shown at a resolved instant resolve later still. */
  lemma LaterLabelsResolveLater(z: Zone, lab: int, later: int)
    requires WellSeparated(z) && Label(z, Resolve(z, lab)) < later
    ensures Resolve(z, lab) < Resolve(z, later)
  {
    var u := Resolve(z, lab);
    ShiftedLabel(z, lab);
    ResolvesAfter(z, later, u);
    var k := Segment(z, u);
    if k > 0 {
      SegmentsOrdered(z, later, k - 1);
      SegmentsOrdered(z, Label(z, u), k - 1);
    }
  }
}
