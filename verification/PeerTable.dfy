/** One node's peer table (cronstable/cluster.py): the rules by which a poll's
    outcome updates an entry, and the sizes and live sets read off the table. */
module PeerTable {
  import opened Wrappers

  datatype Status = Unknown | Self | Agreed | Syncing | Drifted | Unreachable | Untrusted | Conflict

  /** One row of a /peer response's `members`: whom the responder observed. */
  datatype Member = Member(name: string, instance: Option<string>, agreed: bool)

  /** The election-relevant fields of a PeerState. */
  datatype Peer = Peer(
    status: Status, jobSetId: Option<string>, name: Option<string>, instance: Option<string>,
    selfConfirmed: bool, streak: nat,
    members: Option<seq<Member>>, reportsMembers: bool,
    size: Option<int>, distribution: Option<string>, elect: Option<bool>,
    ran: Option<set<string>>, mutual: Option<set<string>>, vouched: Option<set<string>>)

  /** A validated /peer body, as _observe_peer hands it to record_success. */
  datatype Observation = Observation(
    name: Option<string>, jobSetId: Option<string>, scheme: Option<string>, instance: Option<string>,
    members: Option<seq<Member>>, reportsMembers: bool,
    size: Option<int>, distribution: Option<string>, elect: Option<bool>,
    ran: Option<set<string>>, mutual: Option<set<string>>, vouched: Option<set<string>>)

  /** The observing node. */
  datatype Identity = Identity(name: string, instance: string, distribution: string, elect: bool)

  const SCHEME := "v1"

  const FRESH := Peer(Unknown, None, None, None, false, 0, None, true, None, None, None, None, None, None)

  // ---------------------------------------------------------------------
  // record_success / record_failure
  // ---------------------------------------------------------------------

  /** The fields every successful poll overwrites, self-ness cleared. */
  function Absorb(p: Peer, o: Observation): Peer {
    p.(jobSetId := o.jobSetId, name := o.name, instance := o.instance, members := o.members,
       reportsMembers := o.reportsMembers, ran := o.ran, size := o.size, mutual := o.mutual,
       vouched := o.vouched, distribution := o.distribution, elect := o.elect, selfConfirmed := false)
  }

  function AfterSuccess(p: Peer, o: Observation, myId: string, me: Identity, driftAfter: int): Peer {
    var q := Absorb(p, o);
    if o.name == Some(me.name) then
      if o.instance.Some? && o.instance.value != me.instance then q.(status := Conflict)
      else q.(status := Self, selfConfirmed := true, streak := 0)
    else if o.scheme.Some? && o.scheme.value != SCHEME then q.(status := Drifted)
    else if o.jobSetId == Some(myId) then q.(status := Agreed, streak := 0)
    else q.(streak := p.streak + 1, status := if p.streak + 1 >= driftAfter then Drifted else Syncing)
  }

  function AfterFailure(p: Peer, untrusted: bool): Peer {
    p.(status := if p.selfConfirmed then Self else if untrusted then Untrusted else Unreachable,
       members := None, ran := None, mutual := None, vouched := None, reportsMembers := false)
  }

  // ---------------------------------------------------------------------
  // An entry over its whole history
  // ---------------------------------------------------------------------

  /** One poll of a host; our own job-set id may change between polls. */
  datatype Event = Success(o: Observation, myId: string) | Failure(untrusted: bool)

  datatype Kind = Match | Myself | Twin | Foreign | Mismatch | Failed

  /** What an outcome says, independent of the entry it lands on. */
  function KindOf(e: Event, me: Identity): Kind {
    match e
    case Failure(_) => Failed
    case Success(o, myId) =>
      if o.name == Some(me.name) then
        (if o.instance == None || o.instance == Some(me.instance) then Myself else Twin)
      else if o.scheme != None && o.scheme != Some(SCHEME) then Foreign
      else if o.jobSetId == Some(myId) then Match else Mismatch
  }

  function Step(p: Peer, e: Event, me: Identity, driftAfter: int): Peer {
    match e
    case Success(o, myId) => AfterSuccess(p, o, myId, me, driftAfter)
    case Failure(untrusted) => AfterFailure(p, untrusted)
  }

  /** What an outcome does to an entry, read off its kind. */
  lemma StepByKind(p: Peer, e: Event, me: Identity, driftAfter: int)
    ensures var q, kind := Step(p, e, me, driftAfter), KindOf(e, me);
            && q.streak == (if Resets(e, me) then 0 else if kind == Mismatch then p.streak + 1 else p.streak)
            && q.selfConfirmed == (if kind == Failed then p.selfConfirmed else kind == Myself)
            && (e.Success? <==> kind != Failed)
            && match kind {
              case Match => q.status == Agreed
              case Myself => q.status == Self
              case Twin => q.status == Conflict
              case Foreign => q.status == Drifted
              case Mismatch => q.status == if q.streak < driftAfter then Syncing else Drifted
              case Failed => (q.status == Self <==> p.selfConfirmed) && q.status in {Self, Unreachable, Untrusted}
            }
  {
  }

  function Run(es: seq<Event>, me: Identity, driftAfter: int): Peer {
    if es == [] then FRESH else Step(Run(es[..|es| - 1], me, driftAfter), es[|es| - 1], me, driftAfter)
  }

  predicate Resets(e: Event, me: Identity) {
    KindOf(e, me) == Match || KindOf(e, me) == Myself
  }

  /** Since position k, and not after it, no outcome confirmed agreement or self. */
  ghost predicate LastResetAt(es: seq<Event>, me: Identity, k: nat) {
    k <= |es| && (k > 0 ==> Resets(es[k - 1], me)) && forall i :: k <= i < |es| ==> !Resets(es[i], me)
  }

  function CountKind(es: seq<Event>, me: Identity, kind: Kind): nat {
    if es == [] then 0
    else CountKind(es[..|es| - 1], me, kind) + (if KindOf(es[|es| - 1], me) == kind then 1 else 0)
  }

  /** The drift streak counts the id mismatches since the last confirmed
      agreement or self observation; failures neither add to it nor clear it. */
  lemma {:induction false} StreakCountsMismatches(es: seq<Event>, me: Identity, driftAfter: int, k: nat)
    requires LastResetAt(es, me, k)
    ensures Run(es, me, driftAfter).streak == CountKind(es[k..], me, Mismatch)
    decreases |es|
  {
    if es != [] {
      var init := es[..|es| - 1];
      StepByKind(Run(init, me, driftAfter), es[|es| - 1], me, driftAfter);
      if k < |es| {
        StreakCountsMismatches(init, me, driftAfter, k);
        assert !Resets(es[|es| - 1], me);
        assert es[k..][..|es| - k - 1] == init[k..];
      }
    }
  }

  /** The kind of the latest successful poll, if any. */
  function LastSuccess(es: seq<Event>, me: Identity): Option<Kind> {
    if es == [] then None
    else if es[|es| - 1].Success? then Some(KindOf(es[|es| - 1], me))
    else LastSuccess(es[..|es| - 1], me)
  }

  /** The self latch holds exactly while the latest success identified us. */
  lemma {:induction false} SelfLatch(es: seq<Event>, me: Identity, driftAfter: int)
    ensures Run(es, me, driftAfter).selfConfirmed <==> LastSuccess(es, me) == Some(Myself)
    decreases |es|
  {
    if es != [] {
      var init := es[..|es| - 1];
      SelfLatch(init, me, driftAfter);
      StepByKind(Run(init, me, driftAfter), es[|es| - 1], me, driftAfter);
    }
  }

  /** Every status, read off the history alone. */
  lemma StatusMeaning(es: seq<Event>, me: Identity, driftAfter: int)
    ensures var p := Run(es, me, driftAfter);
            && (p.status == Unknown <==> es == [])
            && (es != [] ==> var last := KindOf(es[|es| - 1], me);
              && (p.status == Agreed <==> last == Match)
              && (p.status == Self <==> LastSuccess(es, me) == Some(Myself))
              && (p.status == Conflict <==> last == Twin)
              && (p.status == Syncing <==> last == Mismatch && p.streak < driftAfter)
              && (p.status == Drifted <==> last == Foreign || (last == Mismatch && p.streak >= driftAfter))
              && (p.status in {Unreachable, Untrusted} <==> last == Failed && LastSuccess(es, me) != Some(Myself)))
  {
    if es != [] {
      var init := es[..|es| - 1];
      SelfLatch(init, me, driftAfter);
      StepByKind(Run(init, me, driftAfter), es[|es| - 1], me, driftAfter);
    }
  }

  // ---------------------------------------------------------------------
  // Cluster size and the mutually agreeing peers
  // ---------------------------------------------------------------------

  function SelfListings(table: seq<Peer>): nat {
    if table == [] then 0
    else SelfListings(table[..|table| - 1]) + (if table[|table| - 1].status == Self then 1 else 0)
  }

  /** Entries that are not this node and have never told their instance. */
  function Unidentified(table: seq<Peer>): nat {
    if table == [] then 0
    else
      var p := table[|table| - 1];
      Unidentified(table[..|table| - 1]) + (if p.status != Self && p.instance == None then 1 else 0)
  }

  /** The process an entry is known to stand for, if it is not this one. */
  function ProcessOf(p: Peer): set<string> {
    if p.status != Self && p.instance.Some? then {p.instance.value} else {}
  }

  /** The distinct processes known behind the other entries. */
  function Instances(table: seq<Peer>): set<string> {
    if table == [] then {} else Instances(table[..|table| - 1]) + ProcessOf(table[|table| - 1])
  }

  lemma {:induction false} InstancesHold(table: seq<Peer>, x: string)
    ensures x in Instances(table) <==> exists p :: p in table && x in ProcessOf(p)
    decreases |table|
  {
    if table != [] {
      var init, p := table[..|table| - 1], table[|table| - 1];
      InstancesHold(init, x);
      assert forall q :: q in table <==> q in init || q == p;
    }
  }

  /** Members of the cluster as the table knows them: this node, each process
      once however many addresses it answers at, and each unidentified entry. */
  function SizeOf(table: seq<Peer>): nat {
    1 + Unidentified(table) + |Instances(table)|
  }

  lemma InstancesStep(table: seq<Peer>, p: Peer)
    ensures Instances(table + [p]) == Instances(table) + ProcessOf(p)
  {
    assert (table + [p])[..|table|] == table;
  }

  /** How many entries are further addresses of a process seen before them. */
  function Duplicates(table: seq<Peer>): nat {
    if table == [] then 0 else
      var init, p := table[..|table| - 1], table[|table| - 1];
      Duplicates(init) + (if ProcessOf(p) != {} && ProcessOf(p) <= Instances(init) then 1 else 0)
  }

  /** Every entry is a self-listing, unidentified, a new process or a duplicate. */
  lemma {:induction false} Accounting(table: seq<Peer>)
    ensures |table| == SelfListings(table) + Unidentified(table) + |Instances(table)| + Duplicates(table)
    decreases |table|
  {
    if table != [] {
      var init, p := table[..|table| - 1], table[|table| - 1];
      Accounting(init);
      if ProcessOf(p) != {} && ProcessOf(p) <= Instances(init) {
        assert Instances(init) + ProcessOf(p) == Instances(init);
      } else if ProcessOf(p) == {} {
        assert Instances(init) + ProcessOf(p) == Instances(init);
      }
    }
  }

  method CountSelfListings(table: seq<Peer>) returns (n: nat)
    ensures n == SelfListings(table)
  {
    n := 0;
    for i := 0 to |table|
      invariant n == SelfListings(table[..i])
    {
      assert table[..i + 1][..i] == table[..i];
      if table[i].status == Self {
        n := n + 1;
      }
    }
    assert table[..|table|] == table;
  }

  method CountDuplicates(table: seq<Peer>) returns (n: nat)
    ensures n == Duplicates(table)
  {
    n := 0;
    var seen := {};
    for i := 0 to |table|
      invariant seen == Instances(table[..i]) && n == Duplicates(table[..i])
    {
      var p := table[i];
      assert table[..i + 1][..i] == table[..i];
      if p.status == Self || p.instance == None {
        continue;
      }
      if p.instance.value in seen {
        n := n + 1;
      } else {
        seen := seen + {p.instance.value};
      }
    }
    assert table[..|table|] == table;
  }

  /** cluster_size: the configured peers plus this node, minus self-listings and
      duplicate addresses. Config keeps one entry per host. */
  method ClusterSize(configured: nat, table: seq<Peer>) returns (n: int)
    requires configured == |table|
    ensures n == SizeOf(table)
  {
    var selfListed := CountSelfListings(table);
    var duplicates := CountDuplicates(table);
    Accounting(table);
    return configured + 1 - selfListed - duplicates;
  }

  /** _peer_sees_me_agreed. */
  predicate SeesMeAgreed(members: Option<seq<Member>>, instance: string) {
    members.Some? && exists m :: m in members.value && m.agreed && m.instance == Some(instance)
  }

  /** The gates a peer passes to be counted: agreed both ways, and no declared
      size or policy that differs from ours. */
  predicate Counts(p: Peer, me: Identity, mySize: int) {
    && p.status == Agreed && p.name.Some?
    && (SeesMeAgreed(p.members, me.instance) || !p.reportsMembers)
    && (p.size.Some? ==> p.size.value == mySize)
    && (p.distribution.Some? ==> p.distribution.value == me.distribution)
    && (p.elect.Some? ==> p.elect.value == me.elect)
  }

  function Known(ps: seq<Peer>): set<string> {
    set p | p in ps && p.instance.Some? :: p.instance.value
  }

  /** _agreeing_peers: the counted peers in table order, one per process. */
  function Agreeing(table: seq<Peer>, me: Identity, mySize: int): (r: seq<Peer>)
    ensures |r| <= |table| && forall p :: p in r ==> p in table && Counts(p, me, mySize)
  {
    if table == [] then [] else
      var init, p := Agreeing(table[..|table| - 1], me, mySize), table[|table| - 1];
      if Counts(p, me, mySize) && (p.instance.Some? ==> p.instance.value !in Known(init)) then init + [p] else init
  }

  method AgreeingPeers(table: seq<Peer>, me: Identity, mySize: int) returns (r: seq<Peer>)
    ensures r == Agreeing(table, me, mySize)
  {
    r := [];
    var seen := {};
    for i := 0 to |table|
      invariant r == Agreeing(table[..i], me, mySize) && seen == Known(r)
    {
      var p := table[i];
      assert table[..i + 1][..i] == table[..i];
      if !Counts(p, me, mySize) {
        continue;
      }
      if p.instance.Some? {
        if p.instance.value in seen {
          continue;
        }
        seen := seen + {p.instance.value};
      }
      KnownStep(r, p);
      r := r + [p];
    }
    assert table[..|table|] == table;
  }

  lemma KnownStep(ps: seq<Peer>, p: Peer)
    ensures Known(ps + [p]) == Known(ps) + (if p.instance.Some? then {p.instance.value} else {})
  {
    assert forall q :: q in ps + [p] <==> q in ps || q == p;
    assert p in ps + [p];
    assert forall x :: x in Known(ps) ==> x in Known(ps + [p]);
  }

  /** Each counted peer is a different process or an unidentified entry. */
  lemma {:induction false} AgreeingBound(table: seq<Peer>, me: Identity, mySize: int)
    ensures var r := Agreeing(table, me, mySize);
            |r| <= Unidentified(table) + |Known(r)| && Known(r) <= Instances(table)
    decreases |table|
  {
    if table != [] {
      var init, p := table[..|table| - 1], table[|table| - 1];
      AgreeingBound(init, me, mySize);
      assert table == init + [p];
      InstancesStep(init, p);
      KnownStep(Agreeing(init, me, mySize), p);
    }
  }

  /** One process is never counted twice toward quorum: this node and the peers
      it counts never exceed the cluster size, on any table. */
  lemma LiveSetFitsCluster(table: seq<Peer>, me: Identity, mySize: int)
    ensures 1 + |Agreeing(table, me, mySize)| <= SizeOf(table)
  {
    AgreeingBound(table, me, mySize);
    SubsetSize(Known(Agreeing(table, me, mySize)), Instances(table));
  }

  lemma {:induction false} SubsetSize<T>(a: set<T>, b: set<T>)
    requires a <= b
    ensures |a| <= |b|
  {
    assert b == a + (b - a);
  }

  lemma {:induction false} CountedProcessesDiffer(table: seq<Peer>, me: Identity, mySize: int, i: nat, j: nat)
    requires i < j < |Agreeing(table, me, mySize)|
    ensures var r := Agreeing(table, me, mySize); r[i].instance.Some? ==> r[i].instance != r[j].instance
    decreases |table|
  {
    var init := Agreeing(table[..|table| - 1], me, mySize);
    if j < |init| {
      CountedProcessesDiffer(table[..|table| - 1], me, mySize, i, j);
    } else {
      assert init[i] in init;
    }
  }
}
