/** Convergence of the gossip of cronstable/cluster.py: with fixed reachability,
    each complete poll round settles one more derived set, whatever the order of
    the polls inside it, and after four rounds the election runs on Topology's
    graph for good. */
module Convergence {
  import opened Wrappers
  import opened PeerTable
  import opened Election
  import opened Topology
  import opened Gossip

  /** What n rounds settle about node i's entry for node j: reachability, then
      mutual attestation, then j's mutual set, then j's vouched set. */
  ghost predicate Entry(c: Cluster, g: Graph, n: nat, i: string, j: string, e: Peer)
    requires i in c.instance && j in c.instance
  {
    && (n >= 1 ==> e.status != Unknown && (e.status == Agreed <==> (i, j) in g.links))
    && (e.status == Agreed ==>
      && (n >= 2 ==> (SeesMeAgreed(e.members, c.instance[i]) <==> (j, i) in g.links))
      && (n >= 3 ==> e.mutual == Some(Mutual(g, j)))
      && (n >= 4 ==> e.vouched == Some(Electable(g, j))))
  }

  ghost predicate Settled(c: Cluster, g: Graph, n: nat, s: State) {
    && ValidCluster(c) && SaneState(c, s) && g.nodes == c.nodes
    && forall i, k :: Slot(c, i, k) && c.peers[i][k] in c.nodes ==> Entry(c, g, n, i, c.peers[i][k], s[i][k])
  }

  lemma EntryAt(c: Cluster, g: Graph, n: nat, s: State, i: string, k: int)
    requires Settled(c, g, n, s) && i in c.nodes && 0 <= k < |c.peers[i]|
    ensures Slot(c, i, k) && c.peers[i][k] in c.nodes && c.peers[i][k] != i
    ensures Sane(c, c.peers[i][k], s[i][k]) && Entry(c, g, n, i, c.peers[i][k], s[i][k])
  {
    EntryOf(c, s, i, k);
  }

  lemma SlotOf(c: Cluster, i: string, j: string) returns (k: int)
    requires ValidCluster(c) && i in c.nodes && j in c.nodes && i != j
    ensures Slot(c, i, k) && c.peers[i][k] == j
  {
    assert j in ToSet(c.peers[i]);
    k :| 0 <= k < |c.peers[i]| && c.peers[i][k] == j;
  }

  // ---------------------------------------------------------------------
  // Round 2: who attests whom
  // ---------------------------------------------------------------------

  lemma {:induction false} MembersListed(me: Identity, table: seq<Peer>, m: Member)
    ensures m in LocalMembers(me, table) <==>
            || m == Member(me.name, Some(me.instance), true)
            || exists p :: p in table && !Stale(p.status) && p.name.Some? && m == Member(p.name.value, p.instance, p.status == Agreed)
    decreases |table|
  {
    if table != [] {
      var init, p := table[..|table| - 1], table[|table| - 1];
      MembersListed(me, init, m);
      assert table == init + [p];
      assert forall q :: q in table <==> q in init || q == p;
    }
  }

  /** The members list attests i exactly when some agreeing entry carries i's
      instance. */
  lemma AttestedIff(me: Identity, table: seq<Peer>, instance: string)
    requires me.instance != instance
    requires forall p :: p in table && p.status == Agreed ==> p.name.Some?
    ensures SeesMeAgreed(Some(LocalMembers(me, table)), instance) <==>
            exists p :: p in table && p.status == Agreed && p.instance == Some(instance)
  {
    var ms := LocalMembers(me, table);
    if SeesMeAgreed(Some(ms), instance) {
      var m :| m in ms && m.agreed && m.instance == Some(instance);
      MembersListed(me, table, m);
      var p :| p in table && !Stale(p.status) && p.name.Some? && m == Member(p.name.value, p.instance, p.status == Agreed);
    }
    if p :| p in table && p.status == Agreed && p.instance == Some(instance) {
      var m := Member(p.name.value, p.instance, true);
      MembersListed(me, table, m);
    }
  }

  /** Once statuses are settled, an agreeing entry of j carries i's instance exactly
      when j reaches i. */
  lemma AgreedEntryFollowsLink(c: Cluster, g: Graph, s: State, i: string, j: string)
    requires Settled(c, g, 1, s) && i in c.nodes && j in c.nodes && i != j
    ensures (exists p :: p in s[j] && p.status == Agreed && p.instance == Some(c.instance[i])) <==> (j, i) in g.links
    ensures forall p :: p in s[j] && p.status == Agreed ==> p.name.Some?
  {
    var table := s[j];
    forall p | p in table && p.status == Agreed
      ensures p.name.Some? && (p.instance == Some(c.instance[i]) ==> (j, i) in g.links)
    {
      var k :| 0 <= k < |table| && table[k] == p;
      EntryAt(c, g, 1, s, j, k);
    }
    if (j, i) in g.links {
      var k := SlotOf(c, j, i);
      EntryAt(c, g, 1, s, j, k);
      assert table[k] in table;
    }
  }

  /** Once statuses are settled, j's payload attests i exactly when j reaches i. */
  lemma AttestationFollowsLinks(c: Cluster, g: Graph, s: State, i: string, j: string)
    requires Settled(c, g, 1, s) && i in c.nodes && j in c.nodes && i != j
    ensures SeesMeAgreed(Payload(c, s, j).members, c.instance[i]) <==> (j, i) in g.links
  {
    AgreedEntryFollowsLink(c, g, s, i, j);
    AttestedIff(Me(c, j), s[j], c.instance[i]);
  }

  // ---------------------------------------------------------------------
  // Round 3: the mutual sets
  // ---------------------------------------------------------------------

  /** With distinct processes behind the entries, no counted entry is dropped. */
  lemma {:induction false} NoneDropped(table: seq<Peer>, ids: seq<string>, me: Identity, size: int, k: nat)
    requires |ids| == |table| && Distinct(ids) && k < |table| && Counts(table[k], me, size)
    requires forall q :: 0 <= q < |table| ==> table[q].instance in {None, Some(ids[q])}
    ensures table[k] in Agreeing(table, me, size)
    decreases |table|
  {
    var n := |table| - 1;
    if k < n {
      NoneDropped(table[..n], ids[..n], me, size, k);
    } else {
      KnownAmong(table[..n], ids[..n], me, size);
      assert ids[n] !in ids[..n];
    }
  }

  lemma KnownAmong(table: seq<Peer>, ids: seq<string>, me: Identity, size: int)
    requires |ids| == |table|
    requires forall q :: 0 <= q < |table| ==> table[q].instance in {None, Some(ids[q])}
    ensures Known(Agreeing(table, me, size)) <= ToSet(ids)
  {
    forall p | p in table && p.instance.Some? ensures p.instance.value in ids {
      var q :| 0 <= q < |table| && table[q] == p;
    }
  }

  /** Names taken in order from distinct entries are distinct. */
  lemma {:induction false} NamesDistinct(table: seq<Peer>, names: seq<string>, me: Identity, size: int)
    requires |names| == |table| && Distinct(names)
    requires forall q :: 0 <= q < |table| && table[q].status == Agreed ==> table[q].name == Some(names[q])
    ensures DistinctAmong(AgreeingNames(Agreeing(table, me, size)), ToSet(names))
    decreases |table|
  {
    if table != [] {
      var n := |table| - 1;
      var ps, among := Agreeing(table[..n], me, size), ToSet(names[..n]);
      NamesDistinct(table[..n], names[..n], me, size);
      assert ToSet(names) == among + {names[n]} by { assert names == names[..n] + [names[n]]; }
      assert names[n] !in among;
      var all := Agreeing(table, me, size);
      if all != ps {
        assert all == ps + [table[n]];
        NameAppended(ps, table[n], names[n], among);
      }
    }
  }

  ghost predicate DistinctAmong(names: seq<string>, among: set<string>) {
    Distinct(names) && forall k :: 0 <= k < |names| ==> names[k] in among
  }

  lemma NameAppended(ps: seq<Peer>, p: Peer, name: string, among: set<string>)
    requires DistinctAmong(AgreeingNames(ps), among) && name !in among && p.name == Some(name)
    ensures DistinctAmong(AgreeingNames(ps + [p]), among + {name})
  {
    assert (ps + [p])[..|ps|] == ps;
  }

  /** Once attestation is settled, an entry counts exactly when the two nodes
      reach each other. */
  lemma CountsIffMutual(c: Cluster, g: Graph, s: State, i: string, k: int)
    requires Settled(c, g, 2, s) && i in c.nodes && 0 <= k < |c.peers[i]|
    ensures Counts(s[i][k], Me(c, i), |c.nodes|) <==> c.peers[i][k] in Mutual(g, i)
  {
    EntryAt(c, g, 2, s, i, k);
  }

  /** The live set of i is exactly its mutual neighbourhood, each once. */
  lemma LiveIsMutual(c: Cluster, g: Graph, s: State, i: string)
    requires Settled(c, g, 2, s) && i in c.nodes
    ensures var ps := Live(NodeOf(c, s, i));
            && NameSet(ps) == Mutual(g, i) && ToSet(AgreeingNames(ps)) == Mutual(g, i)
            && |AgreeingNames(ps)| == |Mutual(g, i)|
  {
    var nd := NodeOf(c, s, i);
    var ps, ids := Live(nd), Ids(c, i);
    SizeIsShared(c, s, i);
    GossipNamesNodes(c, s, i);
    forall k | 0 <= k < |nd.table|
      ensures nd.table[k].instance in {None, Some(ids[k])}
      ensures nd.table[k].status == Agreed ==> nd.table[k].name == Some(c.peers[i][k])
    {
      EntryAt(c, g, 2, s, i, k);
    }
    forall j | j in Mutual(g, i) ensures j in NameSet(ps) {
      var k := SlotOf(c, i, j);
      CountsIffMutual(c, g, s, i, k);
      NoneDropped(nd.table, ids, nd.me, |c.nodes|, k);
      EntryAt(c, g, 2, s, i, k);
      assert NameOf(nd.table[k]) == j;
    }
    forall p | p in ps ensures NameOf(p) in Mutual(g, i) {
      var k := LiveEntry(c, s, i, p);
      CountsIffMutual(c, g, s, i, k);
    }
    NamesDistinct(nd.table, c.peers[i], nd.me, |c.nodes|);
    DistinctSize(AgreeingNames(ps));
  }

  // ---------------------------------------------------------------------
  // Round 4: the eligible sets
  // ---------------------------------------------------------------------

  /** The agreeing peers ps report the graph around i truthfully. */
  ghost predicate Mirrors(g: Graph, i: string, ps: seq<Peer>) {
    && i in g.nodes && "" !in g.nodes && NameSet(ps) == Mutual(g, i)
    && forall p :: p in ps ==> p.name.Some? && p.name.value in Mutual(g, i) && MutualOf(p) == Mutual(g, p.name.value)
  }

  lemma PeerNamed(g: Graph, i: string, ps: seq<Peer>, w: string) returns (p: Peer)
    requires Mirrors(g, i, ps) && w in Mutual(g, i)
    ensures p in ps && p.name == Some(w) && MutualOf(p) == Mutual(g, w)
  {
    assert w in NameSet(ps);
    p :| p in ps && NameOf(p) != "" && NameOf(p) == w;
  }

  lemma HeardIsTwoHops(g: Graph, i: string, ps: seq<Peer>, n: string)
    requires Mirrors(g, i, ps)
    ensures n in Heard(ps) <==> exists w :: w in Mutual(g, i) && n in Mutual(g, w)
  {
    if n in Heard(ps) {
      var p :| p in ps && n in MutualOf(p);
      assert p.name.value in Mutual(g, i) && n in Mutual(g, p.name.value);
    }
    if w :| w in Mutual(g, i) && n in Mutual(g, w) {
      var p := PeerNamed(g, i, ps, w);
    }
  }

  lemma WitnessesAreShared(g: Graph, i: string, ps: seq<Peer>, n: string)
    requires Mirrors(g, i, ps) && n in g.nodes
    ensures Witnesses(ps, n) == Mutual(g, i) * Mutual(g, n)
  {
    forall w | w in Mutual(g, i) * Mutual(g, n) ensures w in Witnesses(ps, n) {
      var p := PeerNamed(g, i, ps, w);
    }
  }

  /** A bridged node is heard of: there is a shared member to hear it from. */
  lemma BridgedIsHeard(g: Graph, i: string, n: string)
    requires i in g.nodes && n in Bridged(g, i)
    ensures exists w :: w in Mutual(g, i) && n in Mutual(g, w)
  {
    SubsetSize({i, n}, g.nodes);
    assert Mutual(g, i) * Mutual(g, n) != {};
    var w :| w in Mutual(g, i) * Mutual(g, n);
    assert n in Mutual(g, w);
  }

  lemma BridgeIffBridged(g: Graph, i: string, ps: seq<Peer>, me: Identity, n: string)
    requires Mirrors(g, i, ps) && me.name == i
    ensures n in Bridge(ps, me, Majority(g)) <==> n in Bridged(g, i)
  {
    HeardIsTwoHops(g, i, ps, n);
    if n in g.nodes {
      WitnessesAreShared(g, i, ps, n);
    }
    if n in Bridged(g, i) {
      BridgedIsHeard(g, i, n);
    }
  }

  lemma BridgeIsBridged(g: Graph, i: string, ps: seq<Peer>, me: Identity)
    requires Mirrors(g, i, ps) && me.name == i
    ensures Bridge(ps, me, Majority(g)) == Bridged(g, i)
  {
    forall n ensures n in Bridge(ps, me, Majority(g)) <==> n in Bridged(g, i) {
      BridgeIffBridged(g, i, ps, me, n);
    }
  }

  lemma ConfirmedIsQuorate(g: Graph, i: string, ps: seq<Peer>)
    requires Mirrors(g, i, ps)
    ensures ConfirmedDirect(ps, Majority(g)) == set p | p in Mutual(g, i) && Quorate(g, p)
  {
    forall w | w in Mutual(g, i) && Quorate(g, w) ensures w in ConfirmedDirect(ps, Majority(g)) {
      var p := PeerNamed(g, i, ps, w);
    }
  }

  /** The live peers of a settled node mirror the graph. */
  lemma LiveMirrors(c: Cluster, g: Graph, s: State, i: string)
    requires Settled(c, g, 3, s) && i in c.nodes
    ensures Mirrors(g, i, Live(NodeOf(c, s, i))) && Quorum(NodeOf(c, s, i)) == Majority(g)
  {
    SettledDown(c, g, 3, 2, s);
    LiveIsMutual(c, g, s, i);
    SizeIsShared(c, s, i);
    var ps := Live(NodeOf(c, s, i));
    forall p | p in ps ensures p.name.Some? && p.name.value in Mutual(g, i) && MutualOf(p) == Mutual(g, p.name.value) {
      var k := LiveEntry(c, s, i, p);
      EntryAt(c, g, 3, s, i, k);
      CountsIffMutual(c, g, s, i, k);
    }
  }

  lemma SettledDown(c: Cluster, g: Graph, n: nat, m: nat, s: State)
    requires Settled(c, g, n, s) && m <= n
    ensures Settled(c, g, m, s)
  {
  }

  lemma EligibleIsElectable(c: Cluster, g: Graph, s: State, i: string)
    requires Settled(c, g, 3, s) && i in c.nodes
    ensures EligibleOf(NodeOf(c, s, i)) == Electable(g, i)
  {
    LiveMirrors(c, g, s, i);
    var nd := NodeOf(c, s, i);
    BridgeIsBridged(g, i, Live(nd), nd.me);
    ConfirmedIsQuorate(g, i, Live(nd));
  }

  // ---------------------------------------------------------------------
  // Rounds
  // ---------------------------------------------------------------------

  /** The polls succeed exactly along the links. */
  ghost predicate Obeys(c: Cluster, g: Graph, ps: seq<Poll>) {
    ValidPolls(c, ps) &&
    forall p :: p in ps && Slot(c, p.poller, p.slot) ==> (p.ok <==> (p.poller, c.peers[p.poller][p.slot]) in g.links)
  }

  /** Every node polls every address at least once; the order is free. */
  ghost predicate CompleteRound(c: Cluster, ps: seq<Poll>) {
    forall i, k :: Slot(c, i, k) ==> Polled(ps, i, k)
  }

  /** A successful poll records the stage the answer has reached. */
  lemma SuccessSettles(c: Cluster, g: Graph, n: nat, s: State, i: string, j: string, e: Peer)
    requires Settled(c, g, n, s) && i in c.nodes && j in c.nodes && i != j && (i, j) in g.links
    ensures Entry(c, g, n + 1, i, j, AfterSuccess(e, Payload(c, s, j), c.jobSet, Me(c, i), c.driftAfter))
  {
    PayloadIsTruthful(c, s, j);
    RecordsTruth(c, i, j, e, Payload(c, s, j));
    PayloadSettles(c, g, n, s, i, j);
  }

  /** One poll on a cluster settled to n carries its own entry to n + 1. */
  lemma PollSettles(c: Cluster, g: Graph, n: nat, s: State, p: Poll)
    requires Settled(c, g, n, s) && Slot(c, p.poller, p.slot)
    requires p.ok <==> (p.poller, c.peers[p.poller][p.slot]) in g.links
    ensures c.peers[p.poller][p.slot] in c.nodes && Settled(c, g, n, Apply(c, s, p))
    ensures Entry(c, g, n + 1, p.poller, c.peers[p.poller][p.slot], Apply(c, s, p)[p.poller][p.slot])
  {
    var i, k := p.poller, p.slot;
    SanePoll(c, s, p);
    EntryAt(c, g, n, s, i, k);
    var j, e := c.peers[i][k], s[i][k];
    if p.ok {
      SuccessSettles(c, g, n, s, i, j, e);
    } else {
      SaneAfterFailure(c, j, e, p.untrusted);
    }
    var t := Apply(c, s, p);
    assert Entry(c, g, n + 1, i, j, t[i][k]);
  }

  /** What j's payload reports once the cluster is settled to n. */
  lemma PayloadSettles(c: Cluster, g: Graph, n: nat, s: State, i: string, j: string)
    requires Settled(c, g, n, s) && i in c.nodes && j in c.nodes && i != j
    ensures n >= 1 ==> (SeesMeAgreed(Payload(c, s, j).members, c.instance[i]) <==> (j, i) in g.links)
    ensures n >= 2 ==> Payload(c, s, j).mutual == Some(Mutual(g, j))
    ensures n >= 3 ==> Payload(c, s, j).vouched == Some(Electable(g, j))
  {
    if n >= 1 {
      SettledDown(c, g, n, 1, s);
      AttestationFollowsLinks(c, g, s, i, j);
    }
    if n >= 2 {
      SettledDown(c, g, n, 2, s);
      LiveIsMutual(c, g, s, j);
    }
    if n >= 3 {
      SettledDown(c, g, n, 3, s);
      EligibleIsElectable(c, g, s, j);
    }
  }

  lemma ObeysPrefix(c: Cluster, g: Graph, ps: seq<Poll>)
    requires Obeys(c, g, ps) && ps != []
    ensures Obeys(c, g, ps[..|ps| - 1]) && Slot(c, ps[|ps| - 1].poller, ps[|ps| - 1].slot)
    ensures var p := ps[|ps| - 1]; p.ok <==> (p.poller, c.peers[p.poller][p.slot]) in g.links
  {
    assert ps[|ps| - 1] in ps && forall p :: p in ps[..|ps| - 1] ==> p in ps;
  }

  /** Through any polls along the links, a settled stage stays settled. */
  lemma {:induction false} RunKeepsSettled(c: Cluster, g: Graph, n: nat, s: State, ps: seq<Poll>)
    requires Settled(c, g, n, s) && Obeys(c, g, ps)
    ensures Settled(c, g, n, ApplyAll(c, s, ps))
    decreases |ps|
  {
    if ps != [] {
      ObeysPrefix(c, g, ps);
      RunKeepsSettled(c, g, n, s, ps[..|ps| - 1]);
      PollSettles(c, g, n, ApplyAll(c, s, ps[..|ps| - 1]), ps[|ps| - 1]);
    }
  }

  ghost predicate Polled(ps: seq<Poll>, i: string, k: int) {
    exists p :: p in ps && p.poller == i && p.slot == k
  }

  /** Every polled entry reaches the next stage and stays there. */
  lemma {:induction false} RunReaches(c: Cluster, g: Graph, n: nat, s: State, ps: seq<Poll>, i: string, k: int)
    requires Settled(c, g, n, s) && Obeys(c, g, ps) && Slot(c, i, k) && Polled(ps, i, k)
    ensures c.peers[i][k] in c.nodes && Entry(c, g, n + 1, i, c.peers[i][k], ApplyAll(c, s, ps)[i][k])
    decreases |ps|
  {
    ObeysPrefix(c, g, ps);
    var init, last := ps[..|ps| - 1], ps[|ps| - 1];
    RunKeepsSettled(c, g, n, s, init);
    PollSettles(c, g, n, ApplyAll(c, s, init), last);
    if last.poller != i || last.slot != k {
      assert Polled(init, i, k);
      RunReaches(c, g, n, s, init, i, k);
    }
  }

  /** A complete round settles the next stage. */
  lemma RoundSettles(c: Cluster, g: Graph, n: nat, s: State, ps: seq<Poll>)
    requires Settled(c, g, n, s) && Obeys(c, g, ps) && CompleteRound(c, ps)
    ensures Settled(c, g, n + 1, ApplyAll(c, s, ps))
  {
    RunKeepsSettled(c, g, n, s, ps);
    var t := ApplyAll(c, s, ps);
    forall i, k | Slot(c, i, k) && c.peers[i][k] in c.nodes ensures Entry(c, g, n + 1, i, c.peers[i][k], t[i][k]) {
      RunReaches(c, g, n, s, ps, i, k);
    }
  }

  ghost predicate ValidRounds(c: Cluster, g: Graph, rounds: seq<seq<Poll>>) {
    forall r :: r in rounds ==> Obeys(c, g, r) && CompleteRound(c, r)
  }

  ghost function AfterRounds(c: Cluster, s: State, rounds: seq<seq<Poll>>): (t: State)
    requires ValidCluster(c) && WellShaped(c, s) && forall r :: r in rounds ==> ValidPolls(c, r)
    ensures WellShaped(c, t)
    decreases |rounds|
  {
    if rounds == [] then s else
      ApplyAll(c, AfterRounds(c, s, rounds[..|rounds| - 1]), rounds[|rounds| - 1])
  }

  /** From any views a run can leave behind, k complete rounds settle the first k
      stages. */
  lemma {:induction false} RoundsSettle(c: Cluster, g: Graph, s: State, rounds: seq<seq<Poll>>)
    requires ValidCluster(c) && g.nodes == c.nodes && SaneState(c, s) && ValidRounds(c, g, rounds)
    ensures Settled(c, g, |rounds|, AfterRounds(c, s, rounds))
    decreases |rounds|
  {
    if rounds != [] {
      var init, last := rounds[..|rounds| - 1], rounds[|rounds| - 1];
      assert last in rounds && forall r :: r in init ==> r in rounds;
      RoundsSettle(c, g, s, init);
      RoundSettles(c, g, |init|, AfterRounds(c, s, init), last);
    }
  }

  // ---------------------------------------------------------------------
  // The election after convergence
  // ---------------------------------------------------------------------

  /** On a settled cluster each node's derived sets are the graph's. */
  ghost predicate RunsOnGraph(c: Cluster, g: Graph, s: State, i: string)
    requires i in c.instance && i in s
  {
    var nd := NodeOf(c, s, i);
    && ToSet(AgreeingNames(Live(nd))) == Mutual(g, i) && (IsQuorate(nd) <==> Quorate(g, i))
    && EligibleOf(nd) == Electable(g, i) && OwnerSet(nd) == Owners(g, i) && AvailableSet(nd) == Within2(g, i)
  }

  lemma VouchedIsVouchedTo(c: Cluster, g: Graph, s: State, i: string, n: string)
    requires Settled(c, g, 4, s) && i in c.nodes
    ensures n in Vouched(Live(NodeOf(c, s, i))) <==> n in VouchedTo(g, i)
  {
    SettledDown(c, g, 4, 3, s);
    LiveMirrors(c, g, s, i);
    var ps := Live(NodeOf(c, s, i));
    forall p | p in ps ensures p.name.Some? && VouchedOf(p) == Electable(g, p.name.value) {
      var k := LiveEntry(c, s, i, p);
      EntryAt(c, g, 4, s, i, k);
    }
    if n in VouchedTo(g, i) {
      var w :| w in Mutual(g, i) && n in Electable(g, w);
      var p := PeerNamed(g, i, ps, w);
    }
  }

  /** The vouched names a settled node folds in are those the graph vouches to it. */
  lemma OwnerSetIsOwners(c: Cluster, g: Graph, s: State, i: string)
    requires Settled(c, g, 4, s) && i in c.nodes
    ensures OwnerSet(NodeOf(c, s, i)) == Owners(g, i)
  {
    var nd := NodeOf(c, s, i);
    SettledDown(c, g, 4, 3, s);
    LiveMirrors(c, g, s, i);
    EligibleIsElectable(c, g, s, i);
    forall n ensures n in Vouched(Live(nd)) <==> n in VouchedTo(g, i) {
      VouchedIsVouchedTo(c, g, s, i, n);
    }
    NobodyVouchesNobody(g, i);
    OwnersAgree(g, i, nd.me.name, NameSet(Live(nd)), EligibleOf(nd), Vouched(Live(nd)));
  }

  lemma NobodyVouchesNobody(g: Graph, i: string)
    requires "" !in g.nodes
    ensures "" !in VouchedTo(g, i)
  {
    forall w | w in Mutual(g, i) ensures "" !in Electable(g, w) {
      ElectableAreQuorate(g, w);
    }
  }

  lemma OwnersAgree(g: Graph, i: string, me: string, direct: set<string>, eligible: set<string>, vouched: set<string>)
    requires me == i && direct == Mutual(g, i) && eligible == Electable(g, i) && "" !in VouchedTo(g, i)
    requires forall n :: n in vouched <==> n in VouchedTo(g, i)
    ensures {me} + eligible + (set n | n in vouched && n != "" && n !in {me} + direct + eligible) == Owners(g, i)
  {
  }

  /** The never-skip members of a settled node are the graph's two-hop ball. */
  lemma AvailableIsWithin2(c: Cluster, g: Graph, s: State, i: string)
    requires Settled(c, g, 4, s) && i in c.nodes
    ensures AvailableSet(NodeOf(c, s, i)) == Within2(g, i)
  {
    SettledDown(c, g, 4, 3, s);
    LiveMirrors(c, g, s, i);
    var nd := NodeOf(c, s, i);
    forall n ensures n in AvailableSet(nd) <==> n in Within2(g, i) {
      HeardIsTwoHops(g, i, Live(nd), n);
    }
  }

  lemma SettledRunsOnGraph(c: Cluster, g: Graph, s: State, i: string)
    requires Settled(c, g, 4, s) && i in c.nodes
    ensures RunsOnGraph(c, g, s, i)
  {
    OwnerSetIsOwners(c, g, s, i);
    AvailableIsWithin2(c, g, s, i);
    SettledDown(c, g, 4, 2, s);
    SettledDown(c, g, 4, 3, s);
    LiveIsMutual(c, g, s, i);
    SizeIsShared(c, s, i);
    EligibleIsElectable(c, g, s, i);
  }

  /** The cluster runs on the graph at every node. */
  ghost predicate Converged(c: Cluster, g: Graph, s: State) {
    c.instance.Keys == c.nodes == s.Keys && forall i :: i in c.nodes ==> RunsOnGraph(c, g, s, i)
  }

  lemma SettledConverged(c: Cluster, g: Graph, s: State)
    requires Settled(c, g, 4, s)
    ensures Converged(c, g, s)
  {
    forall i | i in c.nodes ensures RunsOnGraph(c, g, s, i) {
      SettledRunsOnGraph(c, g, s, i);
    }
  }

  /** Convergence: from any views a run can leave behind, however stale, four or
      more complete rounds, polled in any order inside each, leave every node's
      live set, quorum, candidates, owner set and never-skip set exactly those of
      the reachability graph, and further polls along the links keep them. */
  lemma FourRoundsConverge(c: Cluster, g: Graph, s: State, rounds: seq<seq<Poll>>, more: seq<Poll>)
    requires ValidCluster(c) && g.nodes == c.nodes && SaneState(c, s)
    requires ValidRounds(c, g, rounds) && |rounds| >= 4 && Obeys(c, g, more)
    ensures Converged(c, g, AfterRounds(c, s, rounds))
    ensures Converged(c, g, ApplyAll(c, AfterRounds(c, s, rounds), more))
  {
    RoundsSettle(c, g, s, rounds);
    var t := AfterRounds(c, s, rounds);
    SettledDown(c, g, |rounds|, 4, t);
    SettledConverged(c, g, t);
    RunKeepsSettled(c, g, 4, t, more);
    SettledConverged(c, g, ApplyAll(c, t, more));
  }

  /** In particular after any history from fresh views, the empty one included:
      once reachability holds still, a partition or its healing is forgotten. */
  lemma HealsAfterAnyHistory(c: Cluster, g: Graph, s: State, history: seq<Poll>, rounds: seq<seq<Poll>>)
    requires ValidCluster(c) && g.nodes == c.nodes && Fresh(c, s) && ValidPolls(c, history)
    requires ValidRounds(c, g, rounds) && |rounds| >= 4
    ensures Converged(c, g, AfterRounds(c, ApplyAll(c, s, history), rounds))
  {
    FreshIsSane(c, s);
    SaneRun(c, s, history);
    FourRoundsConverge(c, g, ApplyAll(c, s, history), rounds, []);
  }

  // ---------------------------------------------------------------------
  // Verdicts on a converged cluster
  // ---------------------------------------------------------------------

  /** Spread mode, end to end: once converged every quorate node computes the same
      owner of the job, the owner among them, and the others stand down. */
  lemma SpreadRunsExactlyOnce(c: Cluster, g: Graph, t: State, h: Hash, job: string)
    requires g.nodes == c.nodes && Converged(c, g, t) && Quorates(g) != {}
    ensures exists o :: o in Quorates(g) && AllName(c, g, t, h, job, o)
  {
    OutranksIsStrictTotal(h, job);
    SpreadIsExactlyOnce(g, Outranks(h, job));
    var o :| o in Quorates(g) && OneOwner(g, Outranks(h, job), o);
    forall i | i in c.nodes
      ensures JobOwner(NodeOf(c, t, i), h, job) == if i in Quorates(g) then Some(o) else None
    {
      OwnerOnGraph(c, g, t, i, h, job, o);
    }
    assert AllName(c, g, t, h, job, o);
  }

  /** The quorate nodes name o as the job's owner, the others name nobody. */
  ghost predicate AllName(c: Cluster, g: Graph, t: State, h: Hash, job: string, o: string)
    requires c.instance.Keys == c.nodes == t.Keys
  {
    forall i :: i in c.nodes ==> JobOwner(NodeOf(c, t, i), h, job) == if i in Quorates(g) then Some(o) else None
  }

  lemma OwnerOnGraph(c: Cluster, g: Graph, t: State, i: string, h: Hash, job: string, o: string)
    requires i in c.instance && i in t && i in g.nodes && RunsOnGraph(c, g, t, i)
    requires OneOwner(g, Outranks(h, job), o)
    ensures JobOwner(NodeOf(c, t, i), h, job) == if i in Quorates(g) then Some(o) else None
  {
    if i in Quorates(g) {
      OutranksIsStrictTotal(h, job);
      var named := JobOwner(NodeOf(c, t, i), h, job).value;
      assert NamesOwner(g, Outranks(h, job), i, named);
    }
  }

  /** Single-leader and never-skip verdicts on a converged cluster are the graph's. */
  lemma LeadersAfterConvergence(c: Cluster, g: Graph, t: State, i: string)
    requires g.nodes == c.nodes && Converged(c, g, t) && i in c.nodes
    ensures var nd := NodeOf(c, t, i);
            && (forall m :: LeaderName(nd) == Some(m) <==> Elects(g, i, m))
            && (AvailableLeader(nd) == i <==> Wins(Within2(g, i), Less, i))
            && (forall h, job :: AvailableOwner(nd, h, job) == i <==> Wins(Within2(g, i), Outranks(h, job), i))
  {
    var nd := NodeOf(c, t, i);
    LessIsStrictTotal();
    assert RunsOnGraph(c, g, t, i);
    forall m ensures LeaderName(nd) == Some(m) <==> Elects(g, i, m) {
      if Elects(g, i, m) {
        WinnerIsUnique({i} + Electable(g, i), Less, m, LeaderName(nd).value);
      }
    }
    if Wins(Within2(g, i), Less, i) {
      WinnerIsUnique(Within2(g, i), Less, i, AvailableLeader(nd));
    }
    forall h, job ensures AvailableOwner(nd, h, job) == i <==> Wins(Within2(g, i), Outranks(h, job), i) {
      OutranksIsStrictTotal(h, job);
      if Wins(Within2(g, i), Outranks(h, job), i) {
        WinnerIsUnique(Within2(g, i), Outranks(h, job), i, AvailableOwner(nd, h, job));
      }
    }
  }
}
