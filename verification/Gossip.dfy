/** The cluster as a distributed system (cronstable/cluster.py): every node polls
    every other, payloads are built from the responder's current table, and the
    derived sets settle stage by stage to the static graph of Topology. */
module Gossip {
  import opened Wrappers
  import opened PeerTable
  import opened Election
  import opened Topology

  /** A cluster whose nodes share one job set, size and policy. peers[i] lists,
      in configured order, the node that answers at each of i's addresses. */
  datatype Cluster = Cluster(
    nodes: set<string>, peers: map<string, seq<string>>, instance: map<string, string>,
    jobSet: string, distribution: string, elect: bool, driftAfter: int)

  ghost predicate ValidCluster(c: Cluster) {
    && c.peers.Keys == c.nodes && c.instance.Keys == c.nodes && "" !in c.nodes
    && (forall i :: i in c.nodes ==> ToSet(c.peers[i]) == c.nodes - {i} && Distinct(c.peers[i]))
    && (forall i, j :: i in c.nodes && j in c.nodes && c.instance[i] == c.instance[j] ==> i == j)
  }

  ghost predicate Distinct(s: seq<string>) {
    forall a, b :: 0 <= a < b < |s| ==> s[a] != s[b]
  }

  /** Every node's peer table, in the order of its configured addresses. */
  type State = map<string, seq<Peer>>

  ghost predicate Slot(c: Cluster, i: string, k: int) {
    i in c.nodes && i in c.peers && 0 <= k < |c.peers[i]|
  }

  ghost predicate WellShaped(c: Cluster, s: State) {
    s.Keys == c.nodes && c.peers.Keys == c.nodes && c.instance.Keys == c.nodes &&
    forall i :: i in c.nodes ==> |s[i]| == |c.peers[i]|
  }

  function Me(c: Cluster, i: string): Identity
    requires i in c.instance
  {
    Identity(i, c.instance[i], c.distribution, c.elect)
  }

  function NodeOf(c: Cluster, s: State, i: string): Node
    requires i in c.instance && i in s
  {
    Node(Me(c, i), s[i])
  }

  // ---------------------------------------------------------------------
  // A poll
  // ---------------------------------------------------------------------

  predicate Stale(st: Status) {
    st in {Unknown, Unreachable, Untrusted}
  }

  /** local_members. */
  function LocalMembers(me: Identity, table: seq<Peer>): seq<Member> {
    if table == [] then [Member(me.name, Some(me.instance), true)] else
      var p := table[|table| - 1];
      LocalMembers(me, table[..|table| - 1]) +
      (if Stale(p.status) || p.name == None then [] else [Member(p.name.value, p.instance, p.status == Agreed)])
  }

  /** The election-relevant part of _peer_payload, as the poller validates it. */
  function Observed(nd: Node, live: string, ran: set<string>): Observation {
    Observation(Some(nd.me.name), Some(live), Some(SCHEME), Some(nd.me.instance),
      Some(LocalMembers(nd.me, nd.table)), true,
      Some(SizeOf(nd.table)), Some(nd.me.distribution), Some(nd.me.elect),
      Some(ran), Some(ToSet(AgreeingNames(Live(nd)))), Some(EligibleOf(nd)))
  }

  /** What node j answers. */
  function Payload(c: Cluster, s: State, j: string): Observation
    requires j in c.instance && j in s
  {
    Observed(NodeOf(c, s, j), c.jobSet, {})
  }

  /** Node `poller` polls its k-th address: it gets the payload built right then, or
      the poll fails. */
  datatype Poll = Poll(poller: string, slot: int, ok: bool, untrusted: bool)

  ghost function Apply(c: Cluster, s: State, p: Poll): (t: State)
    requires WellShaped(c, s) && Slot(c, p.poller, p.slot) && c.peers[p.poller][p.slot] in c.nodes
    ensures WellShaped(c, t)
  {
    var j, e := c.peers[p.poller][p.slot], s[p.poller][p.slot];
    var e' := if p.ok then AfterSuccess(e, Payload(c, s, j), c.jobSet, Me(c, p.poller), c.driftAfter)
              else AfterFailure(e, p.untrusted);
    s[p.poller := s[p.poller][p.slot := e']]
  }

  ghost predicate ValidPolls(c: Cluster, ps: seq<Poll>) {
    forall p :: p in ps ==> Slot(c, p.poller, p.slot)
  }

  ghost function ApplyAll(c: Cluster, s: State, ps: seq<Poll>): (t: State)
    requires ValidCluster(c) && WellShaped(c, s) && ValidPolls(c, ps)
    ensures WellShaped(c, t)
    decreases |ps|
  {
    if ps == [] then s else
      PeerIsNode(c, ps[|ps| - 1].poller, ps[|ps| - 1].slot);
      Apply(c, ApplyAll(c, s, ps[..|ps| - 1]), ps[|ps| - 1])
  }

  lemma PeerIsNode(c: Cluster, i: string, k: int)
    requires ValidCluster(c) && Slot(c, i, k)
    ensures c.peers[i][k] in c.nodes && c.peers[i][k] != i
  {
    assert c.peers[i][k] in ToSet(c.peers[i]);
  }

  /** Nobody has polled anybody yet. */
  ghost predicate Fresh(c: Cluster, s: State) {
    WellShaped(c, s) && forall i, k :: Slot(c, i, k) ==> s[i][k] == FRESH
  }

  // ---------------------------------------------------------------------
  // What every run keeps, whatever the network does
  // ---------------------------------------------------------------------

  /** An entry tells the truth about the node j behind it, as far as it goes. */
  ghost predicate Sane(c: Cluster, j: string, e: Peer)
    requires j in c.instance
  {
    && !e.selfConfirmed && e.status in {Unknown, Agreed, Unreachable, Untrusted}
    && e.instance in {None, Some(c.instance[j])}
    && (e.status == Agreed ==>
      && e.instance == Some(c.instance[j]) && e.name == Some(j) && e.reportsMembers
      && e.size == Some(|c.nodes|) && e.distribution == Some(c.distribution) && e.elect == Some(c.elect)
      && MutualOf(e) <= c.nodes && VouchedOf(e) <= c.nodes)
  }

  ghost predicate SaneState(c: Cluster, s: State) {
    WellShaped(c, s) && forall i, k :: Slot(c, i, k) && c.peers[i][k] in c.nodes ==> Sane(c, c.peers[i][k], s[i][k])
  }

  /** The entry is for another process, that of instance id as far as it knows. */
  predicate StandsFor(p: Peer, id: string) {
    p.status != Self && (p.instance.Some? ==> p.instance.value == id)
  }

  lemma LastOfDistinct(ids: seq<string>)
    requires ids != [] && Distinct(ids)
    ensures var n := |ids| - 1; ids[n] !in ToSet(ids[..n]) && ToSet(ids) == ToSet(ids[..n]) + {ids[n]}
  {
    var n := |ids| - 1;
    assert ids == ids[..n] + [ids[n]];
  }

  /** One more entry, for a process no earlier one stands for, counts once. */
  lemma OneMore(known: set<string>, p: Peer, id: string, among: set<string>)
    requires known <= among && id !in among && StandsFor(p, id)
    ensures |known + ProcessOf(p)| + (if p.instance == None then 1 else 0) == |known| + 1
    ensures known + ProcessOf(p) <= among + {id}
  {
    if p.instance == None {
      assert known + ProcessOf(p) == known;
    } else {
      assert ProcessOf(p) == {id} && id !in known;
    }
  }

  /** When the entries stand for distinct processes, each is counted once. */
  lemma {:induction false} EveryEntryCounted(table: seq<Peer>, ids: seq<string>)
    requires |ids| == |table| && Distinct(ids)
    requires forall k :: 0 <= k < |table| ==> StandsFor(table[k], ids[k])
    ensures Unidentified(table) + |Instances(table)| == |table| && Instances(table) <= ToSet(ids)
    decreases |table|
  {
    if table != [] {
      var n := |table| - 1;
      EveryEntryCounted(table[..n], ids[..n]);
      LastOfDistinct(ids);
      OneMore(Instances(table[..n]), table[n], ids[n], ToSet(ids[..n]));
    }
  }

  /** The instance behind each of i's addresses. */
  ghost function Ids(c: Cluster, i: string): (ids: seq<string>)
    requires ValidCluster(c) && i in c.nodes
    ensures |ids| == |c.peers[i]| && Distinct(ids)
    ensures forall k :: 0 <= k < |ids| ==> c.peers[i][k] in c.nodes && ids[k] == c.instance[c.peers[i][k]]
  {
    assert forall k :: 0 <= k < |c.peers[i]| ==> c.peers[i][k] in ToSet(c.peers[i]);
    seq(|c.peers[i]|, k requires 0 <= k < |c.peers[i]| => c.instance[c.peers[i][k]])
  }

  lemma EntryOf(c: Cluster, s: State, i: string, k: int)
    requires ValidCluster(c) && SaneState(c, s) && i in c.nodes && 0 <= k < |c.peers[i]|
    ensures Slot(c, i, k) && c.peers[i][k] in c.nodes && c.peers[i][k] != i && Sane(c, c.peers[i][k], s[i][k])
  {
    assert Slot(c, i, k);
    PeerIsNode(c, i, k);
  }

  lemma PeersPlusMe(c: Cluster, i: string)
    requires ValidCluster(c) && i in c.nodes
    ensures |c.nodes| == 1 + |c.peers[i]|
  {
    DistinctSize(c.peers[i]);
    assert c.nodes == (c.nodes - {i}) + {i};
  }

  /** Every node computes, and so declares, the same cluster size throughout. */
  lemma SizeIsShared(c: Cluster, s: State, i: string)
    requires ValidCluster(c) && SaneState(c, s) && i in c.nodes
    ensures SizeOf(s[i]) == |c.nodes|
  {
    var ids, table := Ids(c, i), s[i];
    forall k | 0 <= k < |table|
      ensures StandsFor(table[k], ids[k])
    {
      EntryOf(c, s, i, k);
    }
    EveryEntryCounted(table, ids);
    PeersPlusMe(c, i);
  }

  /** Self-listings and several addresses per node do not change it: once every
      address is identified, a table over any list of addresses that covers the
      cluster counts each node once. */
  lemma SizeOnceIdentified(nodes: set<string>, instance: map<string, string>, i: string, behind: seq<string>, table: seq<Peer>)
    requires instance.Keys == nodes && i in nodes && |behind| == |table| && ToSet(behind) + {i} == nodes
    requires forall a, b :: a in nodes && b in nodes && instance[a] == instance[b] ==> a == b
    requires forall k :: 0 <= k < |table| ==> behind[k] in nodes && (table[k].status == Self <==> behind[k] == i)
    requires forall k :: 0 <= k < |table| && behind[k] != i ==> table[k].instance == Some(instance[behind[k]])
    ensures SizeOf(table) == |nodes|
  {
    NoneUnidentified(table);
    var others := nodes - {i};
    forall x ensures x in Instances(table) <==> exists j :: j in others && instance[j] == x {
      InstancesHold(table, x);
      if x in Instances(table) {
        var p :| p in table && x in ProcessOf(p);
        var k :| 0 <= k < |table| && table[k] == p;
        assert behind[k] in others && instance[behind[k]] == x;
      }
      if j :| j in others && instance[j] == x {
        assert j in ToSet(behind);
        var k :| 0 <= k < |behind| && behind[k] == j;
        assert table[k] in table && x in ProcessOf(table[k]);
      }
    }
    ImageSize(others, instance, Instances(table));
    assert nodes == others + {i};
  }

  lemma {:induction false} NoneUnidentified(table: seq<Peer>)
    requires forall k :: 0 <= k < |table| ==> table[k].status == Self || table[k].instance.Some?
    ensures Unidentified(table) == 0
    decreases |table|
  {
    if table != [] {
      NoneUnidentified(table[..|table| - 1]);
    }
  }

  lemma {:induction false} ImageSize(a: set<string>, f: map<string, string>, b: set<string>)
    requires a <= f.Keys && forall x :: x in b <==> exists j :: j in a && f[j] == x
    requires forall i, j :: i in a && j in a && f[i] == f[j] ==> i == j
    ensures |b| == |a|
    decreases |a|
  {
    if a == {} {
      assert b == {};
    } else {
      var j :| j in a;
      var a', b' := a - {j}, b - {f[j]};
      forall x ensures x in b' <==> exists i :: i in a' && f[i] == x {
        if x in b' {
          var i :| i in a && f[i] == x;
          assert i in a';
        }
      }
      ImageSize(a', f, b');
      assert a == a' + {j} && b == b' + {f[j]};
    }
  }

  lemma {:induction false} DistinctSize(s: seq<string>)
    requires Distinct(s)
    ensures |ToSet(s)| == |s|
    decreases |s|
  {
    if s != [] {
      var init, x := s[..|s| - 1], s[|s| - 1];
      DistinctSize(init);
      assert ToSet(s) == ToSet(init) + {x};
      assert x !in ToSet(init);
    }
  }

  /** A live peer is one of the entries, and speaks for the node behind it. */
  lemma LiveEntry(c: Cluster, s: State, i: string, p: Peer) returns (k: int)
    requires ValidCluster(c) && SaneState(c, s) && i in c.nodes && p in Live(NodeOf(c, s, i))
    ensures Slot(c, i, k) && p == s[i][k] && p.status == Agreed && c.peers[i][k] in c.nodes && Sane(c, c.peers[i][k], p)
  {
    var nd := NodeOf(c, s, i);
    k :| 0 <= k < |nd.table| && p == nd.table[k];
    assert Slot(c, i, k);
    PeerIsNode(c, i, k);
  }

  /** Whatever a node gossips names only real nodes. */
  lemma GossipNamesNodes(c: Cluster, s: State, i: string)
    requires ValidCluster(c) && SaneState(c, s) && i in c.nodes
    ensures ToSet(AgreeingNames(Live(NodeOf(c, s, i)))) == NameSet(Live(NodeOf(c, s, i)))
    ensures NameSet(Live(NodeOf(c, s, i))) <= c.nodes
    ensures EligibleOf(NodeOf(c, s, i)) <= c.nodes && AvailableSet(NodeOf(c, s, i)) <= c.nodes
  {
    var ps := Live(NodeOf(c, s, i));
    NamesAreTheSet(ps);
    forall p | p in ps ensures NameOf(p) in c.nodes && MutualOf(p) <= c.nodes {
      var k := LiveEntry(c, s, i, p);
      PeerIsNode(c, i, k);
    }
  }

  /** An answer that tells the truth about node j. */
  ghost predicate Truthful(c: Cluster, j: string, o: Observation)
    requires j in c.instance
  {
    && o.name == Some(j) && o.jobSetId == Some(c.jobSet) && o.scheme == Some(SCHEME) && o.instance == Some(c.instance[j])
    && o.reportsMembers && o.size == Some(|c.nodes|) && o.distribution == Some(c.distribution) && o.elect == Some(c.elect)
    && o.mutual.Some? && o.mutual.value <= c.nodes && o.vouched.Some? && o.vouched.value <= c.nodes
  }

  lemma PayloadIsTruthful(c: Cluster, s: State, j: string)
    requires ValidCluster(c) && SaneState(c, s) && j in c.nodes
    ensures Truthful(c, j, Payload(c, s, j))
  {
    SizeIsShared(c, s, j);
    GossipNamesNodes(c, s, j);
  }

  /** A truthful answer is recorded as it is, and agrees. */
  lemma RecordsTruth(c: Cluster, i: string, j: string, e: Peer, o: Observation)
    requires i in c.instance && j in c.instance && i != j && Truthful(c, j, o)
    ensures var t := AfterSuccess(e, o, c.jobSet, Me(c, i), c.driftAfter);
            && Sane(c, j, t) && t.status == Agreed
            && t.members == o.members && t.mutual == o.mutual && t.vouched == o.vouched
  {
  }

  lemma SaneAfterFailure(c: Cluster, j: string, e: Peer, untrusted: bool)
    requires j in c.instance && Sane(c, j, e)
    ensures Sane(c, j, AfterFailure(e, untrusted)) && AfterFailure(e, untrusted).status in {Unreachable, Untrusted}
  {
  }

  lemma SanePoll(c: Cluster, s: State, p: Poll)
    requires ValidCluster(c) && SaneState(c, s) && Slot(c, p.poller, p.slot)
    ensures c.peers[p.poller][p.slot] in c.nodes && SaneState(c, Apply(c, s, p))
  {
    PeerIsNode(c, p.poller, p.slot);
    var j, e := c.peers[p.poller][p.slot], s[p.poller][p.slot];
    assert Sane(c, j, e);
    PayloadIsTruthful(c, s, j);
    RecordsTruth(c, p.poller, j, e, Payload(c, s, j));
    SaneAfterFailure(c, j, e, p.untrusted);
  }

  lemma {:induction false} SaneRun(c: Cluster, s: State, ps: seq<Poll>)
    requires ValidCluster(c) && SaneState(c, s) && ValidPolls(c, ps)
    ensures SaneState(c, ApplyAll(c, s, ps))
    decreases |ps|
  {
    if ps != [] {
      assert ps[|ps| - 1] in ps;
      assert forall p :: p in ps[..|ps| - 1] ==> p in ps;
      SaneRun(c, s, ps[..|ps| - 1]);
      SanePoll(c, ApplyAll(c, s, ps[..|ps| - 1]), ps[|ps| - 1]);
    }
  }

  lemma FreshIsSane(c: Cluster, s: State)
    requires ValidCluster(c) && Fresh(c, s)
    ensures SaneState(c, s)
  {
  }

  /** Never-skip: after any polls in any order, succeeding or failing at will,
      the lowest-named node elects itself available leader and the node ranked
      first for a job owns it. */
  lemma NeverSkips(c: Cluster, s: State, ps: seq<Poll>, first: string, h: Hash, job: string, top: string)
    requires ValidCluster(c) && Fresh(c, s) && ValidPolls(c, ps)
    requires Wins(c.nodes, Less, first) && Wins(c.nodes, Outranks(h, job), top)
    ensures var t := ApplyAll(c, s, ps);
            && AvailableLeader(NodeOf(c, t, first)) == first
            && AvailableOwner(NodeOf(c, t, top), h, job) == top
  {
    FreshIsSane(c, s);
    SaneRun(c, s, ps);
    var t := ApplyAll(c, s, ps);
    LessIsStrictTotal();
    OutranksIsStrictTotal(h, job);
    GossipNamesNodes(c, t, first);
    GossipNamesNodes(c, t, top);
    WinnerIsUnique(AvailableSet(NodeOf(c, t, first)), Less, AvailableLeader(NodeOf(c, t, first)), first);
    WinnerIsUnique(AvailableSet(NodeOf(c, t, top)), Outranks(h, job), AvailableOwner(NodeOf(c, t, top), h, job), top);
  }
}
