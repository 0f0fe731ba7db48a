/** The peer table as the process holds it (cronstable/cluster.py): PeerState
    objects updated field by field, a generation counter every field write
    advances, and the memoized derivations keyed on that generation. */
module View {
  import opened Wrappers
  import opened PeerTable
  import opened Election

  /** PeerState._mutation_generation, shared by every PeerState of the process. */
  class Generation {
    var n: nat

    constructor ()
      ensures n == 0
    {
      n := 0;
    }
  }

  class PeerState {
    var status: Status
    var jobSetId: Option<string>
    var name: Option<string>
    var instance: Option<string>
    var selfConfirmed: bool
    var streak: nat
    var members: Option<seq<Member>>
    var reportsMembers: bool
    var size: Option<int>
    var distribution: Option<string>
    var elect: Option<bool>
    var ran: Option<set<string>>
    var mutual: Option<set<string>>
    var vouched: Option<set<string>>

    constructor ()
      ensures Record() == FRESH
    {
      status, jobSetId, name, instance := Unknown, None, None, None;
      selfConfirmed, streak, members, reportsMembers := false, 0, None, true;
      size, distribution, elect, ran, mutual, vouched := None, None, None, None, None, None;
    }

    /** Every field set to that of the given record. */
    method Assign(r: Peer)
      modifies this
      ensures Record() == r
    {
      status, jobSetId, name, instance := r.status, r.jobSetId, r.name, r.instance;
      selfConfirmed, streak, members, reportsMembers := r.selfConfirmed, r.streak, r.members, r.reportsMembers;
      size, distribution, elect, ran, mutual, vouched := r.size, r.distribution, r.elect, r.ran, r.mutual, r.vouched;
    }

    function Record(): Peer
      reads this
    {
      Peer(status, jobSetId, name, instance, selfConfirmed, streak, members, reportsMembers,
           size, distribution, elect, ran, mutual, vouched)
    }
  }

  /** The records of a list of entries, in order. */
  function Records(ss: seq<PeerState>): (t: seq<Peer>)
    reads ss
    ensures |t| == |ss| && forall k :: 0 <= k < |ss| ==> t[k] == ss[k].Record()
  {
    if ss == [] then [] else Records(ss[..|ss| - 1]) + [ss[|ss| - 1].Record()]
  }

  /** ClusterView: one entry per configured host, in configured order. */
  class ClusterView {
    const states: seq<PeerState>
    const driftAfter: int
    const gen: Generation

    ghost predicate Valid() {
      forall a, b :: 0 <= a < b < |states| ==> states[a] != states[b]
    }

    constructor (hosts: nat, driftAfter: int, gen: Generation)
      modifies gen
      ensures Valid() && this.gen == gen && this.driftAfter == driftAfter
      ensures |states| == hosts && forall k :: 0 <= k < hosts ==> fresh(states[k]) && states[k].Record() == FRESH
      ensures hosts > 0 ==> gen.n > old(gen.n)
    {
      var ss: seq<PeerState> := [];
      for i := 0 to hosts
        invariant |ss| == i && forall k :: 0 <= k < i ==> fresh(ss[k]) && ss[k].Record() == FRESH
        invariant forall a, b :: 0 <= a < b < i ==> ss[a] != ss[b]
        invariant gen.n == old(gen.n) + 14 * i
      {
        var p := new PeerState();
        gen.n := gen.n + 14;  // dataclass construction assigns every field
        ss := ss + [p];
      }
      states := ss;
      this.driftAfter := driftAfter;
      this.gen := gen;
    }

    /** The twelve fields record_success overwrites before it classifies. */
    method AbsorbFields(slot: nat, o: Observation)
      requires Valid() && slot < |states|
      modifies states[slot], gen
      ensures states[slot].Record() == Absorb(old(states[slot].Record()), o)
      ensures gen.n == old(gen.n) + 12
    {
      var peer := states[slot];
      peer.jobSetId, peer.name, peer.instance := o.jobSetId, o.name, o.instance;
      peer.members, peer.reportsMembers, peer.ran := o.members, o.reportsMembers, o.ran;
      peer.size, peer.mutual, peer.vouched := o.size, o.mutual, o.vouched;
      peer.distribution, peer.elect, peer.selfConfirmed := o.distribution, o.elect, false;
      gen.n := gen.n + 12;
    }

    /** record_success: the entry becomes AfterSuccess of itself, and the field
        writes on the way advance the generation, one each. */
    method RecordSuccess(slot: nat, o: Observation, myId: string, me: Identity)
      requires Valid() && slot < |states|
      modifies states[slot], gen
      ensures states[slot].Record() == AfterSuccess(old(states[slot].Record()), o, myId, me, driftAfter)
      ensures gen.n > old(gen.n)
    {
      var peer := states[slot];
      AbsorbFields(slot, o);
      if o.name.Some? && o.name.value == me.name {
        if o.instance.Some? && o.instance.value != me.instance {
          peer.status, gen.n := Conflict, gen.n + 1;
        } else {
          peer.status, peer.selfConfirmed, peer.streak, gen.n := Self, true, 0, gen.n + 3;
        }
      } else if o.scheme.Some? && o.scheme.value != SCHEME {
        peer.status, gen.n := Drifted, gen.n + 1;
      } else if o.jobSetId.Some? && o.jobSetId.value == myId {
        peer.status, peer.streak, gen.n := Agreed, 0, gen.n + 2;
      } else {
        peer.streak := peer.streak + 1;
        peer.status, gen.n := if peer.streak >= driftAfter then Drifted else Syncing, gen.n + 2;
      }
    }

    /** record_failure. */
    method RecordFailure(slot: nat, untrusted: bool)
      requires Valid() && slot < |states|
      modifies states[slot], gen
      ensures states[slot].Record() == AfterFailure(old(states[slot].Record()), untrusted)
      ensures gen.n > old(gen.n)
    {
      var peer := states[slot];
      peer.status := if peer.selfConfirmed then Self else if untrusted then Untrusted else Unreachable;
      peer.members, peer.ran, peer.mutual, peer.vouched, peer.reportsMembers := None, None, None, None, false;
      gen.n := gen.n + 6;
    }
  }

  // ---------------------------------------------------------------------
  // The memo
  // ---------------------------------------------------------------------

  /** The memoized zero-argument derivations. */
  datatype Derivation =
    | SizeD | LiveD | LiveNamesD | BridgeD | EligibleD | UnconfirmedD | ContendersD | LeaderD
    | AvailableLeaderD | SpreadD | AvailableMembersD | SizesD | PoliciesD

  datatype Derived =
    | Count(n: int) | Peers(ps: seq<Peer>) | NameList(list: seq<string>)
    | Names(names: set<string>) | Leader(leader: Option<string>) | Spread(quorate: bool, members: set<string>)
    | Sizes(sizes: set<int>) | Policies(policies: set<Divergence>)

  /** What a derivation computes from a table, with no cache anywhere. */
  ghost function Recompute(d: Derivation, nd: Node): Derived {
    match d
    case SizeD => Count(SizeOf(nd.table))
    case LiveD => Peers(Live(nd))
    case LiveNamesD => NameList(AgreeingNames(Live(nd)))
    case BridgeD => Names(Bridge(Live(nd), nd.me, Quorum(nd)))
    case EligibleD => Names(EligibleOf(nd))
    case UnconfirmedD => Names(Unconfirmed(Live(nd), nd.me, Quorum(nd)))
    case ContendersD => Names(Contenders(Live(nd), nd.me))
    case LeaderD => Leader(LeaderName(nd))
    case AvailableLeaderD => Leader(Some(AvailableLeader(nd)))
    case SpreadD => Spread(IsQuorate(nd), OwnerSet(nd))
    case AvailableMembersD => Names(AvailableSet(nd))
    case SizesD => Sizes(ConflictingSizes(nd.table, SizeOf(nd.table)))
    case PoliciesD => Policies(AllDivergences(nd.table, nd.me))
  }

  ghost function Recomputer(nd: Node): Derivation -> Derived {
    d => Recompute(d, nd)
  }

  /** Whatever the cache holds is what f gives. */
  ghost predicate Caches<D(!new), V>(cache: map<D, V>, f: D -> V) {
    forall d :: d in cache ==> cache[d] == f(d)
  }

  lemma CachesOneMore<D(!new), V>(cache: map<D, V>, f: D -> V, d: D, v: V)
    requires Caches(cache, f) && v == f(d)
    ensures Caches(cache[d := v], f)
  {
  }

  lemma LeaderIsUnique(nd: Node, r: Option<string>)
    requires r.Some? <==> IsQuorate(nd)
    requires r.Some? ==> Wins({nd.me.name} + EligibleOf(nd), Less, r.value)
    ensures r == LeaderName(nd)
  {
    LessIsStrictTotal();
    if r.Some? {
      WinnerIsUnique({nd.me.name} + EligibleOf(nd), Less, r.value, LeaderName(nd).value);
    }
  }

  lemma AvailableLeaderIsUnique(nd: Node, m: string)
    requires Wins(AvailableSet(nd), Less, m)
    ensures m == AvailableLeader(nd)
  {
    LessIsStrictTotal();
    WinnerIsUnique(AvailableSet(nd), Less, m, AvailableLeader(nd));
  }

  lemma MembersAreAvailable(nd: Node)
    ensures {nd.me.name} + ToSet(AgreeingNames(Live(nd))) + Contenders(Live(nd), nd.me) == AvailableSet(nd)
  {
    NamesAreTheSet(Live(nd));
  }

  /** Nested derivations call strictly lower ranks. */
  function Rank(d: Derivation): nat {
    match d
    case SizeD => 0
    case LiveD => 1
    case LiveNamesD => 2
    case BridgeD => 3
    case ContendersD => 3
    case EligibleD => 4
    case UnconfirmedD => 5
    case LeaderD => 5
    case AvailableLeaderD => 4
    case SpreadD => 6
    case AvailableMembersD => 4
    case SizesD => 1
    case PoliciesD => 0
  }

  /** _derived_state_key. */
  datatype Key = Key(gen: nat, configured: nat, me: Identity)

  class Manager {
    const view: ClusterView
    var me: Identity
    var cacheKey: Option<Key>
    var cache: map<Derivation, Derived>

    constructor (view: ClusterView, me: Identity)
      requires view.Valid()
      ensures Valid() && this.view == view && this.me == me
    {
      this.view, this.me, cacheKey, cache := view, me, None, map[];
    }

    ghost function Repr(): set<object>
      reads this
    {
      {this, view.gen} + (set p | p in view.states)
    }

    ghost function Now(): Node
      reads Repr()
    {
      Node(me, Records(view.states))
    }

    /** Whatever the cache holds for the current generation is what recomputing
        from the current table would give. */
    ghost predicate Valid()
      reads Repr()
    {
      && view.Valid()
      && (cacheKey.Some? ==>
        && cacheKey.value.gen <= view.gen.n
        && (cacheKey.value.gen == view.gen.n ==>
          Caches(cache, Recomputer(Node(cacheKey.value.me, Records(view.states))))))
    }

    /** A poll outcome recorded through the view keeps the cache sound. */
    method Observe(slot: nat, outcome: Event)
      requires Valid() && slot < |view.states|
      modifies view.states[slot], view.gen
      ensures Valid()
      ensures Records(view.states) ==
        old(Records(view.states))[slot := Step(old(view.states[slot].Record()), outcome, me, view.driftAfter)]
    {
      match outcome
      case Success(o, myId) => view.RecordSuccess(slot, o, myId, me);
      case Failure(untrusted) => view.RecordFailure(slot, untrusted);
    }

    /** Any fields of an entry written by anyone, or of an entry of another view of
        the process. */
    method OtherWrite(slot: nat, r: Peer, elsewhere: bool)
      requires Valid() && slot < |view.states|
      modifies view.states[slot], view.gen
      ensures Valid()
      ensures Records(view.states) == if elsewhere then old(Records(view.states)) else old(Records(view.states))[slot := r]
    {
      if !elsewhere {
        view.states[slot].Assign(r);
      }
      view.gen.n := view.gen.n + 1;
    }

    /** An identity scalar reassigned in place. */
    method Reidentify(who: Identity)
      requires Valid()
      modifies `me
      ensures Valid() && me == who
    {
      me := who;
    }

    /** An input changed since the cached round: drop every result together. */
    method Refresh()
      requires Valid()
      modifies `cacheKey, `cache
      ensures Valid() && cacheKey == Some(Key(view.gen.n, |view.states|, me))
    {
      var key := Key(view.gen.n, |view.states|, me);
      if cacheKey != Some(key) {
        cacheKey, cache := Some(key), map[];
      }
    }

    method Store(d: Derivation, v: Derived)
      requires Valid() && cacheKey == Some(Key(view.gen.n, |view.states|, me)) && v == Recomputer(Now())(d)
      modifies `cache
      ensures Valid()
    {
      ghost var nd := Now();
      CachesOneMore(cache, Recomputer(nd), d, v);
      cache := cache[d := v];
      assert Now() == nd;
    }

    /** A hit. */
    method Cached(d: Derivation) returns (v: Derived)
      requires Valid() && cacheKey == Some(Key(view.gen.n, |view.states|, me)) && d in cache
      ensures v == Recompute(d, Now())
    {
      v := cache[d];
    }

    /** A miss: compute, and keep the result for this key. */
    method Fill(d: Derivation) returns (v: Derived)
      requires Valid() && cacheKey == Some(Key(view.gen.n, |view.states|, me))
      modifies `cacheKey, `cache
      ensures Valid() && v == Recompute(d, Now()) && cacheKey == Some(Key(view.gen.n, |view.states|, me))
      decreases Rank(d), 2
    {
      v := Compute(d);
      Store(d, v);
    }

    /** _memoized_derived: the cached value, or a fresh one stored under the
        current key; either way what recomputing would return. */
    method Get(d: Derivation) returns (v: Derived)
      requires Valid()
      modifies `cacheKey, `cache
      ensures Valid() && v == Recompute(d, Now()) && cacheKey == Some(Key(view.gen.n, |view.states|, me))
      ensures Now() == old(Now())
      decreases Rank(d), 3
    {
      Refresh();
      if d in cache {
        v := Cached(d);
      } else {
        v := Fill(d);
      }
    }

    /** The undecorated derivations, reading one another through the memo. */
    method Compute(d: Derivation) returns (v: Derived)
      requires Valid()
      modifies `cacheKey, `cache
      ensures Valid() && v == Recompute(d, Now())
      ensures cacheKey == old(cacheKey) || cacheKey == Some(Key(view.gen.n, |view.states|, me))
      decreases Rank(d), 1
    {
      match d
      case SizeD => v := ComputeSize();
      case LiveD => v := ComputeLive();
      case LiveNamesD => v := ComputeLiveNames();
      case BridgeD => v := ComputeBridge();
      case ContendersD => v := ComputeContenders();
      case EligibleD => v := ComputeEligible();
      case UnconfirmedD => v := ComputeUnconfirmed();
      case LeaderD => v := ComputeLeader();
      case AvailableLeaderD => v := ComputeAvailableLeader();
      case SpreadD => v := ComputeSpread();
      case AvailableMembersD => v := ComputeAvailableMembers();
      case SizesD => v := ComputeSizes();
      case PoliciesD => v := ComputePolicies();
    }

    method ComputeSize() returns (v: Derived)
      requires Valid()
      ensures v == Recompute(SizeD, Now())
    {
      var n := ClusterSize(|view.states|, Records(view.states));
      return Count(n);
    }

    method ComputeLive() returns (v: Derived)
      requires Valid()
      modifies `cacheKey, `cache
      ensures Valid() && v == Recompute(LiveD, Now()) && cacheKey == Some(Key(view.gen.n, |view.states|, me))
      decreases Rank(LiveD), 0
    {
      var size := Get(SizeD);
      var live := AgreeingPeers(Records(view.states), me, size.n);
      return Peers(live);
    }

    method ComputeLiveNames() returns (v: Derived)
      requires Valid()
      modifies `cacheKey, `cache
      ensures Valid() && v == Recompute(LiveNamesD, Now()) && cacheKey == Some(Key(view.gen.n, |view.states|, me))
      decreases Rank(LiveNamesD), 0
    {
      var live := Get(LiveD);
      return NameList(AgreeingNames(live.ps));
    }

    method ComputeBridge() returns (v: Derived)
      requires Valid()
      modifies `cacheKey, `cache
      ensures Valid() && v == Recompute(BridgeD, Now()) && cacheKey == Some(Key(view.gen.n, |view.states|, me))
      decreases Rank(BridgeD), 0
    {
      var live := Get(LiveD);
      var size := Get(SizeD);
      var bridge := BridgeCandidates(live.ps, me, QuorumSize(size.n));
      return Names(bridge);
    }

    method ComputeContenders() returns (v: Derived)
      requires Valid()
      modifies `cacheKey, `cache
      ensures Valid() && v == Recompute(ContendersD, Now()) && cacheKey == Some(Key(view.gen.n, |view.states|, me))
      decreases Rank(ContendersD), 0
    {
      var live := Get(LiveD);
      return Names(Contenders(live.ps, me));
    }

    method ComputeEligible() returns (v: Derived)
      requires Valid()
      modifies `cacheKey, `cache
      ensures Valid() && v == Recompute(EligibleD, Now()) && cacheKey == Some(Key(view.gen.n, |view.states|, me))
      decreases Rank(EligibleD), 0
    {
      ghost var nd := Now();
      var live := Get(LiveD);
      var size := Get(SizeD);
      var bridge := Get(BridgeD);
      v := Names(ConfirmedDirect(live.ps, QuorumSize(size.n)) + bridge.names);
      assert v == Recompute(EligibleD, nd);
    }

    method ComputeUnconfirmed() returns (v: Derived)
      requires Valid()
      modifies `cacheKey, `cache
      ensures Valid() && v == Recompute(UnconfirmedD, Now()) && cacheKey == Some(Key(view.gen.n, |view.states|, me))
      decreases Rank(UnconfirmedD), 0
    {
      ghost var nd := Now();
      var live := Get(LiveD);
      var size := Get(SizeD);
      var eligible := Get(EligibleD);
      assert eligible.names == Eligible(live.ps, nd.me, QuorumSize(size.n));
      var contenders := UnconfirmedContenders(live.ps, me, QuorumSize(size.n), eligible.names);
      v := Names(contenders);
      assert v == Recompute(UnconfirmedD, nd);
    }

    method ComputeLeader() returns (v: Derived)
      requires Valid()
      modifies `cacheKey, `cache
      ensures Valid() && v == Recompute(LeaderD, Now()) && cacheKey == Some(Key(view.gen.n, |view.states|, me))
      decreases Rank(LeaderD), 0
    {
      ghost var nd := Now();
      var names := Get(LiveNamesD);
      var size := Get(SizeD);
      var eligible := Get(EligibleD);
      var leader := ElectLeader(me.name, names.list, size.n, eligible.names);
      LeaderIsUnique(nd, leader);
      v := Leader(leader);
    }

    method ComputeAvailableLeader() returns (v: Derived)
      requires Valid()
      modifies `cacheKey, `cache
      ensures Valid() && v == Recompute(AvailableLeaderD, Now()) && cacheKey == Some(Key(view.gen.n, |view.states|, me))
      decreases Rank(AvailableLeaderD), 0
    {
      ghost var nd := Now();
      var names := Get(LiveNamesD);
      var contenders := Get(ContendersD);
      MembersAreAvailable(nd);
      var leader := MinName({me.name} + ToSet(names.list) + contenders.names);
      AvailableLeaderIsUnique(nd, leader);
      v := Leader(Some(leader));
    }

    method ComputeSpread() returns (v: Derived)
      requires Valid()
      modifies `cacheKey, `cache
      ensures Valid() && v == Recompute(SpreadD, Now()) && cacheKey == Some(Key(view.gen.n, |view.states|, me))
      decreases Rank(SpreadD), 0
    {
      ghost var nd := Now();
      var names := Get(LiveNamesD);
      var size := Get(SizeD);
      var eligible := Get(EligibleD);
      var unconfirmed := Get(UnconfirmedD);
      v := Spread(1 + |names.list| >= QuorumSize(size.n), {me.name} + eligible.names + unconfirmed.names);
      assert v == Recompute(SpreadD, nd);
    }

    method ComputeAvailableMembers() returns (v: Derived)
      requires Valid()
      modifies `cacheKey, `cache
      ensures Valid() && v == Recompute(AvailableMembersD, Now()) && cacheKey == Some(Key(view.gen.n, |view.states|, me))
      decreases Rank(AvailableMembersD), 0
    {
      ghost var nd := Now();
      var names := Get(LiveNamesD);
      var contenders := Get(ContendersD);
      MembersAreAvailable(nd);
      v := Names({me.name} + ToSet(names.list) + contenders.names);
      assert v == Recompute(AvailableMembersD, nd);
    }

    method ComputeSizes() returns (v: Derived)
      requires Valid()
      modifies `cacheKey, `cache
      ensures Valid() && v == Recompute(SizesD, Now()) && cacheKey == Some(Key(view.gen.n, |view.states|, me))
      decreases Rank(SizesD), 0
    {
      var size := Get(SizeD);
      return Sizes(ConflictingSizes(Records(view.states), size.n));
    }

    method ComputePolicies() returns (v: Derived)
      requires Valid()
      ensures v == Recompute(PoliciesD, Now())
    {
      var divergences := ConflictingPolicies(Records(view.states), me);
      return Policies(divergences);
    }
  }

  // ---------------------------------------------------------------------
  // Any interleaving of writes and memoized reads
  // ---------------------------------------------------------------------

  datatype Op =
    | Outcome(slot: nat, outcome: Event)
    | Write(slot: nat, r: Peer, elsewhere: bool)
    | Rename(who: Identity)
    | Read(d: Derivation)

  /** The reads of an interleaving when nothing is ever cached. */
  ghost function Uncached(nd: Node, driftAfter: int, ops: seq<Op>): seq<Derived>
    requires forall op :: op in ops && (op.Outcome? || op.Write?) ==> op.slot < |nd.table|
    decreases |ops|
  {
    if ops == [] then [] else
      assert ops[0] in ops && forall op :: op in ops[1..] ==> op in ops;
      match ops[0]
      case Outcome(k, e) => Uncached(nd.(table := nd.table[k := Step(nd.table[k], e, nd.me, driftAfter)]), driftAfter, ops[1..])
      case Write(k, r, elsewhere) =>
        Uncached(if elsewhere then nd else nd.(table := nd.table[k := r]), driftAfter, ops[1..])
      case Rename(who) => Uncached(nd.(me := who), driftAfter, ops[1..])
      case Read(d) => [Recompute(d, nd)] + Uncached(nd, driftAfter, ops[1..])
  }

  /** Every memoized read of every interleaving returns the uncached value. */
  method Interleave(m: Manager, ops: seq<Op>) returns (values: seq<Derived>)
    requires m.Valid()
    requires forall op :: op in ops && (op.Outcome? || op.Write?) ==> op.slot < |m.view.states|
    modifies m, m.view.gen, m.view.states
    ensures m.Valid() && values == Uncached(old(m.Now()), m.view.driftAfter, ops)
    decreases |ops|
  {
    if ops == [] {
      return [];
    }
    assert ops[0] in ops && forall op :: op in ops[1..] ==> op in ops;
    var first := [];
    match ops[0] {
      case Outcome(k, e) => m.Observe(k, e);
      case Write(k, r, elsewhere) => m.OtherWrite(k, r, elsewhere);
      case Rename(who) => m.Reidentify(who);
      case Read(d) =>
        var v := m.Get(d);
        first := [v];
    }
    var rest := Interleave(m, ops[1..]);
    values := first + rest;
  }
}
