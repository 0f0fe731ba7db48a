/** The conditional /peer exchange of cronstable/cluster.py: ETags, 304 replays
    (sections 8.8.3, 13.1.2 and 15.4.5 of RFC 9110) and the server's build-once
    response cache, proved invisible to everything the election reads. */
module Conditional {
  import opened Wrappers
  import opened PeerTable
  import opened Election
  import Gossip
  import RebootGossip

  // ---------------------------------------------------------------------
  // The serving node
  // ---------------------------------------------------------------------

  /** _derived_state_key plus the further inputs _handle_peer keys on. */
  datatype Key = Key(gen: nat, configured: nat, me: Identity, live: string, ranId: Option<string>, ranCount: nat, provider: nat)

  /** A /peer body: the observation a poller reads off it, and each job's live
      countdown to its next fire. */
  datatype Body = Body(obs: Observation, countdown: map<string, int>)

  /** A strong tag over the change-relevant content, taken as injective: the
      hashed content itself, countdowns replaced by absolute fire times. */
  datatype ETag = ETag(obs: Observation, fires: map<string, int>)

  datatype Built = Built(key: Key, at: int, body: Body, tag: ETag)

  /** The process answering at the polled address. */
  datatype Server = Server(
    gen: nat, node: Node, live: string, ranId: Option<string>, ran: set<string>,
    provider: nat, fires: map<string, int>, built: Option<Built>)

  /** PEER_RESPONSE_CACHE_TTL, in milliseconds of the monotonic clock. */
  const TTL := 1000

  function StateKey(s: Server): Key {
    Key(s.gen, |s.node.table|, s.node.me, s.live, s.ranId, |s.ran|, s.provider)
  }

  /** advertised_ran_jobs. */
  function AdvertisedRuns(s: Server): set<string> {
    RebootGossip.AdvertisedFrom(s.live, s.ran, s.ranId,
      set p | p in s.node.table :: RebootGossip.Entry(p.status == Agreed, p.jobSetId, p.ran))
  }

  /** _peer_payload: what the election reads, and the countdowns. */
  function Payload(s: Server, now: int): Body {
    Body(Gossip.Observed(s.node, s.live, AdvertisedRuns(s)), map j | j in s.fires :: s.fires[j] - now)
  }

  /** _peer_etag. */
  function TagOf(b: Body, now: int): ETag {
    ETag(b.obs, map j | j in b.countdown :: b.countdown[j] + now)
  }

  datatype Response = NotModified(tag: ETag) | Full(body: Body, tag: ETag)

  /** _handle_peer: re-serve the built pair while its key holds and it is young
      enough, and answer 304 when the poller already holds that content. */
  function Handle(s: Server, now: int, mono: int, ifNoneMatch: Option<ETag>): (Server, Response) {
    var current := Payload(s, now);
    var pair :=
      if s.built.Some? && s.built.value.key == StateKey(s) && mono - s.built.value.at <= TTL then s.built.value
      else Built(StateKey(s), mono, current, TagOf(current, now));
    (s.(built := Some(pair)),
     if ifNoneMatch == Some(pair.tag) then NotModified(pair.tag) else Full(pair.body, pair.tag))
  }

  // ---------------------------------------------------------------------
  // The polling node
  // ---------------------------------------------------------------------

  /** Its entry for the address, and the last full body's tag and observation. */
  datatype Poller = Poller(me: Identity, driftAfter: int, entry: Peer, held: Option<(ETag, Observation)>)

  /** _observe_peer on a response: a 304 replays the held observation. */
  function Observe(p: Poller, r: Response, myId: string): Poller {
    match r
    case Full(body, tag) =>
      p.(entry := AfterSuccess(p.entry, body.obs, myId, p.me, p.driftAfter), held := Some((tag, body.obs)))
    case NotModified(_) =>
      if p.held.None? then p.(entry := AfterFailure(p.entry, false))
      else p.(entry := AfterSuccess(p.entry, p.held.value.1, myId, p.me, p.driftAfter))
  }

  // ---------------------------------------------------------------------
  // The two together, against a poller that is always sent a full fresh body
  // ---------------------------------------------------------------------

  datatype Event =
    | Poll(now: int, mono: int, myId: string)
    | Lost(untrusted: bool)                                      // a failed round
    | Write(table: seq<Peer>)                                    // any peer-field write at the server
    | Reload(live: string)
    | RanChanged(ranId: Option<string>, ran: set<string>)
    | Schedule(provider: nat, fires: map<string, int>)
    | Replaced(server: Server)                                   // a restart, or another process at the address

  datatype System = System(server: Server, poller: Poller)

  /** What happens at the server between polls; every write bumps the generation. */
  function ServerStep(s: Server, e: Event): Server {
    match e
    case Write(table) => s.(node := s.node.(table := table), gen := s.gen + 1)
    case Reload(live) => s.(live := live)
    case RanChanged(ranId, ran) => s.(ranId := ranId, ran := ran)
    case Schedule(provider, fires) => s.(provider := provider, fires := fires)
    case Replaced(server) => server.(built := None)
    case _ => s
  }

  function Step(y: System, e: Event): System {
    match e
    case Poll(now, mono, myId) =>
      var (server, r) := Handle(y.server, now, mono, if y.poller.held.Some? then Some(y.poller.held.value.0) else None);
      System(server, Observe(y.poller, r, myId))
    case Lost(untrusted) => y.(poller := y.poller.(entry := AfterFailure(y.poller.entry, untrusted)))
    case _ => y.(server := ServerStep(y.server, e))
  }

  function Run(y: System, es: seq<Event>): System
    decreases |es|
  {
    if es == [] then y else Step(Run(y, es[..|es| - 1]), es[|es| - 1])
  }

  /** The same poller when every poll is answered with a body built on the spot. */
  function Plain(y: System, es: seq<Event>): Peer
    decreases |es|
  {
    if es == [] then y.poller.entry else
      var e, before := es[|es| - 1], Plain(y, es[..|es| - 1]);
      var server := Run(y, es[..|es| - 1]).server;
      match e
      case Poll(now, _, myId) =>
        AfterSuccess(before, Payload(server, now).obs, myId, y.poller.me, y.poller.driftAfter)
      case Lost(untrusted) => AfterFailure(before, untrusted)
      case _ => before
  }

  /** The two entries agree on everything but the @reboot-ran gossip. */
  predicate SameElection(a: Peer, b: Peer) {
    a.(ran := None) == b.(ran := None)
  }

  predicate SameObservation(a: Observation, b: Observation) {
    a.(ran := None) == b.(ran := None)
  }

  /** The built pair is current for its key. */
  predicate BuiltIsCurrent(s: Server) {
    s.built.Some? ==>
      var b := s.built.value;
      && b.tag.obs == b.body.obs && b.key.gen <= s.gen
      && (b.key.gen == s.gen ==> SameObservation(b.body.obs, Gossip.Observed(Node(b.key.me, s.node.table), b.key.live, {})))
  }

  /** Besides, every held observation is the one its tag hashes. */
  predicate Consistent(y: System) {
    && BuiltIsCurrent(y.server)
    && (y.poller.held.Some? ==> y.poller.held.value.0.obs == y.poller.held.value.1)
  }

  /** Whatever pair is served, its observation is the current one, and a 304 is
      only sent for a tag the poller presented. */
  lemma ServedIsCurrent(s: Server, now: int, mono: int, ifNoneMatch: Option<ETag>)
    requires BuiltIsCurrent(s)
    ensures var (t, r) := Handle(s, now, mono, ifNoneMatch);
            && BuiltIsCurrent(t) && SameObservation(r.tag.obs, Payload(s, now).obs)
            && (r.Full? ==> r.body.obs == r.tag.obs)
            && (r.NotModified? ==> ifNoneMatch == Some(r.tag))
  {
    var current := Payload(s, now);
    assert SameObservation(current.obs, Gossip.Observed(s.node, s.live, {}));
    assert s.node == Node(s.node.me, s.node.table);
    assert TagOf(current, now).obs == current.obs;
  }

  lemma SameInSameOut(a: Peer, b: Peer, o: Observation, q: Observation, myId: string, me: Identity, driftAfter: int)
    requires SameElection(a, b) && SameObservation(o, q)
    ensures SameElection(AfterSuccess(a, o, myId, me, driftAfter), AfterSuccess(b, q, myId, me, driftAfter))
  {
    assert o.name == q.name && o.instance == q.instance && o.scheme == q.scheme && o.jobSetId == q.jobSetId;
    assert SameElection(PeerTable.Absorb(a, o), PeerTable.Absorb(b, q)) && a.streak == b.streak;
  }

  /** However the server answers, the poller ends up as after a fresh full body. */
  lemma AnswerIsFresh(y: System, before: Peer, now: int, mono: int, myId: string)
    requires Consistent(y) && SameElection(y.poller.entry, before)
    ensures var t := Step(y, Poll(now, mono, myId));
            Consistent(t) && t.poller.me == y.poller.me && t.poller.driftAfter == y.poller.driftAfter &&
            SameElection(t.poller.entry,
              AfterSuccess(before, Payload(y.server, now).obs, myId, y.poller.me, y.poller.driftAfter))
  {
    var p := y.poller;
    var inm := if p.held.Some? then Some(p.held.value.0) else None;
    ServedIsCurrent(y.server, now, mono, inm);
    var r := Handle(y.server, now, mono, inm).1;
    SameInSameOut(p.entry, before, r.tag.obs, Payload(y.server, now).obs, myId, p.me, p.driftAfter);
  }

  lemma StepKeepsConsistent(y: System, before: Peer, e: Event)
    requires Consistent(y) && SameElection(y.poller.entry, before)
    ensures Consistent(Step(y, e))
    ensures Step(y, e).poller.me == y.poller.me && Step(y, e).poller.driftAfter == y.poller.driftAfter
  {
    if e.Poll? {
      AnswerIsFresh(y, before, e.now, e.mono, e.myId);
    }
  }

  /** Caching and conditional rounds are invisible to the election: over every
      sequence of polls, failures, writes, reloads and restarts, the entry has
      the status, identity, members, mutual, vouched, size and policy fields it
      would have with plain full bodies. */
  lemma {:induction false} ExchangeIsInvisible(y: System, es: seq<Event>)
    requires y.server.built == None && y.poller.held == None
    ensures SameElection(Run(y, es).poller.entry, Plain(y, es)) && Consistent(Run(y, es))
    ensures Run(y, es).poller.me == y.poller.me && Run(y, es).poller.driftAfter == y.poller.driftAfter
    decreases |es|
  {
    if es != [] {
      var init, e := es[..|es| - 1], es[|es| - 1];
      ExchangeIsInvisible(y, init);
      var z := Run(y, init);
      StepKeepsConsistent(z, Plain(y, init), e);
      if e.Poll? {
        AnswerIsFresh(z, Plain(y, init), e.now, e.mono, e.myId);
      }
    }
  }
}
