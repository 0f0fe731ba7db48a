/** The election of cronstable/cluster.py: from the mutually agreeing peers to
    bridge candidates, eligible candidates, vouched contenders, and the leader or
    per-job rendezvous owner. */
module Election {
  import opened Wrappers
  import opened PeerTable

  // ---------------------------------------------------------------------
  // Picking one name out of a set
  // ---------------------------------------------------------------------

  /** Python's ordering of strings. */
  predicate Less(a: string, b: string) {
    b != [] && (a == [] || a[0] < b[0] || (a[0] == b[0] && Less(a[1..], b[1..])))
  }

  type Order = (string, string) -> bool

  ghost predicate StrictTotal(r: Order) {
    && (forall a :: !r(a, a))
    && (forall a, b :: r(a, b) || a == b || r(b, a))
    && (forall a, b, c :: r(a, b) && r(b, c) ==> r(a, c))
  }

  /** m comes first in s under r. */
  ghost predicate Wins(s: set<string>, r: Order, m: string) {
    m in s && forall x :: x in s ==> x == m || r(m, x)
  }

  lemma {:induction false} LessTrichotomy(a: string, b: string)
    ensures !Less(a, a) && (Less(a, b) || a == b || Less(b, a))
    decreases |a|
  {
    if a != [] {
      LessTrichotomy(a[1..], if b == [] then [] else b[1..]);
      if b != [] && a[0] == b[0] && a[1..] == b[1..] {
        assert a == [a[0]] + a[1..] && b == [b[0]] + b[1..];
      }
    }
  }

  lemma {:induction false} LessTransitive(a: string, b: string, c: string)
    requires Less(a, b) && Less(b, c)
    ensures Less(a, c)
    decreases |b|
  {
    if a != [] && a[0] == b[0] == c[0] {
      LessTransitive(a[1..], b[1..], c[1..]);
    }
  }

  lemma LessIsStrictTotal()
    ensures StrictTotal(Less)
  {
    forall a, b ensures !Less(a, a) && (Less(a, b) || a == b || Less(b, a)) {
      LessTrichotomy(a, b);
    }
    forall a, b, c | Less(a, b) && Less(b, c) ensures Less(a, c) {
      LessTransitive(a, b, c);
    }
  }

  lemma WinsStep(s: set<string>, r: Order, m: string, x: string)
    requires StrictTotal(r) && Wins(s, r, m)
    ensures Wins(s + {x}, r, if r(x, m) then x else m)
  {
    forall y | y in s + {x} ensures var w := if r(x, m) then x else m; y == w || r(w, y) {
      if y in s && r(x, m) {
        assert y == m || r(m, y);
      }
    }
  }

  lemma {:induction false} WinnerExists(s: set<string>, r: Order)
    requires StrictTotal(r) && s != {}
    ensures exists m :: Wins(s, r, m)
    decreases |s|
  {
    var x :| x in s;
    var rest := s - {x};
    if rest == {} {
      assert s == {x};
      assert Wins(s, r, x);
    } else {
      WinnerExists(rest, r);
      var m :| Wins(rest, r, m);
      assert s == rest + {x};
      WinsStep(rest, r, m, x);
    }
  }

  lemma WinnerIsUnique(s: set<string>, r: Order, m: string, n: string)
    requires StrictTotal(r) && Wins(s, r, m) && Wins(s, r, n)
    ensures m == n
  {
    assert m == n || (r(m, n) && r(n, m) && !r(m, m));
  }

  ghost function Winner(s: set<string>, r: Order): (m: string)
    requires StrictTotal(r) && s != {}
    ensures Wins(s, r, m)
  {
    WinnerExists(s, r);
    var m :| Wins(s, r, m);
    m
  }

  function ToSet<T>(s: seq<T>): set<T> {
    set x | x in s
  }

  /** min over a set of names. */
  method MinName(names: set<string>) returns (m: string)
    requires names != {}
    ensures Wins(names, Less, m)
  {
    LessIsStrictTotal();
    m :| m in names;
    var seen := {m};
    var todo := names - seen;
    while todo != {}
      invariant seen + todo == names && Wins(seen, Less, m)
      decreases todo
    {
      var x :| x in todo;
      WinsStep(seen, Less, m, x);
      if Less(x, m) {
        m := x;
      }
      seen, todo := seen + {x}, todo - {x};
    }
  }

  /** sha256 and utf-8, as far as the election uses them. */
  datatype Hash = Hash(utf8: string -> seq<bv8>, digest: seq<bv8> -> nat)

  /** _hrw_score. */
  function Score(h: Hash, job: string, node: string): nat {
    h.digest(h.utf8(job) + [0] + h.utf8(node))
  }

  /** a outranks b for the job: a higher score, ties broken on the name. */
  function Outranks(h: Hash, job: string): Order {
    (a, b) => Score(h, job, a) > Score(h, job, b) || (Score(h, job, a) == Score(h, job, b) && Less(b, a))
  }

  lemma OutranksIsStrictTotal(h: Hash, job: string)
    ensures StrictTotal(Outranks(h, job))
  {
    LessIsStrictTotal();
  }

  /** _hrw_owner_bytes: the rendezvous winner, with name bytes pre-encoded; the
      same name max over (score, name) picks, whatever the list's order. */
  method HrwOwnerBytes(h: Hash, job: string, members: seq<string>, bytes: seq<seq<bv8>>) returns (best: string)
    requires members != [] && |bytes| == |members|
    requires forall i :: 0 <= i < |members| ==> bytes[i] == h.utf8(members[i])
    ensures Wins(ToSet(members), Outranks(h, job), best)
  {
    OutranksIsStrictTotal(h, job);
    var prefix := h.utf8(job) + [0];
    best := members[0];
    var bestScore := h.digest(prefix + bytes[0]);
    for i := 1 to |members|
      invariant Wins(ToSet(members[..i]), Outranks(h, job), best) && bestScore == Score(h, job, best)
    {
      assert ToSet(members[..i + 1]) == ToSet(members[..i]) + {members[i]};
      WinsStep(ToSet(members[..i]), Outranks(h, job), best, members[i]);
      var score := h.digest(prefix + bytes[i]);
      assert score == Score(h, job, members[i]);
      assert Outranks(h, job)(members[i], best) <==>
        score > bestScore || (score == bestScore && Less(best, members[i]));
      if score > bestScore || (score == bestScore && Less(best, members[i])) {
        best, bestScore := members[i], score;
      }
    }
    assert members[..|members|] == members;
  }

  // ---------------------------------------------------------------------
  // The derived sets, over the agreeing peers `ps`
  // ---------------------------------------------------------------------

  function QuorumSize(n: int): int {
    n / 2 + 1
  }

  function NameOf(p: Peer): string {
    if p.name.Some? then p.name.value else ""
  }

  function MutualOf(p: Peer): set<string> {
    if p.mutual.Some? then p.mutual.value else {}
  }

  function VouchedOf(p: Peer): set<string> {
    if p.vouched.Some? then p.vouched.value else {}
  }

  /** _agreeing_peer_names. */
  function AgreeingNames(ps: seq<Peer>): seq<string> {
    if ps == [] then []
    else
      var n := NameOf(ps[|ps| - 1]);
      AgreeingNames(ps[..|ps| - 1]) + (if n != "" then [n] else [])
  }

  function NameSet(ps: seq<Peer>): set<string> {
    set p | p in ps && NameOf(p) != "" :: NameOf(p)
  }

  lemma {:induction false} NamesAreTheSet(ps: seq<Peer>)
    ensures ToSet(AgreeingNames(ps)) == NameSet(ps)
    decreases |ps|
  {
    if ps != [] {
      var init, p := ps[..|ps| - 1], ps[|ps| - 1];
      NamesAreTheSet(init);
      assert ps == init + [p];
      assert forall q :: q in ps <==> q in init || q == p;
      assert forall n :: n in AgreeingNames(ps) <==> n in AgreeingNames(init) || (n == NameOf(p) && n != "");
      forall n ensures n in NameSet(ps) <==> n in NameSet(init) || (n == NameOf(p) && n != "") {
      }
    }
  }

  function Direct(me: Identity, ps: seq<Peer>): set<string> {
    {me.name} + NameSet(ps)
  }

  /** Every name some agreeing peer reports a two-way edge to. */
  function Heard(ps: seq<Peer>): set<string> {
    set p, n | p in ps && n in MutualOf(p) :: n
  }

  /** The agreeing peers that witness a two-way edge into n. */
  function Witnesses(ps: seq<Peer>, n: string): set<string> {
    set p | p in ps && p.name.Some? && n in MutualOf(p) :: p.name.value
  }

  function Bridge(ps: seq<Peer>, me: Identity, quorum: int): set<string> {
    set n | n in Heard(ps) && n !in Direct(me, ps) && |Witnesses(ps, n)| + 1 >= quorum
  }

  function ConfirmedDirect(ps: seq<Peer>, quorum: int): set<string> {
    set p | p in ps && NameOf(p) != "" && |MutualOf(p)| + 1 >= quorum :: NameOf(p)
  }

  function Eligible(ps: seq<Peer>, me: Identity, quorum: int): set<string> {
    ConfirmedDirect(ps, quorum) + Bridge(ps, me, quorum)
  }

  function Vouched(ps: seq<Peer>): set<string> {
    set p, n | p in ps && n in VouchedOf(p) :: n
  }

  function Unconfirmed(ps: seq<Peer>, me: Identity, quorum: int): set<string> {
    set n | n in Vouched(ps) && n != "" && n !in Direct(me, ps) + Eligible(ps, me, quorum)
  }

  function Contenders(ps: seq<Peer>, me: Identity): set<string> {
    set n | n in Heard(ps) && n != "" && n !in Direct(me, ps)
  }

  // ---------------------------------------------------------------------
  // The loops that build them
  // ---------------------------------------------------------------------

  /** The inner loop of _bridge_candidates: one witness's edges added. */
  method AddWitness(ws: map<string, set<string>>, names: set<string>, direct: set<string>, seer: string)
    returns (out: map<string, set<string>>)
    ensures out.Keys == ws.Keys + (names - direct)
    ensures forall n :: n in out ==>
      out[n] == (if n in ws then ws[n] else {}) + (if n in names - direct then {seer} else {})
  {
    out := ws;
    var todo := names;
    while todo != {}
      invariant todo <= names && out.Keys == ws.Keys + (names - todo - direct)
      invariant forall n :: n in out ==>
        out[n] == (if n in ws then ws[n] else {}) + (if n in names - todo - direct then {seer} else {})
      decreases todo
    {
      var n :| n in todo;
      todo := todo - {n};
      if n !in direct {
        out := out[n := (if n in out then out[n] else {}) + {seer}];
      }
    }
  }

  lemma WitnessesStep(ps: seq<Peer>, p: Peer, n: string)
    ensures Witnesses(ps + [p], n) ==
            Witnesses(ps, n) + (if p.name.Some? && n in MutualOf(p) then {p.name.value} else {})
    ensures n in Heard(ps + [p]) <==> n in Heard(ps) || n in MutualOf(p)
    ensures n in Vouched(ps + [p]) <==> n in Vouched(ps) || n in VouchedOf(p)
  {
    var all := ps + [p];
    assert forall q :: q in all <==> q in ps || q == p;
    assert p in all;
    assert forall x :: x in Witnesses(ps, n) ==> x in Witnesses(all, n);
  }

  lemma NotHeardNoWitness(ps: seq<Peer>, n: string)
    requires n !in Heard(ps)
    ensures Witnesses(ps, n) == {}
  {
  }

  /** _bridge_candidates: tally who witnesses whom, keep the quorate. */
  method BridgeCandidates(ps: seq<Peer>, me: Identity, quorum: int) returns (r: set<string>)
    requires forall p :: p in ps ==> p.name.Some?
    ensures r == Bridge(ps, me, quorum)
  {
    var direct := Direct(me, ps);
    var ws: map<string, set<string>> := map[];
    for i := 0 to |ps|
      invariant forall n :: n in ws <==> n in Heard(ps[..i]) && n !in direct
      invariant forall n :: n in ws ==> ws[n] == Witnesses(ps[..i], n)
    {
      ghost var before := ws;
      ws := AddWitness(ws, MutualOf(ps[i]), direct, NameOf(ps[i]));
      assert ps[i] in ps && ps[..i + 1] == ps[..i] + [ps[i]];
      forall n ensures n in ws <==> n in Heard(ps[..i + 1]) && n !in direct {
        WitnessesStep(ps[..i], ps[i], n);
      }
      forall n | n in ws ensures ws[n] == Witnesses(ps[..i + 1], n) {
        WitnessesStep(ps[..i], ps[i], n);
        if n !in before {
          NotHeardNoWitness(ps[..i], n);
        }
      }
    }
    assert ps[..|ps|] == ps;
    r := set n | n in ws && |ws[n]| + 1 >= quorum;
  }

  /** The loop of _unconfirmed_contenders, given the eligible candidates. */
  method UnconfirmedContenders(ps: seq<Peer>, me: Identity, quorum: int, eligible: set<string>) returns (r: set<string>)
    requires eligible == Eligible(ps, me, quorum)
    ensures r == Unconfirmed(ps, me, quorum)
  {
    var accounted := Direct(me, ps) + eligible;
    r := {};
    for i := 0 to |ps|
      invariant forall n :: n in r <==> n in Vouched(ps[..i]) && n != "" && n !in accounted
    {
      r := r + (set n | n in VouchedOf(ps[i]) && n != "" && n !in accounted);
      assert ps[..i + 1] == ps[..i] + [ps[i]];
      forall n ensures n in Vouched(ps[..i + 1]) <==> n in Vouched(ps[..i]) || n in VouchedOf(ps[i]) {
        WitnessesStep(ps[..i], ps[i], n);
      }
    }
    assert ps[..|ps|] == ps;
  }

  // ---------------------------------------------------------------------
  // One node's verdicts
  // ---------------------------------------------------------------------

  datatype Node = Node(me: Identity, table: seq<Peer>)

  function Live(nd: Node): seq<Peer> {
    Agreeing(nd.table, nd.me, SizeOf(nd.table))
  }

  function Quorum(nd: Node): int {
    QuorumSize(SizeOf(nd.table))
  }

  function EligibleOf(nd: Node): set<string> {
    Eligible(Live(nd), nd.me, Quorum(nd))
  }

  /** is_quorate: the gate of elect_leader and elect_job_owner. */
  predicate IsQuorate(nd: Node) {
    1 + |AgreeingNames(Live(nd))| >= Quorum(nd)
  }

  /** leader_name. */
  ghost function LeaderName(nd: Node): Option<string> {
    LessIsStrictTotal();
    if IsQuorate(nd) then Some(Winner({nd.me.name} + EligibleOf(nd), Less)) else None
  }

  /** elect_leader: the quorum gate on the live list, then the lowest name. */
  method ElectLeader(name: string, live: seq<string>, size: int, candidates: set<string>) returns (r: Option<string>)
    ensures r.Some? <==> 1 + |live| >= QuorumSize(size)
    ensures r.Some? ==> Wins({name} + candidates, Less, r.value)
  {
    if 1 + |live| < QuorumSize(size) {
      return None;
    }
    var m := MinName({name} + candidates);
    return Some(m);
  }

  /** The rendezvous members of _spread_owner_set. */
  function OwnerSet(nd: Node): set<string> {
    {nd.me.name} + EligibleOf(nd) + Unconfirmed(Live(nd), nd.me, Quorum(nd))
  }

  /** job_owner. */
  ghost function JobOwner(nd: Node, h: Hash, job: string): Option<string> {
    OutranksIsStrictTotal(h, job);
    if IsQuorate(nd) then Some(Winner(OwnerSet(nd), Outranks(h, job))) else None
  }

  /** The members of the never-skip elections. */
  function AvailableSet(nd: Node): set<string> {
    Direct(nd.me, Live(nd)) + Contenders(Live(nd), nd.me)
  }

  /** available_leader_name. */
  ghost function AvailableLeader(nd: Node): string {
    LessIsStrictTotal();
    Winner(AvailableSet(nd), Less)
  }

  /** available_job_owner. */
  ghost function AvailableOwner(nd: Node, h: Hash, job: string): string {
    OutranksIsStrictTotal(h, job);
    Winner(AvailableSet(nd), Outranks(h, job))
  }

  // ---------------------------------------------------------------------
  // Divergent declarations
  // ---------------------------------------------------------------------

  /** conflicting_sizes: what agreeing entries declare that differs from our size. */
  function ConflictingSizes(table: seq<Peer>, size: int): set<int> {
    set p | p in table && p.status == Agreed && p.size.Some? && p.size.value != size :: p.size.value
  }

  /** One line of conflicting_policies. */
  datatype Divergence = Distribution(theirs: string) | ElectsLeader(elects: bool)

  function Divergences(p: Peer, me: Identity): set<Divergence> {
    if p.status != Agreed then {} else
      (if p.distribution.Some? && p.distribution.value != me.distribution then {Distribution(p.distribution.value)} else {}) +
      (if p.elect.Some? && p.elect.value != me.elect then {ElectsLeader(p.elect.value)} else {})
  }

  function AllDivergences(table: seq<Peer>, me: Identity): set<Divergence> {
    set p, x | p in table && x in Divergences(p, me) :: x
  }

  /** conflicting_policies. */
  method ConflictingPolicies(table: seq<Peer>, me: Identity) returns (r: set<Divergence>)
    ensures r == AllDivergences(table, me)
  {
    r := {};
    for i := 0 to |table|
      invariant r == AllDivergences(table[..i], me)
    {
      var p := table[i];
      DivergencesStep(table[..i], p, me);
      assert table[..i + 1] == table[..i] + [p];
      if p.status == Agreed {
        if p.distribution.Some? && p.distribution.value != me.distribution {
          r := r + {Distribution(p.distribution.value)};
        }
        if p.elect.Some? && p.elect.value != me.elect {
          r := r + {ElectsLeader(p.elect.value)};
        }
      }
    }
    assert table[..|table|] == table;
  }

  lemma DivergencesStep(table: seq<Peer>, p: Peer, me: Identity)
    ensures AllDivergences(table + [p], me) == AllDivergences(table, me) + Divergences(p, me)
  {
    var all := table + [p];
    assert forall q :: q in all <==> q in table || q == p;
    assert forall x :: x in AllDivergences(table, me) ==> x in AllDivergences(all, me);
    assert p in all;
  }

  /** A counted entry is in the live set, or another entry of its process is. */
  lemma {:induction false} CountedIsRepresented(table: seq<Peer>, me: Identity, size: int, p: Peer)
    requires p in table && Counts(p, me, size)
    ensures var live := Agreeing(table, me, size);
            p in live || (p.instance.Some? && p.instance.value in Known(live))
    decreases |table|
  {
    var n := |table| - 1;
    if p in table[..n] {
      CountedIsRepresented(table[..n], me, size, p);
      KnownStep(Agreeing(table[..n], me, size), table[n]);
    } else {
      assert table == table[..n] + [table[n]];
    }
  }

  /** What the live set drops, the conflict gates show: the process behind every
      agreed, named, attesting entry is represented in the live set, or a divergent
      size or policy is on display. */
  lemma DroppedIsShown(table: seq<Peer>, me: Identity, size: int, p: Peer)
    requires p in table && p.status == Agreed && p.name.Some?
    requires SeesMeAgreed(p.members, me.instance) || !p.reportsMembers
    ensures var live := Agreeing(table, me, size);
            || p in live || (p.instance.Some? && p.instance.value in Known(live))
            || ConflictingSizes(table, size) != {} || AllDivergences(table, me) != {}
  {
    if Counts(p, me, size) {
      CountedIsRepresented(table, me, size, p);
    } else if p.size.Some? && p.size.value != size {
      assert p.size.value in ConflictingSizes(table, size);
    } else if p.distribution.Some? && p.distribution.value != me.distribution {
      assert Distribution(p.distribution.value) in Divergences(p, me);
      assert Distribution(p.distribution.value) in AllDivergences(table, me);
    } else {
      assert ElectsLeader(p.elect.value) in Divergences(p, me);
      assert ElectsLeader(p.elect.value) in AllDivergences(table, me);
    }
  }

  /** The table names real nodes only, however stale it is. */
  ghost predicate NamesNodes(table: seq<Peer>, nodes: set<string>) {
    forall p :: p in table ==> (NameOf(p) != "" ==> NameOf(p) in nodes) && MutualOf(p) <= nodes
  }

  /** In any view that names real nodes, whatever its statuses, the lowest of all
      names elects itself and the node ranked first for a job owns it. */
  lemma NeverSkipsInAnyView(nd: Node, nodes: set<string>, h: Hash, job: string)
    requires nd.me.name in nodes && NamesNodes(nd.table, nodes)
    ensures Wins(nodes, Less, nd.me.name) ==> AvailableLeader(nd) == nd.me.name
    ensures Wins(nodes, Outranks(h, job), nd.me.name) ==> AvailableOwner(nd, h, job) == nd.me.name
  {
    LessIsStrictTotal();
    OutranksIsStrictTotal(h, job);
    var members := AvailableSet(nd);
    assert members <= nodes;
    if Wins(nodes, Less, nd.me.name) {
      WinnerIsUnique(members, Less, AvailableLeader(nd), nd.me.name);
    }
    if Wins(nodes, Outranks(h, job), nd.me.name) {
      WinnerIsUnique(members, Outranks(h, job), AvailableOwner(nd, h, job), nd.me.name);
    }
  }
}
