/** The converged cluster (cronstable/cluster.py): the reachability graph every
    node's gossip settles to, and what the election decides on it. */
module Topology {
  import opened PeerTable
  import opened Election

  /** links holds (i, j) when node i's polls of node j succeed; nothing says
      links are symmetric or connected. */
  datatype Graph = Graph(nodes: set<string>, links: set<(string, string)>)

  /** The nodes i agrees with both ways. */
  function Mutual(g: Graph, i: string): set<string> {
    set j | j in g.nodes && j != i && (i, j) in g.links && (j, i) in g.links
  }

  function Majority(g: Graph): int {
    QuorumSize(|g.nodes|)
  }

  predicate Quorate(g: Graph, i: string) {
    1 + |Mutual(g, i)| >= Majority(g)
  }

  function Quorates(g: Graph): set<string> {
    set i | i in g.nodes && Quorate(g, i)
  }

  /** Nodes i knows only through enough shared members. */
  function Bridged(g: Graph, i: string): set<string> {
    set n | n in g.nodes && n != i && n !in Mutual(g, i) && |Mutual(g, i) * Mutual(g, n)| + 1 >= Majority(g)
  }

  /** Whom i would elect or defer to. */
  function Electable(g: Graph, i: string): set<string> {
    (set p | p in Mutual(g, i) && Quorate(g, p)) + Bridged(g, i)
  }

  /** Everyone i's agreeing peers would elect. */
  function VouchedTo(g: Graph, i: string): set<string> {
    set w, n | w in Mutual(g, i) && n in Electable(g, w) :: n
  }

  /** The rendezvous members of i. */
  function Owners(g: Graph, i: string): set<string> {
    {i} + Electable(g, i) + (VouchedTo(g, i) - Mutual(g, i))
  }

  /** Every electable name will run if elected: it is a quorate node. */
  lemma ElectableAreQuorate(g: Graph, i: string)
    requires i in g.nodes
    ensures Electable(g, i) <= Quorates(g)
  {
    forall n | n in Bridged(g, i) ensures Quorate(g, n) {
      SubsetSize(Mutual(g, i) * Mutual(g, n), Mutual(g, n));
    }
  }

  /** Two majorities share a member, who agrees with both nodes. */
  lemma MajoritiesShareWitness(g: Graph, i: string, z: string) returns (w: string)
    requires {i, z} <= Quorates(g) && i != z && z !in Mutual(g, i)
    ensures w in Mutual(g, i) && z in Mutual(g, w)
  {
    var a, b := {i} + Mutual(g, i), {z} + Mutual(g, z);
    if a * b == {} {
      assert a + b <= g.nodes;
      SubsetSize(a + b, g.nodes);
      assert false;
    }
    w :| w in a * b;
  }

  /** The rendezvous set of every quorate node is exactly the quorate nodes. */
  lemma OwnersAreTheQuorates(g: Graph, i: string)
    requires i in Quorates(g)
    ensures Owners(g, i) == Quorates(g)
  {
    ElectableAreQuorate(g, i);
    forall w | w in Mutual(g, i) ensures Electable(g, w) <= Quorates(g) {
      ElectableAreQuorate(g, w);
    }
    forall z | z in Quorates(g) && z != i ensures z in Owners(g, i) {
      if z !in Mutual(g, i) {
        var w := MajoritiesShareWitness(g, i, z);
        assert z in Electable(g, w);
      }
    }
  }

  // ---------------------------------------------------------------------
  // Verdicts on the converged graph
  // ---------------------------------------------------------------------

  /** Node i names o as the owner of a job. */
  ghost predicate NamesOwner(g: Graph, r: Order, i: string, o: string) {
    Quorate(g, i) && Wins(Owners(g, i), r, o)
  }

  /** o is the only name anyone gives as the owner, and every quorate node,
      o included, gives it. */
  ghost predicate OneOwner(g: Graph, r: Order, o: string) {
    && (forall i, n :: i in g.nodes && NamesOwner(g, r, i, n) ==> n == o)
    && (forall i :: i in Quorates(g) ==> NamesOwner(g, r, i, o))
  }

  /** Spread mode is exactly-once: all quorate nodes name one owner, that owner
      names itself, and no one else claims the job. */
  lemma SpreadIsExactlyOnce(g: Graph, r: Order)
    requires StrictTotal(r) && Quorates(g) != {}
    ensures exists o :: o in Quorates(g) && OneOwner(g, r, o)
  {
    var o := Winner(Quorates(g), r);
    forall i | i in Quorates(g) ensures NamesOwner(g, r, i, o) {
      OwnersAreTheQuorates(g, i);
    }
    forall i, n | i in g.nodes && NamesOwner(g, r, i, n) ensures n == o {
      OwnersAreTheQuorates(g, i);
      WinnerIsUnique(Quorates(g), r, n, o);
    }
  }

  /** Node i elects m as the single leader. */
  ghost predicate Elects(g: Graph, i: string, m: string) {
    Quorate(g, i) && Wins({i} + Electable(g, i), Less, m)
  }

  /** Each sees the other as able to run: they agree, or share enough members. */
  ghost predicate CanConfirm(g: Graph, i: string, z: string) {
    z in Mutual(g, i) || |Mutual(g, i) * Mutual(g, z)| + 1 >= Majority(g)
  }

  lemma ElectableIff(g: Graph, i: string, z: string)
    requires i in g.nodes
    ensures z in Electable(g, i) <==> z in Quorates(g) && z != i && CanConfirm(g, i, z)
  {
    ElectableAreQuorate(g, i);
  }

  /** Exactly when a node leads: it is quorate and no lower-named quorate node
      agrees with it or shares quorum - 1 members with it. */
  lemma LeadsIff(g: Graph, i: string)
    requires i in g.nodes
    ensures Elects(g, i, i) <==>
            Quorate(g, i) && forall z :: z in Quorates(g) && Less(z, i) ==> !CanConfirm(g, i, z)
  {
    forall z ensures z in Electable(g, i) <==> z in Quorates(g) && z != i && CanConfirm(g, i, z) {
      ElectableIff(g, i, z);
    }
    forall z ensures Less(i, z) <==> z != i && !Less(z, i) {
      LessTrichotomy(i, z);
      LessTrichotomy(z, i);
      if Less(i, z) && Less(z, i) {
        LessTransitive(i, z, i);
      }
    }
  }

  /** Every elected name is a quorate node, the lowest-named quorate node elects
      itself, and two nodes that can confirm each other never both lead. */
  lemma SingleLeader(g: Graph)
    ensures forall i, m :: i in g.nodes && Elects(g, i, m) ==> m in Quorates(g)
    ensures forall m :: Wins(Quorates(g), Less, m) ==> Elects(g, m, m)
    ensures forall i, z :: i in g.nodes && z in g.nodes && i != z && CanConfirm(g, i, z) ==>
            !(Elects(g, i, i) && Elects(g, z, z))
  {
    LessIsStrictTotal();
    forall i, m | i in g.nodes && Elects(g, i, m) ensures m in Quorates(g) {
      ElectableAreQuorate(g, i);
    }
    forall m | Wins(Quorates(g), Less, m) ensures Elects(g, m, m) {
      ElectableAreQuorate(g, m);
    }
    forall i, z | i in g.nodes && z in g.nodes && i != z && CanConfirm(g, i, z)
      ensures !(Elects(g, i, i) && Elects(g, z, z))
    {
      LeadsIff(g, i);
      LeadsIff(g, z);
      assert Mutual(g, i) * Mutual(g, z) == Mutual(g, z) * Mutual(g, i);
      assert CanConfirm(g, z, i);
    }
  }

  const THIN := Graph({"a", "b", "c", "d", "e"},
    {("a", "c"), ("c", "a"), ("a", "d"), ("d", "a"), ("b", "d"), ("d", "b"), ("b", "e"), ("e", "b")})

  lemma ThinBridge()
    ensures Quorate(THIN, "a") && Quorate(THIN, "b") && !CanConfirm(THIN, "b", "a")
  {
    assert Mutual(THIN, "a") == {"c", "d"} && Mutual(THIN, "b") == {"d", "e"};
    assert Mutual(THIN, "b") * Mutual(THIN, "a") == {"d"};
    assert |THIN.nodes| == 5;
  }

  lemma UnconfirmedPairBothLead(g: Graph, i: string, z: string)
    requires {i, z} <= Quorates(g) && !CanConfirm(g, z, i)
    requires forall x :: x in g.nodes ==> !Less(x, i) && (Less(x, z) ==> x == i)
    ensures Elects(g, i, i) && Elects(g, z, z)
  {
    LeadsIff(g, i);
    LeadsIff(g, z);
  }

  lemma ThinNamesOrdered(x: string)
    requires x in THIN.nodes
    ensures !Less(x, "a") && (Less(x, "b") ==> x == "a")
  {
    OneLetter(x);
    LetterOrder(x[0], 'a');
    LetterOrder(x[0], 'b');
  }

  /** At most one leader does not hold in general: two nodes whose bridge is too
      thin to confirm each other both lead. */
  lemma ThinBridgeDoubleLeads()
    ensures exists g: Graph, i: string, z: string :: i != z && {i, z} <= g.nodes && Elects(g, i, i) && Elects(g, z, z)
  {
    var g := THIN;
    ThinBridge();
    forall x | x in g.nodes ensures !Less(x, "a") && (Less(x, "b") ==> x == "a") {
      ThinNamesOrdered(x);
    }
    assert {"a", "b"} <= Quorates(g);
    UnconfirmedPairBothLead(g, "a", "b");
  }

  /** Node i has a lower-named quorate node it can confirm, so it defers. */
  ghost predicate Defers(g: Graph, i: string) {
    exists z :: z in Quorates(g) && Less(z, i) && CanConfirm(g, i, z)
  }

  /** Exactly when there is at most one leader: every quorate node above the
      lowest-named one can confirm some lower-named quorate node. */
  lemma AtMostOneLeaderIff(g: Graph, first: string)
    requires Wins(Quorates(g), Less, first)
    ensures (forall i, z :: i in g.nodes && z in g.nodes && Elects(g, i, i) && Elects(g, z, z) ==> i == z) <==>
            (forall i :: i in Quorates(g) && i != first ==> Defers(g, i))
  {
    SingleLeader(g);
    forall i | i in g.nodes ensures Elects(g, i, i) <==> i in Quorates(g) && !Defers(g, i) {
      LeadsIff(g, i);
    }
    assert Elects(g, first, first);
  }

  lemma OneLetter(z: string)
    requires z in THIN.nodes
    ensures |z| == 1 && 'a' <= z[0] <= 'e' && z == [z[0]]
  {
  }

  lemma LetterOrder(x: char, y: char)
    ensures Less([x], [y]) <==> x < y
  {
  }

  // ---------------------------------------------------------------------
  // The never-skip elections
  // ---------------------------------------------------------------------

  /** The never-skip members of i: itself, its agreeing peers and theirs. */
  function Within2(g: Graph, i: string): set<string> {
    {i} + Mutual(g, i) + set w, n | w in Mutual(g, i) && n in Mutual(g, w) :: n
  }

  /** Under either never-skip order, two nodes that agree or share an agreeing
      peer never both claim, and a claim means beating everyone within reach. */
  lemma NeverSkipClaims(g: Graph, r: Order, i: string, z: string)
    requires StrictTotal(r) && {i, z} <= g.nodes && i != z && z in Within2(g, i)
    ensures !(Wins(Within2(g, i), r, i) && Wins(Within2(g, z), r, z))
  {
    assert i in Within2(g, z) by {
      if z !in Mutual(g, i) {
        var w :| w in Mutual(g, i) && z in Mutual(g, w);
        assert w in Mutual(g, z) && i in Mutual(g, w);
      }
    }
    assert r(i, z) && r(z, i) ==> r(i, i);
  }
}
