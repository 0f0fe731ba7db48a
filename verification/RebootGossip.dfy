/** The "@reboot already ran" gossip of cronstable/cluster.py: marks, eager
    pushes that may arrive late or never, polls and 304 replays of any payload
    ever served, and config reloads on any number of nodes. */
module RebootGossip {
  import opened Wrappers

  /** A job-set id together with the names reported to have run under it: the
      relevant part of a /peer body and of a /reboot-ran push. */
  datatype Report = Report(id: string, names: set<string>)

  /** What a peer's entry keeps of its last report. */
  datatype Entry = Entry(agreed: bool, id: Option<string>, names: Option<set<string>>)

  /** One node: its live job-set id (a reload changes it at once), the recorded
      runs and the id they were recorded under, and its peer entries. */
  datatype Node = Node(live: string, ran: set<string>, ranId: Option<string>, entries: map<string, Entry>)

  /** All nodes, every /peer body ever served and every push ever sent. */
  datatype System = System(nodes: map<string, Node>, served: set<Report>, pushed: set<Report>)

  // ---------------------------------------------------------------------
  // The node's own rules
  // ---------------------------------------------------------------------

  /** _reconcile_job_set_id. */
  function Reconcile(n: Node, id: string): Node {
    n.(ran := if n.ranId.Some? && n.ranId.value != id then {} else n.ran, ranId := Some(id))
  }

  predicate Trusted(e: Entry, live: string) {
    e.agreed && e.id == Some(live) && e.names.Some?
  }

  /** advertised_ran_jobs: our own runs and the agreed peers', each gated on the
      live id. */
  function AdvertisedFrom(live: string, ran: set<string>, ranId: Option<string>, entries: set<Entry>): set<string> {
    (if ranId in {None, Some(live)} then ran else {}) +
    (set e, x | e in entries && Trusted(e, live) && x in e.names.value :: x)
  }

  function Advertised(n: Node): set<string> {
    AdvertisedFrom(n.live, n.ran, n.ranId, set h | h in n.entries :: n.entries[h])
  }

  /** reboot_ran. */
  predicate RebootRan(n: Node, job: string) {
    job in Advertised(n)
  }

  // ---------------------------------------------------------------------
  // Steps
  // ---------------------------------------------------------------------

  datatype Action =
    | Mark(node: string, job: string)                                      // mark_reboot_ran
    | Serve(node: string, names: set<string>)                              // a /peer body is built
    | Absorb(node: string, host: string, body: Report, agreed: bool)       // a 200, or a 304 replay
    | Fail(node: string, host: string)                                     // record_failure
    | Push(node: string, names: set<string>)                               // _push_reboot_ran
    | Receive(node: string, push: Report, kept: set<string>)               // _handle_reboot_ran
    | Round(node: string)                                                  // _poll_all's reconcile
    | Reload(node: string, id: string)                                     // get_job_set_id changes
    | Restart(node: string, id: string)                                    // a new manager

  /** Serialized and absorbed name sets are capped, so any subset may travel. */
  predicate Enabled(s: System, a: Action) {
    && a.node in s.nodes
    && match a
       case Serve(i, names) => names <= Advertised(s.nodes[i])
       case Push(i, names) => names <= Advertised(s.nodes[i])
       case Absorb(i, h, body, _) => body in s.served
       case Receive(i, push, kept) =>
         push in s.pushed && kept <= Reconcile(s.nodes[i], s.nodes[i].live).ran + push.names
       case _ => true
  }

  function Next(s: System, a: Action): System
    requires Enabled(s, a)
  {
    var n := s.nodes[a.node];
    match a
    case Mark(i, job) =>
      var m := Reconcile(n, n.live);
      s.(nodes := s.nodes[i := m.(ran := m.ran + {job})])
    case Serve(i, names) => s.(served := s.served + {Report(n.live, names)})
    case Push(i, names) => s.(pushed := s.pushed + {Report(n.live, names)})
    case Absorb(i, h, body, agreed) =>
      s.(nodes := s.nodes[i := n.(entries := n.entries[h := Entry(agreed, Some(body.id), Some(body.names))])])
    case Fail(i, h) =>
      var e := if h in n.entries then n.entries[h] else Entry(false, None, None);
      s.(nodes := s.nodes[i := n.(entries := n.entries[h := Entry(false, e.id, None)])])
    case Receive(i, push, kept) =>
      if push.id == n.live then s.(nodes := s.nodes[i := Reconcile(n, n.live).(ran := kept)]) else s
    case Round(i) => s.(nodes := s.nodes[i := Reconcile(n, n.live)])
    case Reload(i, id) => s.(nodes := s.nodes[i := n.(live := id)])
    case Restart(i, id) => s.(nodes := s.nodes[i := Node(id, {}, None, map[])])
  }

  ghost predicate IsRun(s: System, acts: seq<Action>)
    decreases |acts|, 0
  {
    acts == [] || (IsRun(s, acts[..|acts| - 1]) && Enabled(After(s, acts[..|acts| - 1]), acts[|acts| - 1]))
  }

  ghost function After(s: System, acts: seq<Action>): System
    requires IsRun(s, acts)
    decreases |acts|, 1
  {
    if acts == [] then s else Next(After(s, acts[..|acts| - 1]), acts[|acts| - 1])
  }

  /** Nothing has run, been served or been learned. */
  ghost predicate Start(s: System) {
    s.served == {} && s.pushed == {} &&
    forall i :: i in s.nodes ==> s.nodes[i].ran == {} && s.nodes[i].ranId == None && s.nodes[i].entries == map[]
  }

  // ---------------------------------------------------------------------
  // Safety
  // ---------------------------------------------------------------------

  /** Step k of the run is a node marking `job` while its live id is `id`. */
  ghost predicate MarkedAt(s: System, acts: seq<Action>, k: int, job: string, id: string) {
    && 0 <= k < |acts| && acts[k].Mark? && acts[k].job == job
    && IsRun(s, acts[..k]) && acts[k].node in After(s, acts[..k]).nodes
    && After(s, acts[..k]).nodes[acts[k].node].live == id
  }

  ghost predicate Marked(s: System, acts: seq<Action>, job: string, id: string) {
    exists k :: MarkedAt(s, acts, k, job, id)
  }

  /** All the names were marked under id somewhere in the run. */
  ghost predicate Vouched(s: System, acts: seq<Action>, names: set<string>, id: string) {
    forall x :: x in names ==> Marked(s, acts, x, id)
  }

  ghost predicate NodeSound(s: System, acts: seq<Action>, n: Node) {
    && (n.ranId == None ==> n.ran == {})
    && (n.ranId.Some? ==> Vouched(s, acts, n.ran, n.ranId.value))
    && forall h :: h in n.entries && n.entries[h].id.Some? && n.entries[h].names.Some? ==>
         Vouched(s, acts, n.entries[h].names.value, n.entries[h].id.value)
  }

  ghost predicate Sound(s: System, acts: seq<Action>, t: System) {
    && (forall i :: i in t.nodes ==> NodeSound(s, acts, t.nodes[i]))
    && (forall r :: r in t.served ==> Vouched(s, acts, r.names, r.id))
    && (forall r :: r in t.pushed ==> Vouched(s, acts, r.names, r.id))
  }

  lemma MarkPersists(s: System, acts: seq<Action>, a: Action, job: string, id: string)
    requires Marked(s, acts, job, id)
    ensures Marked(s, acts + [a], job, id)
  {
    var k :| MarkedAt(s, acts, k, job, id);
    assert (acts + [a])[..k] == acts[..k];
    assert MarkedAt(s, acts + [a], k, job, id);
  }

  lemma SoundPersists(s: System, acts: seq<Action>, a: Action, t: System)
    requires Sound(s, acts, t)
    ensures Sound(s, acts + [a], t)
  {
    forall job, id | Marked(s, acts, job, id) ensures Marked(s, acts + [a], job, id) {
      MarkPersists(s, acts, a, job, id);
    }
  }

  /** What a sound node advertises was marked under its live id. */
  lemma AdvertisedIsMarked(s: System, acts: seq<Action>, n: Node)
    requires NodeSound(s, acts, n)
    ensures Vouched(s, acts, Advertised(n), n.live)
  {
  }

  /** A mark is witnessed by the very step that makes it. */
  lemma MarkIsMarked(s: System, acts: seq<Action>, a: Action)
    requires IsRun(s, acts) && Enabled(After(s, acts), a) && a.Mark?
    ensures Marked(s, acts + [a], a.job, After(s, acts).nodes[a.node].live)
  {
    assert (acts + [a])[..|acts|] == acts;
    assert MarkedAt(s, acts + [a], |acts|, a.job, After(s, acts).nodes[a.node].live);
  }

  /** The acting node after the step. */
  ghost function Acted(s: System, a: Action): Node
    requires Enabled(s, a)
  {
    Next(s, a).nodes[a.node]
  }

  /** Steps that change what a node recorded itself. */
  lemma RecordStaysSound(s: System, acts: seq<Action>, t: System, a: Action)
    requires Enabled(t, a) && Sound(s, acts, t) && (a.Mark? || a.Receive? || a.Round? || a.Reload? || a.Restart?)
    requires a.Mark? ==> Marked(s, acts, a.job, t.nodes[a.node].live)
    ensures NodeSound(s, acts, Acted(t, a))
  {
    assert NodeSound(s, acts, t.nodes[a.node]);
  }

  /** Steps that change a peer entry. */
  lemma EntryStaysSound(s: System, acts: seq<Action>, t: System, a: Action)
    requires Enabled(t, a) && Sound(s, acts, t) && (a.Absorb? || a.Fail?)
    ensures NodeSound(s, acts, Acted(t, a))
  {
    assert NodeSound(s, acts, t.nodes[a.node]);
  }

  lemma NodeReplaced(s: System, acts: seq<Action>, t: System, i: string, n: Node)
    requires Sound(s, acts, t) && NodeSound(s, acts, n)
    ensures Sound(s, acts, t.(nodes := t.nodes[i := n]))
  {
  }

  lemma StepKeepsSound(s: System, acts: seq<Action>, a: Action)
    requires IsRun(s, acts) && Enabled(After(s, acts), a) && Sound(s, acts, After(s, acts))
    ensures Sound(s, acts + [a], Next(After(s, acts), a))
  {
    var t, now := After(s, acts), acts + [a];
    SoundPersists(s, acts, a, t);
    if a.Serve? || a.Push? {
      AdvertisedIsMarked(s, now, t.nodes[a.node]);
    } else {
      if a.Mark? {
        MarkIsMarked(s, acts, a);
      }
      if a.Absorb? || a.Fail? {
        EntryStaysSound(s, now, t, a);
      } else {
        RecordStaysSound(s, now, t, a);
      }
      NodeReplaced(s, now, t, a.node, Acted(t, a));
      assert Next(t, a) == t.(nodes := t.nodes[a.node := Acted(t, a)]);
    }
  }

  lemma {:induction false} RunIsSound(s: System, acts: seq<Action>)
    requires Start(s) && IsRun(s, acts)
    ensures Sound(s, acts, After(s, acts))
    decreases |acts|
  {
    if acts != [] {
      var init, a := acts[..|acts| - 1], acts[|acts| - 1];
      RunIsSound(s, init);
      StepKeepsSound(s, init, a);
      assert acts == init + [a];
    }
  }

  /** No leak across reloads: in every run, whenever a node believes a one-shot
      already ran, some node really marked it while its own live job-set id was
      the one the believer has now. */
  lemma NeverRetiredByOldRun(s: System, acts: seq<Action>, i: string, job: string)
    requires Start(s) && IsRun(s, acts) && i in After(s, acts).nodes
    requires RebootRan(After(s, acts).nodes[i], job)
    ensures Marked(s, acts, job, After(s, acts).nodes[i].live)
  {
    RunIsSound(s, acts);
    AdvertisedIsMarked(s, acts, After(s, acts).nodes[i]);
  }

  // ---------------------------------------------------------------------
  // A mark is not lost
  // ---------------------------------------------------------------------

  /** The node's own record says the job ran under its live id. */
  predicate Recorded(n: Node, job: string) {
    job in n.ran && n.ranId == Some(n.live)
  }

  /** The step neither moves node i to another job set nor drops the name for
      want of room. */
  predicate Spares(a: Action, i: string, job: string) {
    a.node == i ==> !a.Reload? && !a.Restart? && (a.Receive? ==> job in a.kept)
  }

  /** From a mark on, whatever else happens at any node, the marking node keeps
      reporting the job as run until it reloads, restarts or overflows. */
  lemma {:induction false} MarkStaysKnown(s: System, acts: seq<Action>, k: nat, job: string)
    requires IsRun(s, acts) && k < |acts| && acts[k].Mark? && acts[k].job == job
    requires forall q :: k < q < |acts| ==> Spares(acts[q], acts[k].node, job)
    ensures acts[k].node in After(s, acts).nodes
    ensures Recorded(After(s, acts).nodes[acts[k].node], job) && RebootRan(After(s, acts).nodes[acts[k].node], job)
    decreases |acts|
  {
    if k < |acts| - 1 {
      MarkStaysKnown(s, acts[..|acts| - 1], k, job);
    }
  }

  /** A report served and absorbed along agreement carries the fact over. */
  lemma ReportCarries(s: System, i: string, j: string, host: string, job: string)
    requires i in s.nodes && j in s.nodes && s.nodes[i].live == s.nodes[j].live && RebootRan(s.nodes[i], job)
    ensures var serve := Serve(i, Advertised(s.nodes[i]));
            var absorb := Absorb(j, host, Report(s.nodes[i].live, Advertised(s.nodes[i])), true);
            && Enabled(s, serve) && Enabled(Next(s, serve), absorb)
            && RebootRan(Next(Next(s, serve), absorb).nodes[j], job)
  {
    var absorb := Absorb(j, host, Report(s.nodes[i].live, Advertised(s.nodes[i])), true);
    var n := Next(Next(s, Serve(i, Advertised(s.nodes[i]))), absorb).nodes[j];
    assert Trusted(n.entries[host], n.live) && job in n.entries[host].names.value;
  }
}
