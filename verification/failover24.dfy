/** Failures under the 2.6.24 monitor: how a bad check wears a slave down, who is active when the
    active slave is committed DOWN, and that it always is in time. */
module Failover24 {
  import opened BondState
  import opened BestSlaveLaws
  import opened Monitor24

  // --------------------------------- one visit ---------------------------------------

  /** The bad checks a slave stands before it is committed DOWN; 0 if its link is not up. */
  function Patience(p: Params, s: SlaveView): nat
    requires PatienceOk(s)
  {
    match s.link
    case Up => p.downdelay + 1
    case Fail => s.delay + 1
    case _ => 0
  }

  predicate PatienceOk(s: SlaveView) {
    s.link == Fail ==> s.delay >= 0
  }

  /** A visit that finds the link down takes one of them, or brings a settling link down at once.
      At the last one it stops for the lock, and with the lock commits the slave DOWN and demands a
      failover if that was the active slave.  Each loss of an UP link is counted once. */
  lemma VisitSetback(c: Context, s: SlaveView)
    requires PatienceOk(s)
    ensures var x, n := Visit(c, s, false), Patience(c.p, s);
      && PatienceOk(x.s) && x.s.isUp == s.isUp
      && x.s.failures == (if s.link == Up && s.failures < UINT_MAX then s.failures + 1 else s.failures)
      && (n == 0 ==> x.s.link == Down && !x.stop && !x.failover)
      && (n > 1 ==> Patience(c.p, x.s) == n - 1 && !x.stop && !x.failover)
      && (n == 1 && !c.locks ==> Patience(c.p, x.s) == 1 && x.stop && !x.failover)
      && (n == 1 && c.locks ==> x.s.link == Down && !x.stop && (x.failover <==> c.isOld))
      && (n == 1 && c.locks && c.p.mode == ActiveBackup ==> x.s.role == Backup && x.s.inactive)
      && (n != 1 || !c.locks || c.p.mode != ActiveBackup ==> x.s.role == s.role && x.s.inactive == s.inactive)
  {
  }

  /** One that finds it up restores it, or settles it further; at the end of that it stops for the
      lock, and with the lock commits the slave UP and demands a failover if it is the primary or
      there is no active slave. */
  lemma VisitComeback(c: Context, s: SlaveView)
    requires DelayOk(s)
    ensures var x, n := Visit(c, s, true), TicksNeeded(c.p, s);
      && DelayOk(x.s) && x.s.isUp == s.isUp && x.s.failures == s.failures && x.s.inactive == s.inactive
      && (s.link in {Up, Fail} ==> x.s.link == Up && x.s.role == s.role)
      && (s.link == Fail ==> !x.stop && !x.failover)
      && (s.link == Up ==> (x.stop <==> c.noOld && !c.locks) && (x.failover <==> c.noOld && c.locks))
      && (s.link in {Down, Back} && n > 1 ==>
            x.s.link == Back && TicksNeeded(c.p, x.s) == n - 1 && !x.stop && !x.failover)
      && (s.link in {Down, Back} && n == 1 && !c.locks ==> x.s.link == Back && x.s.delay == 0 && x.stop && !x.failover)
      && (s.link in {Down, Back} && n == 1 && c.locks ==>
            && x.s.link == Up && !x.stop && (x.failover <==> c.noOld || c.isPrimary)
            && (c.p.mode != ActiveBackup ==> x.s.role == Active)
            && (c.p.mode == ActiveBackup && !c.isPrimary ==> x.s.role == Backup)
            && (c.p.mode == ActiveBackup && c.isPrimary ==> x.s.role == s.role))
  {
  }

  // ---------------------------- a lost link is followed up ---------------------------

  /** The active slave, if there is one, has its link UP or has not failed for long. */
  predicate ActiveHasLink(v: BondView)
    requires v.Valid()
  {
    v.active != NULL ==> v.slaves[v.active].link in {Up, Fail}
  }

  /** The active slave loses its link for good only where a failover is due. */
  lemma VisitOfActive(c: Context, s: SlaveView, up: bool)
    requires s.link in {Up, Fail}
    ensures var x := Visit(c, s, up);
      x.s.link in {Up, Fail} || (x.s.link == Down && c.locks && (c.isOld ==> x.failover))
  {
  }

  lemma PassKeepsLink(v: BondView, reports: seq<bool>, locks: bool)
    requires v.Valid() && |reports| == |v.slaves| && ActiveHasLink(v)
    ensures var w := Monitor(v, reports, locks).0;
      && ActiveHasLink(w)
      && (w.active !in {NULL, v.active} ==> w.slaves[w.active].isUp && w.slaves[w.active].link == Up)
  {
    hide PassFrom, Select, Visit;
    var r := PassFrom(v, reports, locks, 0, false);
    SelectedWasFit(r.v);
    if v.active != NULL {
      PassOnOne(v, reports, locks, 0, false, v.active);
      VisitOfActive(ContextOf(v, locks, v.active), v.slaves[v.active], reports[v.active]);
    }
  }

  /** So after a tick as before it: the active slave is no slave that has been committed DOWN, and
      a new one is ready. */
  lemma TickKeepsLink(v: BondView, first: Checks, second: Checks)
    requires v.Valid() && ActiveHasLink(v)
    requires |first.reports| == |first.ups| == |second.reports| == |second.ups| == |v.slaves|
    ensures var w := Tick24(v, first, second);
      && ActiveHasLink(w)
      && (w.active !in {NULL, v.active} ==> w.slaves[w.active].isUp && w.slaves[w.active].link == Up)
  {
    hide Monitor;
    var x := Observe(v, first.ups);
    PassKeepsLink(x, first.reports, false);
    FirstPassMovesNobody(x, first.reports);
    var (u, again) := Monitor(x, first.reports, false);
    if again {
      PassKeepsLink(Observe(u, second.ups), second.reports, true);
    }
  }

  /** Without the lock there is no failover. */
  lemma FirstPassMovesNobody(v: BondView, reports: seq<bool>)
    requires v.Valid() && |reports| == |v.slaves|
    ensures var w := Monitor(v, reports, false).0; w.active == v.active && w.primary == v.primary
  {
    hide PassFrom;
    if v.slaves != [] {
      PassOnOne(v, reports, false, 0, false, 0);
    } else {
      EmptyPass(v, reports, false);
    }
  }

  lemma EmptyPass(v: BondView, reports: seq<bool>, locks: bool)
    requires v.Valid() && v.slaves == [] && reports == []
    ensures !PassFrom(v, reports, locks, 0, false).failover
  {
  }

  /** An active slave committed DOWN in a tick is replaced in it: nobody is active afterwards, or
      another slave that is ready. */
  lemma CommittedDownIsReplaced(v: BondView, first: Checks, second: Checks)
    requires v.Valid() && v.active != NULL && v.slaves[v.active].link in {Up, Fail}
    requires |first.reports| == |first.ups| == |second.reports| == |second.ups| == |v.slaves|
    requires Tick24(v, first, second).slaves[v.active].link == Down
    ensures var w := Tick24(v, first, second);
      && w.active != v.active
      && (w.active != NULL ==> w.slaves[w.active].isUp && w.slaves[w.active].link == Up)
  {
    TickKeepsLink(v, first, second);
  }

  lemma {:induction false} RunKeepsLink(v: BondView, checks: seq<(Checks, Checks)>)
    requires v.Valid() && Plays24(v, checks) && ActiveHasLink(v)
    ensures ActiveHasLink(Run24(v, checks))
    decreases |checks|
  {
    hide Tick24, ActiveHasLink;
    if checks != [] {
      TickKeepsLink(v, checks[0].0, checks[0].1);
      RunKeepsLink(Tick24(v, checks[0].0, checks[0].1), checks[1..]);
    }
  }

  // --------------------------------- who takes over ----------------------------------

  /** Fields that a pass leaves in range. */
  predicate DelaysOk(p: Params, s: SlaveView) {
    && (s.link == Fail ==> s.delay >= 0)
    && (s.link == Back ==> 0 <= s.delay <= p.updelay)
  }

  lemma VisitKeepsDelays(c: Context, s: SlaveView, up: bool)
    requires DelaysOk(c.p, s)
    ensures var t := Visit(c, s, up).s;
      && DelaysOk(c.p, t) && t.isUp == s.isUp
      && (!Visit(c, s, up).stop ==>
            if up then t.link == Up || (t.link == Back && t.delay < c.p.updelay) else t.link in {Fail, Down})
  {
  }

  lemma PassKeepsDelays(v: BondView, reports: seq<bool>, locks: bool, j: nat)
    requires v.Valid() && |reports| == |v.slaves| && j < |v.slaves| && DelaysOk(v.params, v.slaves[j])
    ensures var r := PassFrom(v, reports, locks, 0, false); var t := r.v.slaves[j];
      && DelaysOk(v.params, t) && t.isUp == v.slaves[j].isUp
      && (!r.stopped ==>
            if reports[j] then t.link == Up || (t.link == Back && t.delay < v.params.updelay)
            else t.link in {Fail, Down})
  {
    hide PassFrom, Visit;
    PassOnOne(v, reports, locks, 0, false, j);
    VisitKeepsDelays(ContextOf(v, locks, j), v.slaves[j], reports[j]);
  }

  /** The slave's next bad check is its last. */
  predicate AtItsLast(p: Params, s: SlaveView) {
    (s.link == Fail && s.delay == 0) || (s.link == Up && p.downdelay == 0)
  }

  lemma LockedFailoverIff(v: BondView, reports: seq<bool>)
    requires v.Valid() && |reports| == |v.slaves| && v.active != NULL
    requires forall i :: 0 <= i < |v.slaves| ==> DelaysOk(v.params, v.slaves[i])
    requires AtItsLast(v.params, v.slaves[v.active]) && !reports[v.active]
    ensures var w := Monitor(v, reports, true).0;
      && w.active != v.active && w.slaves[v.active].link == Down
      && (w.active == NULL <==> forall i :: 0 <= i < |v.slaves| ==> !(v.slaves[i].isUp && reports[i]))
      && (w.active != NULL ==> w.slaves[w.active].isUp && w.slaves[w.active].link == Up)
  {
    hide PassFrom, Select, Visit;
    var a, r := v.active, PassFrom(v, reports, true, 0, false);
    PassOnOne(v, reports, true, 0, false, a);
    VisitSetback(ContextOf(v, true, a), v.slaves[a]);
    forall i | 0 <= i < |v.slaves| ensures var t := r.v.slaves[i];
      (t.isUp && (t.link == Up || (t.link == Back && t.delay < v.params.updelay))) <==> (v.slaves[i].isUp && reports[i])
    {
      PassKeepsDelays(v, reports, true, i);
    }
    SelectedIsReady(r.v);
    SelectedWasFit(r.v);
    SelectSparesDown(r.v, a);
  }

  lemma SelectSparesDown(v: BondView, i: nat)
    requires v.Valid() && i < |v.slaves| && v.slaves[i].link == Down
    ensures Select(v).slaves[i].link == Down
  {
    hide BestSlave;
  }

  /** What the first pass leaves of a slave whose next bad check is its last, and of one whose next
      good check brings it UP: the same, as it stops for the lock there at the latest. */
  lemma StopsAtLast(v: BondView, reports: seq<bool>, j: nat)
    requires v.Valid() && |reports| == |v.slaves| && j < |v.slaves|
    requires AtItsLast(v.params, v.slaves[j]) && !reports[j]
    ensures Monitor(v, reports, false).1 && AtItsLast(v.params, Monitor(v, reports, false).0.slaves[j])
  {
    hide PassFrom, Visit;
    PassOnOne(v, reports, false, 0, false, j);
    VisitSetback(ContextOf(v, false, j), v.slaves[j]);
    LastStays(v.params, Visit(ContextOf(v, false, j), v.slaves[j], false).s);
  }

  lemma LastStays(p: Params, s: SlaveView)
    ensures PatienceOk(s) && Patience(p, s) == 1 ==> AtItsLast(p, s)
  {
  }

  /** When the active slave is at its last bad check, the tick replaces it: nobody is active
      afterwards exactly if no slave is IS_UP with a good check in the pass that has the lock;
      otherwise one is whose link is UP. */
  lemma FailoverIff24(v: BondView, first: Checks, second: Checks)
    requires v.Valid() && v.active != NULL
    requires |first.reports| == |first.ups| == |second.reports| == |second.ups| == |v.slaves|
    requires forall i :: 0 <= i < |v.slaves| ==> DelaysOk(v.params, v.slaves[i])
    requires AtItsLast(v.params, v.slaves[v.active]) && !first.reports[v.active] && !second.reports[v.active]
    ensures var w := Tick24(v, first, second);
      && w.active != v.active && w.slaves[v.active].link == Down
      && (w.active == NULL <==> forall i :: 0 <= i < |v.slaves| ==> !(second.ups[i] && second.reports[i]))
      && (w.active != NULL ==> w.slaves[w.active].isUp && w.slaves[w.active].link == Up)
  {
    hide PassFrom, Visit, Select;
    var x := Observe(v, first.ups);
    StopsAtLast(x, first.reports, v.active);
    FirstPassMovesNobody(x, first.reports);
    var u := Monitor(x, first.reports, false).0;
    forall i | 0 <= i < |v.slaves| ensures DelaysOk(v.params, u.slaves[i]) {
      PassKeepsDelays(x, first.reports, false, i);
    }
    hide Monitor;
    LockedFailoverIff(Observe(u, second.ups), second.reports);
  }

  /** The slave's next good check brings it UP. */
  predicate AboutToReturn(p: Params, s: SlaveView) {
    (s.link == Back && s.delay == 0) || (s.link == Down && p.updelay == 0)
  }

  /** A primary that comes UP in a tick is active afterwards, whoever was before and whatever the
      others do, if it is IS_UP and there is no ARP monitoring. */
  lemma PrimaryTakesOver24(v: BondView, first: Checks, second: Checks)
    requires v.Valid() && v.primary != NULL && v.params.arpInterval == 0
    requires |first.reports| == |first.ups| == |second.reports| == |second.ups| == |v.slaves|
    requires AboutToReturn(v.params, v.slaves[v.primary])
    requires StaysUp(first, v.primary) && StaysUp(second, v.primary)
    ensures var w := Tick24(v, first, second); w.active == v.primary && w.slaves[v.primary].link == Up
  {
    hide PassFrom, Visit, Select, Tick24, Monitor;
    var x, p := Observe(v, first.ups), v.primary;
    StopsToReturn(x, first.reports, p);
    FirstPassMovesNobody(x, first.reports);
    PrimaryIsSelected(Observe(Monitor(x, first.reports, false).0, second.ups), second.reports);
    assert Tick24(v, first, second) ==
      Monitor(Observe(Monitor(x, first.reports, false).0, second.ups), second.reports, true).0 by {
      TickOfTwo(v, first, second);
    }
  }

  lemma TickOfTwo(v: BondView, first: Checks, second: Checks)
    requires v.Valid()
    requires |first.reports| == |first.ups| == |second.reports| == |second.ups| == |v.slaves|
    ensures var (u, again) := Monitor(Observe(v, first.ups), first.reports, false);
      Tick24(v, first, second) == if again then Monitor(Observe(u, second.ups), second.reports, true).0 else u
  {
  }

  lemma StopsToReturn(v: BondView, reports: seq<bool>, j: nat)
    requires v.Valid() && |reports| == |v.slaves| && j < |v.slaves|
    requires AboutToReturn(v.params, v.slaves[j]) && reports[j]
    ensures Monitor(v, reports, false).1 && AboutToReturn(v.params, Monitor(v, reports, false).0.slaves[j])
  {
    hide PassFrom, Visit;
    PassOnOne(v, reports, false, 0, false, j);
    VisitComeback(ContextOf(v, false, j), v.slaves[j]);
  }

  lemma PrimaryIsSelected(v: BondView, reports: seq<bool>)
    requires v.Valid() && |reports| == |v.slaves| && v.primary != NULL && v.params.arpInterval == 0
    requires AboutToReturn(v.params, v.slaves[v.primary]) && v.slaves[v.primary].isUp && reports[v.primary]
    ensures var w := Monitor(v, reports, true).0; w.active == v.primary && w.slaves[v.primary].link == Up
  {
    hide PassFrom, Visit, Select;
    var p, r := v.primary, PassFrom(v, reports, true, 0, false);
    PassOnOne(v, reports, true, 0, false, p);
    VisitComeback(ContextOf(v, true, p), v.slaves[p]);
    ReadyPrimaryIsSelected(r.v);
    SelectKeepsUp(r.v, p);
  }

  // -------------------------------- and who stays ------------------------------------

  /** Some visit of the pass demands a failover. */
  ghost predicate Demanded(v: BondView, reports: seq<bool>, locks: bool)
    requires v.Valid() && |reports| == |v.slaves|
  {
    exists j :: 0 <= j < |v.slaves| && Visit(ContextOf(v, locks, j), v.slaves[j], reports[j]).failover
  }

  lemma {:induction false} NoneDemanded(v: BondView, w: BondView, reports: seq<bool>, locks: bool, i: nat)
    requires v.Valid() && |reports| == |v.slaves| && i <= |v.slaves| && !Demanded(v, reports, locks)
    requires w == v.(slaves := w.slaves) && |w.slaves| == |v.slaves|
    requires forall j :: i <= j < |v.slaves| ==> w.slaves[j] == v.slaves[j]
    ensures !PassFrom(w, reports, locks, i, false).failover
    decreases |v.slaves| - i
  {
    hide Visit;
    if i < |v.slaves| {
      var x := Visit(ContextOf(w, locks, i), w.slaves[i], reports[i]);
      assert ContextOf(w, locks, i) == ContextOf(v, locks, i);
      if !x.stop {
        NoneDemanded(v, w.(slaves := w.slaves[i := x.s]), reports, locks, i + 1);
      }
    }
  }

  /** An active slave stays it unless a tick commits it DOWN or the primary UP. */
  lemma ActiveStays24(v: BondView, first: Checks, second: Checks)
    requires v.Valid() && v.active != NULL && ActiveHasLink(v)
    requires |first.reports| == |first.ups| == |second.reports| == |second.ups| == |v.slaves|
    requires Tick24(v, first, second).active != v.active
    ensures var w := Tick24(v, first, second);
      || w.slaves[v.active].link == Down
      || (v.primary != NULL && v.slaves[v.primary].link in {Down, Back} && w.slaves[v.primary].link == Up)
  {
    hide PassFrom, Visit, Select, Monitor;
    TickOfTwo(v, first, second);
    var x := Observe(v, first.ups);
    FirstPassMovesNobody(x, first.reports);
    PassKeepsLink(x, first.reports, false);
    var u := Monitor(x, first.reports, false).0;
    var y := Observe(u, second.ups);
    StaysOrReason(y, second.reports);
    assert y.active == v.active && y.primary == v.primary;
    if v.primary != NULL {
      FirstPassBringsNoneUp(x, first.reports, v.primary);
      assert y.slaves[v.primary].link == u.slaves[v.primary].link;
      assert x.slaves[v.primary].link == v.slaves[v.primary].link;
    }
  }

  lemma FirstPassBringsNoneUp(v: BondView, reports: seq<bool>, j: nat)
    requires v.Valid() && |reports| == |v.slaves| && j < |v.slaves|
    ensures v.slaves[j].link in {Up, Fail} ==> Monitor(v, reports, false).0.slaves[j].link in {Up, Fail}
  {
    hide PassFrom;
    PassOnOne(v, reports, false, 0, false, j);
  }

  lemma StaysOrReason(v: BondView, reports: seq<bool>)
    requires v.Valid() && v.active != NULL && ActiveHasLink(v) && |reports| == |v.slaves|
    ensures var w := Monitor(v, reports, true).0;
      || w.active == v.active
      || w.slaves[v.active].link == Down
      || (v.primary != NULL && v.slaves[v.primary].link in {Down, Back} && w.slaves[v.primary].link == Up)
  {
    hide PassFrom, Visit, Select;
    var r := PassFrom(v, reports, true, 0, false);
    PassOnOne(v, reports, true, 0, false, v.active);
    if Demanded(v, reports, true) {
      var j :| 0 <= j < |v.slaves| && Visit(ContextOf(v, true, j), v.slaves[j], reports[j]).failover;
      PassOnOne(v, reports, true, 0, false, j);
      WhyDemanded(ContextOf(v, true, j), v.slaves[j], reports[j]);
      if j == v.active && r.v.slaves[j].link == Down {
        SelectSparesDown(r.v, j);
      } else {
        SelectKeepsLinkUp(r.v, j);
      }
    } else {
      NoneDemanded(v, v, reports, true, 0);
    }
  }

  lemma SelectKeepsLinkUp(v: BondView, i: nat)
    requires v.Valid() && i < |v.slaves| && v.slaves[i].link == Up
    ensures Select(v).slaves[i].link == Up
  {
    hide BestSlave;
  }

  lemma WhyDemanded(c: Context, s: SlaveView, up: bool)
    requires !c.noOld && Visit(c, s, up).failover
    ensures var t := Visit(c, s, up).s;
      || (c.isOld && t.link == Down)
      || (c.isPrimary && s.link in {Down, Back} && t.link == Up)
  {
  }

  // ------------------------------- bounded detection ---------------------------------

  predicate StaysDown(c: Checks, j: nat) {
    j < |c.reports| == |c.ups| && !c.reports[j]
  }

  lemma SelectSparesFailing(v: BondView, i: nat)
    requires v.Valid() && i < |v.slaves| && v.slaves[i].link in {Up, Fail, Down}
    ensures Select(v).slaves[i].link == v.slaves[i].link && Select(v).slaves[i].delay == v.slaves[i].delay
  {
    hide BestSlave;
  }

  /** A pass that finds the link down, whether it runs to the end or not. */
  lemma PassSetback(v: BondView, reports: seq<bool>, locks: bool, j: nat)
    requires v.Valid() && |reports| == |v.slaves| && j < |v.slaves| && !reports[j] && PatienceOk(v.slaves[j])
    ensures var (w, again) := Monitor(v, reports, locks);
      var n := Patience(v.params, v.slaves[j]);
      && PatienceOk(w.slaves[j]) && Patience(v.params, w.slaves[j]) <= n
      && (!again && n > 0 ==> Patience(v.params, w.slaves[j]) == n - 1)
      && (!again ==> w.slaves[j].link in {Fail, Down})
      && (locks ==> !again)
  {
    hide PassFrom, Visit, Select;
    var r := PassFrom(v, reports, locks, 0, false);
    PassOnOne(v, reports, locks, 0, false, j);
    VisitSetback(ContextOf(v, locks, j), v.slaves[j]);
    PatienceTells(v.params, Visit(ContextOf(v, locks, j), v.slaves[j], false).s);
    AfterSetback(ContextOf(v, locks, j), v.slaves[j]);
    if r.v.slaves[j].link in {Fail, Down} {
      SelectSparesFailing(r.v, j);
    }
  }

  lemma AfterSetback(c: Context, s: SlaveView)
    ensures Visit(c, s, false).s.link in {Fail, Down}
  {
  }

  lemma PatienceTells(p: Params, s: SlaveView)
    requires PatienceOk(s)
    ensures Patience(p, s) == 0 <==> s.link in {Down, Back}
  {
  }

  lemma TickSetback(v: BondView, first: Checks, second: Checks, j: nat)
    requires v.Valid() && j < |v.slaves| && PatienceOk(v.slaves[j])
    requires |first.reports| == |first.ups| == |second.reports| == |second.ups| == |v.slaves|
    requires StaysDown(first, j) && StaysDown(second, j)
    ensures var w, n := Tick24(v, first, second), Patience(v.params, v.slaves[j]);
      && PatienceOk(w.slaves[j]) && w.slaves[j].link in {Fail, Down}
      && (n > 0 ==> Patience(v.params, w.slaves[j]) < n)
      && (n == 0 ==> w.slaves[j].link == Down)
  {
    hide Monitor, PatienceOk, Patience;
    TickOfTwo(v, first, second);
    SamePatience(v, first.ups, j);
    var x := Observe(v, first.ups);
    PassSetback(x, first.reports, false, j);
    var (u, again) := Monitor(x, first.reports, false);
    if again {
      SamePatience(u, second.ups, j);
      PassSetback(Observe(u, second.ups), second.reports, true, j);
    }
    PatienceTells(v.params, Tick24(v, first, second).slaves[j]);
  }

  lemma SamePatience(v: BondView, ups: seq<bool>, j: nat)
    requires v.Valid() && |ups| == |v.slaves| && j < |v.slaves| && PatienceOk(v.slaves[j])
    ensures var s := Observe(v, ups).slaves[j];
      PatienceOk(s) && Patience(v.params, s) == Patience(v.params, v.slaves[j])
  {
  }

  lemma {:induction false} WornDown(v: BondView, checks: seq<(Checks, Checks)>, j: nat)
    requires v.Valid() && j < |v.slaves| && PatienceOk(v.slaves[j]) && Plays24(v, checks) && checks != []
    requires forall t :: 0 <= t < |checks| ==> StaysDown(checks[t].0, j) && StaysDown(checks[t].1, j)
    requires |checks| >= Patience(v.params, v.slaves[j])
    ensures Run24(v, checks).slaves[j].link == Down
    decreases |checks|
  {
    hide Tick24;
    var w := Tick24(v, checks[0].0, checks[0].1);
    TickSetback(v, checks[0].0, checks[0].1, j);
    if |checks| > 1 {
      WornDown(w, checks[1..], j);
    }
  }

  /** Bounded detection.  If one slave's link is found down on every check for downdelay + 1
      consecutive ticks, the slave is DOWN at the end and not the active one, whatever the others
      do and although passes give up half way. */
  lemma BoundedDetection(v: BondView, checks: seq<(Checks, Checks)>, j: nat)
    requires v.Valid() && j < |v.slaves| && Plays24(v, checks) && ActiveHasLink(v)
    requires v.slaves[j].link == Fail ==> 0 <= v.slaves[j].delay <= v.params.downdelay
    requires forall t :: 0 <= t < |checks| ==> StaysDown(checks[t].0, j) && StaysDown(checks[t].1, j)
    requires |checks| >= v.params.downdelay + 1
    ensures var w := Run24(v, checks); w.slaves[j].link == Down && w.active != j
  {
    WornDown(v, checks, j);
    RunKeepsLink(v, checks);
  }
}
