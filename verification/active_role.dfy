/** The state of the active slave in active-backup mode.  It ought to read ACTIVE and mostly does;
    exactly when it does not is settled here. */
module ActiveRole {
  import opened BondState
  import opened BestSlaveLaws
  import opened BondRuns
  import opened ActiveBackupSafety
  import Debounce

  predicate ReadsActive(v: BondView)
    requires v.Valid()
  {
    v.active != NULL ==> v.slaves[v.active].role == Active
  }

  /** `a` waits to be committed UP, is not the primary, and is the active slave already when the
      commit loop comes to it, which then marks it BACKUP. */
  predicate MarkedBackup(u: BondView, a: int)
    requires u.Valid()
  {
    0 <= a < |u.slaves| && u.slaves[a].newLink == To(Up) && a != u.primary && CommitUpTo(u, a).active == a
  }

  /** The slave that is active after the tick has been marked BACKUP in it. */
  predicate Overtaken(v: BondView, reports: seq<bool>)
    requires v.Valid() && |reports| == |v.slaves|
  {
    MarkedBackup(Inspect(v, reports), Tick(v, reports).active)
  }

  // ------------------------------- through the commit loop --------------------------

  /** An agreeing bond between its inspect pass and its commit pass. */
  ghost predicate ReadyToCommit(u: BondView) {
    && Agrees(u) && ReadsActive(u)
    && (forall i :: 0 <= i < |u.slaves| ==> Inspected(u.slaves[i]))
    && (forall i :: 0 <= i < |u.slaves| && u.slaves[i].newLink == To(Up) ==> u.slaves[i].link == Back)
  }

  lemma InspectIsReadyToCommit(v: BondView, reports: seq<bool>)
    requires Agrees(v) && ReadsActive(v) && |reports| == |v.slaves|
    ensures ReadyToCommit(Inspect(v, reports))
  {
    InspectAgrees(v, reports);
  }

  /** The bond after `n` commit steps. */
  ghost predicate Committed(u: BondView, n: nat, x: BondView)
    requires u.Valid()
  {
    && Agrees(x) && |x.slaves| == |u.slaves| && x.primary == u.primary && n <= |u.slaves|
    && (forall i :: 0 <= i < |u.slaves| ==> x.slaves[i].newLink == u.slaves[i].newLink)
    && (forall i :: n <= i < |u.slaves| ==> Inspected(x.slaves[i]))
    && (forall i :: 0 <= i < n && u.slaves[i].newLink == To(Down) ==> x.slaves[i].link == Down)
  }

  lemma CommittedSoFar(u: BondView, n: nat)
    requires ReadyToCommit(u) && n <= |u.slaves|
    ensures Committed(u, n, CommitUpTo(u, n))
  {
    CommitAgrees(u, n);
    forall i | 0 <= i < |u.slaves|
      ensures var t := CommitUpTo(u, n).slaves[i];
        t.newLink == u.slaves[i].newLink && (i < n && u.slaves[i].newLink == To(Down) ==> t.link == Down)
    {
      Debounce.CommitOnOne(u, n, i);
    }
  }

  /** The active slave is the one the loop started with, or is ready and will not be committed
      DOWN. */
  ghost predicate OldOrReady(u: BondView, x: BondView)
    requires x.Valid()
  {
    x.active in {NULL, u.active} || (x.slaves[x.active].Ready() && x.slaves[x.active].newLink != To(Down))
  }

  /** A slave marked BACKUP stays active, but for the primary taking over. */
  ghost predicate MarkedStays(u: BondView, n: nat, x: BondView)
    requires u.Valid()
  {
    forall a :: 0 <= a < n && MarkedBackup(u, a) ==> x.active == a || (x.active == u.primary && 0 <= u.primary < n)
  }

  /** The active slave reads BACKUP exactly if the loop has passed and marked it. */
  ghost predicate RoleKnown(u: BondView, n: nat, x: BondView)
    requires u.Valid() && x.Valid()
  {
    x.active != NULL ==> (x.slaves[x.active].role == Backup <==> x.active < n && MarkedBackup(u, x.active))
  }

  /** What selecting does to the active slave. */
  lemma SelectOnActive(x: BondView)
    requires x.Valid()
    ensures var y := Select(x);
      && (y.active == x.active ==> y == x)
      && (y.active != x.active && y.active != NULL ==>
            && y.slaves[y.active].Ready() && x.slaves[y.active].link in {Up, Back}
            && y.slaves[y.active].newLink == x.slaves[y.active].newLink)
      && (x.params.mode == ActiveBackup && y.active != x.active ==> ReadsActive(y))
  {
    hide BestSlave;
    SelectedIsReady(x);
    BestIsUpOrBack(x);
  }

  /** One commit step either leaves the active pointer alone, or selects. */
  lemma CommitStep(x: BondView, n: nat)
    requires x.Valid() && n < |x.slaves|
    ensures var s, y := x.slaves[n], CommitSlave(x, n);
      var up, down := CommittedUp(x.params, s, n == x.primary), CommittedDown(x.params, s);
      match s.newLink
      case NoChange => y == x
      case To(Up) =>
        var u := x.(slaves := x.slaves[n := up]);
        y == if x.active == NULL || n == x.primary then Select(u) else u
      case To(Down) =>
        var u := x.(slaves := x.slaves[n := down]);
        y == if n == x.active then Select(u) else u
      case _ => y.active == x.active
  {
  }

  lemma OldOrReadyStep(u: BondView, n: nat, x: BondView)
    requires u.Valid() && Committed(u, n, x) && n < |u.slaves| && OldOrReady(u, x)
    ensures OldOrReady(u, CommitSlave(x, n))
  {
    hide Select;
    CommitStep(x, n);
    var s := x.slaves[n];
    match s.newLink {
      case To(Up) => SelectOnActive(x.(slaves := x.slaves[n := CommittedUp(x.params, s, n == x.primary)]));
      case To(Down) => SelectOnActive(x.(slaves := x.slaves[n := CommittedDown(x.params, s)]));
      case _ =>
    }
  }

  /** If the active slave is marked, only the primary can replace it when it is committed UP. */
  lemma PrimaryOrStay(x: BondView, n: nat)
    requires x.Valid() && 0 <= x.active < |x.slaves| && n == x.primary && x.slaves[x.active].Ready()
    requires x.slaves[n].newLink == To(Up)
    ensures CommitSlave(x, n).active in {x.active, n}
  {
    hide BestSlave;
    CommitStep(x, n);
    var z := x.(slaves := x.slaves[n := CommittedUp(x.params, x.slaves[n], true)]);
    ReadyStartIsBest(z, SearchStart(z));
  }

  lemma MarkedStaysStep(u: BondView, n: nat, x: BondView)
    requires ReadyToCommit(u) && n < |u.slaves| && x == CommitUpTo(u, n) && Committed(u, n, x)
    requires OldOrReady(u, x) && MarkedStays(u, n, x)
    ensures MarkedStays(u, n + 1, CommitSlave(x, n))
  {
    hide CommitUpTo, Select;
    CommitStep(x, n);
    var y := CommitSlave(x, n);
    forall a | 0 <= a < n + 1 && MarkedBackup(u, a)
      ensures y.active == a || (y.active == u.primary && 0 <= u.primary < n + 1)
    {
      assert a != u.active;
      if x.active == a && n == x.primary && x.slaves[n].newLink == To(Up) {
        PrimaryOrStay(x, n);
      }
    }
  }

  lemma RoleStep(u: BondView, n: nat, x: BondView)
    requires ReadyToCommit(u) && n < |u.slaves| && x == CommitUpTo(u, n) && Committed(u, n, x)
    requires MarkedStays(u, n, x) && RoleKnown(u, n, x)
    ensures RoleKnown(u, n + 1, CommitSlave(x, n))
  {
    hide CommitUpTo, Select;
    CommitStep(x, n);
    CommitSlaveAgrees(x, n);
    var s := x.slaves[n];
    match s.newLink {
      case To(Up) => SelectOnActive(x.(slaves := x.slaves[n := CommittedUp(x.params, s, n == x.primary)]));
      case To(Down) => SelectOnActive(x.(slaves := x.slaves[n := CommittedDown(x.params, s)]));
      case _ =>
    }
  }

  lemma {:induction false} RoleThroughCommit(u: BondView, n: nat)
    requires u.Valid() && ReadyToCommit(u) && n <= |u.slaves|
    ensures var x := CommitUpTo(u, n); OldOrReady(u, x) && MarkedStays(u, n, x) && RoleKnown(u, n, x)
  {
    hide CommitSlave, OldOrReady, MarkedStays, RoleKnown, Committed, ReadyToCommit;
    if n == 0 {
      RoleAtStart(u);
    } else {
      var x := CommitUpTo(u, n - 1);
      RoleThroughCommit(u, n - 1);
      CommittedSoFar(u, n - 1);
      OldOrReadyStep(u, n - 1, x);
      MarkedStaysStep(u, n - 1, x);
      RoleStep(u, n - 1, x);
    }
  }

  lemma RoleAtStart(u: BondView)
    requires ReadyToCommit(u)
    ensures OldOrReady(u, CommitUpTo(u, 0)) && MarkedStays(u, 0, CommitUpTo(u, 0)) && RoleKnown(u, 0, CommitUpTo(u, 0))
  {
  }

  // ------------------------------------ main results --------------------------------

  /** After a tick from a bond that agrees and whose active slave reads ACTIVE, it still does
      unless it was overtaken: promoted by an earlier commit of the same loop, and then marked
      by its own. */
  lemma TickReadsActiveIff(v: BondView, reports: seq<bool>)
    requires Agrees(v) && ReadsActive(v) && |reports| == |v.slaves|
    ensures ReadsActive(Tick(v, reports)) <==> !Overtaken(v, reports)
  {
    hide CommitUpTo;
    var u := Inspect(v, reports);
    InspectIsReadyToCommit(v, reports);
    RoleThroughCommit(u, |u.slaves|);
    Debounce.TickCommits(v, reports);
  }

  lemma StepReadsActiveIff(v: BondView, e: Event)
    requires Agrees(v) && ReadsActive(v) && e.Possible(v)
    ensures ReadsActive(Step(v, e)) <==> !(e.Monitored? && Overtaken(v, e.reports))
  {
    hide Tick, Select, Overtaken, SlaveByDev, BestSlave;
    match e {
      case Enslaved(dev, isUp, linkUp, named) =>
        var n := |v.slaves|;
        var u := v.(slaves := v.slaves + [FreshSlave(v.params, dev, isUp, linkUp)],
                    primary := if named then n else v.primary);
        SelectOnActive(u.(slaves := u.slaves[n := SetInactiveFlags(u.slaves[n])]));
      case Released(k) => SelectOnActive(Detach(v, k));
      case Monitored(reports) => TickReadsActiveIff(v, reports);
      case _ =>
    }
  }

  ghost predicate ReadsActiveThroughout(v: BondView, es: seq<Event>)
    requires Plays(v, es)
    decreases |es|
  {
    ReadsActive(v) && (es != [] ==> ReadsActiveThroughout(Step(v, es[0]), es[1..]))
  }

  ghost predicate NeverOvertaken(v: BondView, es: seq<Event>)
    requires Plays(v, es)
    decreases |es|
  {
    es != [] ==> !(es[0].Monitored? && Overtaken(v, es[0].reports)) && NeverOvertaken(Step(v, es[0]), es[1..])
  }

  /** Over any run without a blind move the active slave reads ACTIVE throughout exactly if it is
      never overtaken. */
  lemma {:induction false} RunReadsActiveIff(v: BondView, es: seq<Event>)
    requires Agrees(v) && ReadsActive(v) && Plays(v, es) && NeverBlind(v, es)
    ensures ReadsActiveThroughout(v, es) <==> NeverOvertaken(v, es)
    ensures NeverOvertaken(v, es) ==> ReadsActive(Run(v, es))
    decreases |es|
  {
    hide Agrees, Step, Blind, ReadsActive, Overtaken;
    if es != [] {
      StepAgreesIff(v, es[0]);
      StepReadsActiveIff(v, es[0]);
      if ReadsActive(Step(v, es[0])) {
        RunReadsActiveIff(Step(v, es[0]), es[1..]);
      }
    }
  }

  /** And overtaken it can be.  With an updelay of one tick: enslave two slaves, let both settle,
      take the first device down without its link check noticing, and tick.  Committing the first
      promotes the second, whose own commit then marks it BACKUP. */
  lemma OvertakingIsReachable(p: Params) returns (es: seq<Event>, reports: seq<bool>)
    requires p == Params(ActiveBackup, 100, 0, 1, 1)
    ensures Plays(Empty(p), es) && NeverBlind(Empty(p), es)
    ensures var v := Run(Empty(p), es);
      Agrees(v) && ReadsActive(v) && |reports| == |v.slaves| && Overtaken(v, reports) && !ReadsActive(Tick(v, reports))
  {
    hide Run, Plays, NeverBlind;
    var e := [Enslaved(0, true, true, false), Enslaved(1, true, true, false),
              Monitored([true, true]), DeviceChanged(0, false)];
    es, reports := e, [true, true];
    var settling := SlaveView(0, Back, To(Up), 1, Backup, true, 0, true);
    var settled := SlaveView(0, Back, NoChange, 0, Backup, true, 0, true);
    var v0 := Empty(p);
    var v1 := v0.(slaves := [settling]);
    var v2 := v0.(slaves := [settling, settling.(dev := 1)]);
    var v3 := v0.(slaves := [settled, settled.(dev := 1)]);
    var v4 := v0.(slaves := [settled.(isUp := false), settled.(dev := 1)]);
    assert Step(v0, e[0]) == v1 by {
      var u := v0.slaves + [FreshSlave(p, 0, true, true)];
      assert u[0 := SetInactiveFlags(u[0])] == v1.slaves;
      BestSlaveIsBest(v1, 0);
    }
    assert Step(v1, e[1]) == v2 by {
      var u := v1.slaves + [FreshSlave(p, 1, true, true)];
      assert u[1 := SetInactiveFlags(u[1])] == v2.slaves;
      BestSlaveIsBest(v2, 0);
    }
    assert Step(v2, e[2]) == v3 by {
      assert Inspect(v2, [true, true]) == v3;
    }
    assert Step(v3, e[3]) == v4;
    StepByStep([v0, v1, v2, v3, v4], e);
    SightedRun(v0, e);
    SecondIsOvertaken(v4);
  }

  /** A run without make and test ioctls has no blind moves. */
  lemma {:induction false} SightedRun(v: BondView, es: seq<Event>)
    requires Plays(v, es) && forall i :: 0 <= i < |es| ==> !es[i].Made? && !es[i].Designated?
    ensures NeverBlind(v, es)
    decreases |es|
  {
    if es != [] {
      SightedRun(Step(v, es[0]), es[1..]);
    }
  }

  lemma SecondIsOvertaken(v: BondView)
    requires v.Valid() && v.params == Params(ActiveBackup, 100, 0, 1, 1) && v.active == v.primary == NULL
    requires var s := SlaveView(0, Back, NoChange, 0, Backup, true, 0, false);
      v.slaves == [s, s.(dev := 1, isUp := true)]
    ensures Agrees(v) && ReadsActive(v) && Overtaken(v, [true, true]) && !ReadsActive(Tick(v, [true, true]))
  {
    var s, reports := v.slaves[0], [true, true];
    var u := Inspect(v, reports);
    assert u.slaves == [s.(newLink := To(Up)), s.(dev := 1, isUp := true, newLink := To(Up))];
    var x := u.(slaves := u.slaves[0 := CommittedUp(u.params, u.slaves[0], false)]);
    assert BestSlave(x) == 1 by {
      assert SearchStart(x) == 0;
      assert BestFrom(x.slaves, 0, 0, 1, NULL) == BestFrom(x.slaves, 0, 1, 1, NULL) == BestFrom(x.slaves, 0, 2, 0, 1);
    }
    assert CommitUpTo(u, 0) == u;
    assert CommitUpTo(u, 1) == CommitSlave(u, 0) == Select(x);
    assert Select(x).active == 1;
    assert CommitUpTo(u, 2) == CommitSlave(Select(x), 1);
    assert MarkedBackup(u, 1);
    TickReadsActiveIff(v, reports);
  }
}
