/** What the operations of the driver do to the pointers and the slaves, told without the functions
    that define them: moving the active slave, releasing and enslaving a slave, and the ioctls. */
module BondLaws {
  import opened Lists
  import opened BondState
  import opened BestSlaveLaws
  import opened BondRuns

  /** Someone can carry traffic now, or settles in less than `bound`: what a selection needs. */
  ghost predicate SomeoneFit(s: seq<SlaveView>, bound: int, except: int) {
    exists p :: 0 <= p < |s| && p != except && s[p].isUp &&
                (s[p].link == Up || (s[p].link == Back && s[p].delay < bound))
  }

  // --------------------------------- changing the active slave ----------------------

  /** The slave that becomes active has its link UP if it was settling; in active-backup mode it
      loses the inactive flags and its predecessor gets them.  Nothing else changes. */
  lemma MoveTells(v: BondView, n: int, i: nat)
    requires v.Valid() && NULL <= n < |v.slaves| && i < |v.slaves|
    ensures var w := ChangeActive(v, n); var s, t := v.slaves[i], w.slaves[i];
      && w.active == n && w.primary == v.primary
      && t.dev == s.dev && t.isUp == s.isUp && t.failures == s.failures && t.newLink == s.newLink
      && (i == n != v.active && s.link == Back ==> t.link == Up && t.delay == 0)
      && (i != n || n == v.active || s.link != Back ==> t.link == s.link && t.delay == s.delay)
      && (v.params.mode == ActiveBackup && n != v.active ==>
            && (i == n ==> t.role == Active && !t.inactive)
            && (i == v.active ==> t.role == Backup && t.inactive))
      && (v.params.mode != ActiveBackup || n == v.active || i !in {n, v.active} ==>
            t.role == s.role && t.inactive == s.inactive)
  {
  }

  // --------------------------------------- release -----------------------------------

  /** After the active slave has been released no slave is active exactly if none of the others is
      ready or settling with less than updelay to go; otherwise a ready one is, and the primary if
      it is ready and there is no ARP monitoring. */
  lemma ReleasedActive(v: BondView, k: nat)
    requires v.Valid() && k < |v.slaves| && v.active == k
    ensures var w := Release(v, k);
      && (w.active == NULL <==> !SomeoneFit(v.slaves, v.params.updelay, k))
      && (w.active != NULL ==> w.slaves[w.active].isUp && w.slaves[w.active].link == Up)
      && (v.primary !in {NULL, k} && v.params.arpInterval == 0
          && v.slaves[v.primary].isUp && v.slaves[v.primary].link == Up ==>
            w.active == if v.primary < k then v.primary else v.primary - 1)
  {
    hide BestSlave;
    var u := Detach(v, k);
    SelectedIsReady(u);
    assert forall p :: 0 <= p < |v.slaves| && p != k ==> u.slaves[if p < k then p else p - 1] == v.slaves[p];
    if u.primary != NULL && u.params.arpInterval == 0 && u.slaves[u.primary].isUp && u.slaves[u.primary].link == Up {
      ReadyPrimaryIsSelected(u);
    }
  }

  /** The active slave stays active when another one is released; the primary pointer follows its
      slave in any case, and is null once that is gone. */
  lemma ReleasedOther(v: BondView, k: nat)
    requires v.Valid() && k < |v.slaves|
    ensures var w := Release(v, k);
      && (v.active != k ==> w.active == if v.active < k then v.active else v.active - 1)
      && w.primary == if v.primary == k then NULL else if v.primary < k then v.primary else v.primary - 1
  {
    hide BestSlave;
  }

  /** All other slaves are left as they were, but for the one that takes over. */
  lemma ReleaseSpares(v: BondView, k: nat, p: nat)
    requires v.Valid() && k < |v.slaves| && p < |v.slaves| && p != k
    ensures var w, q := Release(v, k), if p < k then p else p - 1;
      && w.slaves[q].dev == v.slaves[p].dev
      && (v.active != k || w.active != q ==> w.slaves[q] == v.slaves[p])
  {
    hide BestSlave;
  }

  // --------------------------------------- enslave -----------------------------------

  /** The new slave comes last.  Its link is UP if its check is good or there is no MII monitoring,
      but settles first if there is an updelay, unless the Hoolock mode makes it active at once. */
  lemma EnslavedLink(v: BondView, dev: nat, isUp: bool, linkUp: bool, named: bool)
    requires v.Valid()
    ensures var w := Enslave(v, dev, isUp, linkUp, named); var t := w.slaves[|v.slaves|];
      && t.dev == dev && t.isUp == isUp && t.failures == 0 && t.newLink == To(Up)
      && (v.params.miimon != 0 && !linkUp ==> t.link == Down && t.delay == 0)
      && (v.params.miimon == 0 || linkUp ==>
            if v.params.updelay > 0 && !(v.params.mode == Hoolock && v.active == NULL)
            then t.link == Back && t.delay == v.params.updelay
            else t.link == Up && t.delay == 0)
  {
    hide BestSlave;
    if v.params.mode == ActiveBackup {
      EnslavedInBackup(v, dev, isUp, linkUp, named);
      JoinedFlags(v, dev, isUp, linkUp, named);
      hide Select, Enslave;
    }
  }

  /** The bond in which active-backup mode looks for an active slave when one has been enslaved. */
  function Joined(v: BondView, dev: nat, isUp: bool, linkUp: bool, named: bool): (u: BondView)
    requires v.Valid()
    ensures u.Valid()
  {
    v.(slaves := v.slaves + [SetInactiveFlags(FreshSlave(v.params, dev, isUp, linkUp))],
       primary := if named then |v.slaves| else v.primary)
  }

  lemma EnslavedInBackup(v: BondView, dev: nat, isUp: bool, linkUp: bool, named: bool)
    requires v.Valid() && v.params.mode == ActiveBackup
    ensures Enslave(v, dev, isUp, linkUp, named) == Select(Joined(v, dev, isUp, linkUp, named))
  {
    hide Select, FreshSlave;
    var n, one := |v.slaves|, FreshSlave(v.params, dev, isUp, linkUp);
    assert (v.slaves + [one])[n := SetInactiveFlags(one)] == Joined(v, dev, isUp, linkUp, named).slaves;
  }

  /** There, a slave that has to settle is not yet fit to be selected. */
  lemma JoinedFlags(v: BondView, dev: nat, isUp: bool, linkUp: bool, named: bool)
    requires v.Valid() && v.params.mode == ActiveBackup
    ensures var n, u := |v.slaves|, Joined(v, dev, isUp, linkUp, named);
      var w, joined := Select(u), u.slaves[n];
      && (w.active == n ==> isUp && joined.link == Up && w.slaves[n] == SetActiveFlags(joined))
      && (w.active != n ==> w.slaves[n] == joined)
  {
    hide BestSlave;
    var u := Joined(v, dev, isUp, linkUp, named);
    SelectedWasFit(u);
  }

  /** In active-backup mode enslaving selects: a slave named the primary that is ready takes over,
      a healthy active slave keeps its place against anyone else, and some slave is active if one is
      fit, the new one included.  The new slave is ACTIVE exactly if it is the active one. */
  lemma EnslavedSelects(v: BondView, dev: nat, isUp: bool, linkUp: bool, named: bool)
    requires v.Valid() && v.params.mode == ActiveBackup
    ensures var w, n := Enslave(v, dev, isUp, linkUp, named), |v.slaves|;
      var good := (v.params.miimon == 0 || linkUp) && v.params.updelay == 0;
      && w.primary == (if named then n else v.primary)
      && (named && v.params.arpInterval == 0 && isUp && good ==> w.active == n)
      && (v.active != NULL && v.slaves[v.active].isUp && v.slaves[v.active].link == Up
          && (if named then v.params.arpInterval != 0 || !isUp
              else v.primary in {NULL, v.active} || v.params.arpInterval != 0 || !v.slaves[v.primary].isUp) ==>
            w.active == v.active)
      && (w.active == NULL <==> !SomeoneFit(v.slaves, v.params.updelay, NULL) && !(isUp && good))
      && (if w.active == n then w.slaves[n].role == Active && !w.slaves[n].inactive
          else w.slaves[n].role == Backup && w.slaves[n].inactive)
  {
    EnslavedInBackup(v, dev, isUp, linkUp, named);
    JoinedFlags(v, dev, isUp, linkUp, named);
    var n, u := |v.slaves|, Joined(v, dev, isUp, linkUp, named);
    var joined := u.slaves[n];
    SelectedIsReady(u);
    hide BestSlave, Enslave, Select;
    assert forall p :: 0 <= p < n ==> u.slaves[p] == v.slaves[p];
    if named && v.params.arpInterval == 0 && isUp && joined.link == Up {
      ReadyPrimaryIsSelected(u);
    }
    if v.active != NULL && u.slaves[v.active].isUp && u.slaves[v.active].link == Up
       && (u.primary in {NULL, u.active} || u.params.arpInterval != 0 || !u.slaves[u.primary].isUp) {
      SelectKeepsHealthyActive(u);
    }
  }

  /** In the other modes the first slave becomes the active one and stays it, every new slave is
      ACTIVE, and the others are not touched. */
  lemma EnslavedOtherwise(v: BondView, dev: nat, isUp: bool, linkUp: bool, named: bool)
    requires v.Valid() && v.params.mode != ActiveBackup
    ensures var w, n := Enslave(v, dev, isUp, linkUp, named), |v.slaves|;
      && w.primary == (if v.params.mode == Hoolock && named then n else v.primary)
      && w.active == (if v.active == NULL then n else v.active)
      && w.slaves[n].role == Active && !w.slaves[n].inactive
      && w.slaves[..n] == v.slaves
  {
  }

  /** Nor are they in active-backup mode, but for the two that change places. */
  lemma EnslaveSpares(v: BondView, dev: nat, isUp: bool, linkUp: bool, named: bool, i: nat)
    requires v.Valid() && v.params.mode == ActiveBackup && i < |v.slaves|
    ensures var w := Enslave(v, dev, isUp, linkUp, named);
      && w.slaves[i].dev == v.slaves[i].dev
      && (w.active == v.active || i !in {v.active, w.active} ==> w.slaves[i] == v.slaves[i])
  {
    EnslavedInBackup(v, dev, isUp, linkUp, named);
    hide BestSlave, Enslave;
  }

  // --------------------------------------- ioctls ------------------------------------

  /** The change of the active slave is carried out exactly in a mode with a primary, for the
      active slave itself or, if there is one, for another that is ready; otherwise nothing is. */
  lemma ChangeIsAcceptedIff(v: BondView, k: nat)
    requires v.Valid() && k < |v.slaves|
    ensures var w := IoctlChangeActive(v, k);
      var accepted := v.params.mode in {ActiveBackup, Hoolock} &&
        (k == v.active || (v.active != NULL && v.slaves[k].isUp && v.slaves[k].link == Up));
      && (ChangeActiveAccepted(v, k) <==> accepted)
      && w.active == (if accepted then k else v.active)
      && (w.active == v.active ==> w == v)
  {
  }

  /** The make ioctl moves to the first slave, from the head on, that is not the active one; with
      no other slave it moves nowhere. */
  lemma MakeMovesToFirstOther(v: BondView)
    requires v.Valid()
    ensures var w := IoctlMake(v);
      if v.slaves == [] || (|v.slaves| == 1 && v.active == 0) then w == v
      else w.active == if v.active == 0 then 1 else 0
  {
  }

  /** The test ioctl moves to the first slave on the device, or to the head if there is none. */
  lemma TestMovesToFirstOn(v: BondView, dev: nat)
    requires v.Valid() && v.slaves != []
    ensures var w := IoctlTest(v, dev);
      if exists p :: 0 <= p < |v.slaves| && v.slaves[p].dev == dev then
        && 0 <= w.active < |v.slaves| && v.slaves[w.active].dev == dev
        && forall p :: 0 <= p < w.active ==> v.slaves[p].dev != dev
      else w.active == 0
  {
    hide ChangeActive;
    if forall p :: 0 <= p < |v.slaves| ==> v.slaves[p].dev != dev {
      MissIsHead(v.slaves, dev, 0);
    }
  }

  lemma {:induction false} MissIsHead(s: seq<SlaveView>, dev: nat, i: nat)
    requires s != [] && i <= |s| && forall p :: 0 <= p < |s| ==> s[p].dev != dev
    ensures SlaveByDevFrom(s, dev, i) == 0
    decreases |s| - i
  {
    if i < |s| {
      MissIsHead(s, dev, i + 1);
    }
  }

  // ------------------------- the flags outside active-backup mode --------------------

  /** Every slave is ACTIVE and none is flagged inactive. */
  predicate AllActive(v: BondView) {
    forall i :: 0 <= i < |v.slaves| ==> v.slaves[i].role == Active && !v.slaves[i].inactive
  }

  lemma MoveKeepsAllActive(v: BondView, n: int)
    requires v.Valid() && NULL <= n < |v.slaves| && v.params.mode != ActiveBackup
    ensures AllActive(ChangeActive(v, n)) <==> AllActive(v)
  {
    forall i | 0 <= i < |v.slaves| { MoveTells(v, n, i); }
    hide ChangeActive;
  }

  lemma CommitKeepsAllActive(v: BondView, i: nat)
    requires v.Valid() && i < |v.slaves| && v.params.mode != ActiveBackup && AllActive(v)
    ensures AllActive(CommitSlave(v, i))
  {
    hide ChangeActive, BestSlave;
    var s := v.slaves[i];
    var up := v.(slaves := v.slaves[i := CommittedUp(v.params, s, i == v.primary)]);
    var down := v.(slaves := v.slaves[i := CommittedDown(v.params, s)]);
    MoveKeepsAllActive(up, BestSlave(up));
    MoveKeepsAllActive(down, BestSlave(down));
  }

  lemma {:induction false} CommitsKeepAllActive(v: BondView, n: nat)
    requires v.Valid() && n <= |v.slaves| && v.params.mode != ActiveBackup && AllActive(v)
    ensures AllActive(CommitUpTo(v, n))
  {
    hide CommitSlave, AllActive;
    if n > 0 {
      CommitsKeepAllActive(v, n - 1);
      CommitKeepsAllActive(CommitUpTo(v, n - 1), n - 1);
    }
  }

  lemma TickKeepsAllActive(v: BondView, reports: seq<bool>)
    requires v.Valid() && |reports| == |v.slaves| && v.params.mode != ActiveBackup && AllActive(v)
    ensures AllActive(Tick(v, reports))
  {
    hide CommitUpTo;
    CommitsKeepAllActive(Inspect(v, reports), |v.slaves|);
  }

  lemma StepKeepsAllActive(v: BondView, e: Event)
    requires v.Valid() && e.Possible(v) && v.params.mode != ActiveBackup && AllActive(v)
    ensures AllActive(Step(v, e))
  {
    hide ChangeActive, Tick, Enslave, SlaveByDev, MakeTarget, BestSlave;
    match e {
      case Enslaved(dev, isUp, linkUp, named) => EnslavedOtherwise(v, dev, isUp, linkUp, named);
      case Released(k) => MoveKeepsAllActive(Detach(v, k), BestSlave(Detach(v, k)));
      case Monitored(reports) => TickKeepsAllActive(v, reports);
      case ActiveChanged(k) => MoveKeepsAllActive(v, k);
      case Made => MoveKeepsAllActive(v, MakeTarget(v));
      case Designated(dev) => MoveKeepsAllActive(v, SlaveByDev(v.slaves, dev));
      case _ =>
    }
  }

  /** In every mode but active-backup all slaves are ACTIVE, and none is flagged inactive, over
      every run of a new bond: who may carry traffic depends on the links alone. */
  lemma {:induction false} RunKeepsAllActive(v: BondView, es: seq<Event>)
    requires Plays(v, es) && v.params.mode != ActiveBackup && AllActive(v)
    ensures AllActive(Run(v, es))
    decreases |es|
  {
    hide Step, AllActive;
    if es != [] {
      StepKeepsAllActive(v, es[0]);
      RunKeepsAllActive(Step(v, es[0]), es[1..]);
    }
  }
}
