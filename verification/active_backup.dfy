/** Active-backup mode over every run of the driver's operations: the flags, states and
    pointers that say which slave is in use always agree. */
module ActiveBackupSafety {
  import opened BondState
  import opened BestSlaveLaws
  import opened BondRuns

  /** IFF_SLAVE_INACTIVE is clear on exactly the current active slave, no other slave has
      state ACTIVE, the active slave's link is UP or FAIL, and the active and primary
      pointers are null or lead into the ring. */
  ghost predicate Agrees(v: BondView) {
    && v.params.mode == ActiveBackup
    && v.Valid()
    && (forall i :: 0 <= i < |v.slaves| ==> v.slaves[i].inactive == (i != v.active))
    && (forall i :: 0 <= i < |v.slaves| && i != v.active ==> v.slaves[i].role == Backup)
    && (v.active != NULL ==> v.slaves[v.active].link in {Up, Fail})
  }

  /** Making `n` active keeps everything in agreement unless `n`'s link is down. */
  lemma ChangeActiveAgrees(v: BondView, n: int)
    requires Agrees(v) && NULL <= n < |v.slaves|
    ensures Agrees(ChangeActive(v, n)) <==> n == NULL || n == v.active || v.slaves[n].link != Down
  {
  }

  /** The make ioctl breaks agreement exactly when the first slave that is not active has its
      link down. */
  lemma MakeAgrees(v: BondView)
    requires Agrees(v)
    ensures Agrees(IoctlMake(v)) <==> MakeTarget(v) == NULL || v.slaves[MakeTarget(v)].link != Down
  {
    if MakeTarget(v) != NULL {
      ChangeActiveAgrees(v, MakeTarget(v));
    }
  }

  /** And the test ioctl exactly when it moves to a slave whose link is down, be it the slave on
      the device or, if there is none, the head of the ring. */
  lemma DesignatedAgrees(v: BondView, dev: nat)
    requires Agrees(v)
    ensures Agrees(IoctlTest(v, dev)) <==>
      v.slaves == [] || var k := SlaveByDev(v.slaves, dev); k == v.active || v.slaves[k].link != Down
  {
    if v.slaves != [] {
      ChangeActiveAgrees(v, SlaveByDev(v.slaves, dev));
    }
  }

  /** Agreement, except that the active slave may just have lost its link for good. */
  ghost predicate AgreesButActive(v: BondView) {
    && v.params.mode == ActiveBackup
    && v.Valid()
    && (forall i :: 0 <= i < |v.slaves| && i != v.active ==> v.slaves[i].inactive && v.slaves[i].role == Backup)
    && (v.active != NULL ==>
          var s := v.slaves[v.active];
          s.link == Down || (!s.inactive && s.link in {Up, Fail}))
  }

  lemma SelectRestoresAgreement(v: BondView)
    requires AgreesButActive(v)
    ensures Agrees(Select(v))
  {
    hide BestSlave;
    var n := BestSlave(v);
    BestIsUpOrBack(v);
  }

  lemma ReleaseAgrees(v: BondView, k: nat)
    requires Agrees(v) && k < |v.slaves|
    ensures Agrees(Release(v, k))
  {
    SelectRestoresAgreement(Detach(v, k));
  }

  lemma EnslaveAgrees(v: BondView, dev: nat, isUp: bool, linkUp: bool, namedPrimary: bool)
    requires Agrees(v)
    ensures Agrees(Enslave(v, dev, isUp, linkUp, namedPrimary))
  {
    hide Select;
    var u := v.(slaves := v.slaves + [FreshSlave(v.params, dev, isUp, linkUp)],
                primary := if namedPrimary then |v.slaves| else v.primary);
    var n := |v.slaves|;
    SelectRestoresAgreement(u.(slaves := u.slaves[n := SetInactiveFlags(u.slaves[n])]));
  }

  // ------------------------------- the monitor tick --------------------------------

  lemma InspectAgrees(v: BondView, reports: seq<bool>)
    requires Agrees(v) && |reports| == |v.slaves|
    ensures Agrees(Inspect(v, reports))
    ensures forall i :: 0 <= i < |v.slaves| ==> Inspected(Inspect(v, reports).slaves[i])
  {
  }

  lemma SelectKeepsInspected(v: BondView, i: nat)
    requires v.Valid() && i < |v.slaves| && Inspected(v.slaves[i])
    ensures Inspected(Select(v).slaves[i])
  {
    hide BestSlave;
  }

  lemma CommitSlaveAgrees(v: BondView, i: nat)
    requires Agrees(v) && i < |v.slaves| && Inspected(v.slaves[i])
    ensures Agrees(CommitSlave(v, i))
  {
    hide Select;
    var s := v.slaves[i];
    match s.newLink {
      case To(Up) =>
        var u := v.(slaves := v.slaves[i := CommittedUp(v.params, s, i == v.primary)]);
        assert Agrees(u);
        SelectRestoresAgreement(u);
      case To(Down) =>
        SelectRestoresAgreement(v.(slaves := v.slaves[i := CommittedDown(v.params, s)]));
      case _ =>
    }
  }

  lemma CommitSlaveKeepsOthersInspected(v: BondView, i: nat, j: nat)
    requires v.Valid() && i < |v.slaves| && j < |v.slaves| && i != j && Inspected(v.slaves[j])
    ensures Inspected(CommitSlave(v, i).slaves[j])
  {
    hide Select;
    var s := v.slaves[i];
    match s.newLink {
      case To(Up) =>
        SelectKeepsInspected(v.(slaves := v.slaves[i := CommittedUp(v.params, s, i == v.primary)]), j);
      case To(Down) =>
        SelectKeepsInspected(v.(slaves := v.slaves[i := CommittedDown(v.params, s)]), j);
      case _ =>
    }
  }

  lemma {:induction false} CommitAgrees(v: BondView, n: nat)
    requires Agrees(v) && n <= |v.slaves|
    requires forall i :: 0 <= i < |v.slaves| ==> Inspected(v.slaves[i])
    ensures Agrees(CommitUpTo(v, n))
    ensures forall i :: n <= i < |v.slaves| ==> Inspected(CommitUpTo(v, n).slaves[i])
  {
    hide CommitSlave;
    if n > 0 {
      CommitAgrees(v, n - 1);
      var u := CommitUpTo(v, n - 1);
      CommitSlaveAgrees(u, n - 1);
      forall i | n <= i < |v.slaves| ensures Inspected(CommitUpTo(v, n).slaves[i]) {
        CommitSlaveKeepsOthersInspected(u, n - 1, i);
      }
    }
  }

  lemma TickAgrees(v: BondView, reports: seq<bool>)
    requires Agrees(v) && |reports| == |v.slaves|
    ensures Agrees(Tick(v, reports))
  {
    hide CommitUpTo;
    InspectAgrees(v, reports);
    CommitAgrees(Inspect(v, reports), |v.slaves|);
  }

  // ---------------------------------- whole runs -----------------------------------

  /** The event is a make or test ioctl that moves to a slave whose link is down. */
  predicate Blind(v: BondView, e: Event)
    requires v.Valid()
  {
    match e
    case Made => MakeTarget(v) != NULL && v.slaves[MakeTarget(v)].link == Down
    case Designated(dev) =>
      v.slaves != [] && var k := SlaveByDev(v.slaves, dev); k != v.active && v.slaves[k].link == Down
    case _ => false
  }

  /** These two ioctls are the only operations that can break agreement, and they do exactly
      when they are blind. */
  lemma StepAgreesIff(v: BondView, e: Event)
    requires Agrees(v) && e.Possible(v)
    ensures Agrees(Step(v, e)) <==> !Blind(v, e)
  {
    hide Release, Enslave, Tick, IoctlMake, IoctlTest, SlaveByDev;
    match e {
      case Enslaved(dev, isUp, linkUp, named) => EnslaveAgrees(v, dev, isUp, linkUp, named);
      case Released(k) => ReleaseAgrees(v, k);
      case Monitored(reports) => TickAgrees(v, reports);
      case ActiveChanged(k) => ChangeActiveAgrees(v, k);
      case Made => MakeAgrees(v);
      case Designated(dev) => DesignatedAgrees(v, dev);
      case _ =>
    }
  }

  /** The bond agrees before the run, after it and everywhere in between. */
  ghost predicate AgreesThroughout(v: BondView, es: seq<Event>)
    requires Plays(v, es)
    decreases |es|
  {
    Agrees(v) && (es != [] ==> AgreesThroughout(Step(v, es[0]), es[1..]))
  }

  ghost predicate NeverBlind(v: BondView, es: seq<Event>)
    requires Plays(v, es)
    decreases |es|
  {
    es != [] ==> !Blind(v, es[0]) && NeverBlind(Step(v, es[0]), es[1..])
  }

  lemma {:induction false} RunAgreesIff(v: BondView, es: seq<Event>)
    requires Agrees(v) && Plays(v, es)
    ensures AgreesThroughout(v, es) <==> NeverBlind(v, es)
    ensures AgreesThroughout(v, es) ==> Agrees(Run(v, es))
    decreases |es|
  {
    hide Agrees, Step, Blind;
    if es != [] {
      StepAgreesIff(v, es[0]);
      if Agrees(Step(v, es[0])) {
        RunAgreesIff(Step(v, es[0]), es[1..]);
      } else {
        NotThroughout(Step(v, es[0]), es[1..]);
      }
    }
  }

  lemma NotThroughout(v: BondView, es: seq<Event>)
    requires Plays(v, es) && !Agrees(v)
    ensures !AgreesThroughout(v, es)
  {
  }

  /** A new bond, with no slaves. */
  function Empty(p: Params): (v: BondView)
    ensures v.Valid() && v.params == p
  {
    BondView(p, [], NULL, NULL)
  }

  /** Over every run of a new bond: it agrees throughout exactly if no move is blind. */
  lemma EveryRunAgrees(p: Params, es: seq<Event>)
    requires p.mode == ActiveBackup && Plays(Empty(p), es)
    ensures AgreesThroughout(Empty(p), es) <==> NeverBlind(Empty(p), es)
    ensures NeverBlind(Empty(p), es) ==> Agrees(Run(Empty(p), es))
  {
    RunAgreesIff(Empty(p), es);
  }

  /** Blind moves of both kinds are reached in three steps: enslave a slave with its link up,
      enslave one with its link down, and make or designate. */
  lemma BlindMovesAreReachable(p: Params) returns (es: seq<Event>)
    requires p == Params(ActiveBackup, 100, 0, 0, 0)
    ensures Plays(Empty(p), es) && var v := Run(Empty(p), es);
      Agrees(v) && forall e :: e in {Made, Designated(1)} ==> Blind(v, e) && !Agrees(Step(v, e))
  {
    hide Run, Plays;
    var e0, e1 := Enslaved(0, true, true, false), Enslaved(1, true, false, false);
    es := [e0, e1];
    var s := SlaveView(0, Up, To(Up), 0, Active, false, 0, true);
    var t := s.(dev := 1, link := Down);
    var v0 := Empty(p);
    var v1 := v0.(slaves := [s], active := 0);
    assert Step(v0, e0) == v1 by {
      assert v0.slaves + [s] == [s];
      assert BestSlave(v0.(slaves := [SetInactiveFlags(s)])) == 0;
    }
    var v2 := v1.(slaves := [s, SetInactiveFlags(t)]);
    assert Step(v1, e1) == v2 by {
      assert (v1.slaves + [t])[1 := SetInactiveFlags(t)] == v2.slaves;
      ReadyStartIsBest(v2, 0);
    }
    StepByStep([v0, v1, v2], es);
    assert SlaveByDev(v2.slaves, 1) == 1 by {
      assert SlaveByDevFrom(v2.slaves, 1, 1) == 1;
    }
    StepAgreesIff(v2, Made);
    StepAgreesIff(v2, Designated(1));
  }
}
