/** The 2.6.27 link monitor on the heap ring: an inspect pass that ages link states,
    then a commit pass that carries out what inspection found. */
module BondMonitor27 {
  import opened BondState
  import opened BondRing

  /** One turn of the inspect loop; the result says whether a commit is needed. */
  method InspectOne(b: Bonding, slave: Slave, ghost k: nat, linkState: bool) returns (commit: bool)
    requires b.Valid() && k < |b.ring| && slave == b.ring[k]
    modifies b`view, slave`link, slave`newLink, slave`delay
    ensures b.Valid()
    ensures var v := old(b.view);
      && b.view == v.(slaves := v.slaves[k := InspectSlave(b.params, v.slaves[k], linkState)])
      && (commit <==> b.view.slaves[k].newLink != NoChange)
  {
    commit := InspectFields(b.params, slave, linkState);
    b.view := b.view.(slaves := b.view.slaves[k := slave.View()]);
  }

  method InspectFields(p: Params, slave: Slave, linkState: bool) returns (commit: bool)
    modifies slave`link, slave`newLink, slave`delay
    ensures slave.View() == InspectSlave(p, old(slave.View()), linkState)
    ensures commit <==> slave.newLink != NoChange
  {
    slave.newLink := NoChange;
    if slave.link == Up {
      if linkState {
        return false;
      }
      slave.link := Fail;
      slave.delay := p.downdelay;
    } else if slave.link == Down {
      if !linkState {
        return false;
      }
      slave.link := Back;
      slave.delay := p.updelay;
    }
    if slave.link == Fail {
      if linkState {
        slave.link := Up;
        return false;
      }
      if slave.delay <= 0 {
        slave.newLink := To(Down);
        return true;
      }
    } else {
      if !linkState {
        slave.link := Down;
        return false;
      }
      if slave.delay <= 0 {
        slave.newLink := To(Up);
        return true;
      }
    }
    slave.delay := slave.delay - 1;
    return false;
  }

  /** The inspect pass has dealt with the first `i` slaves of `v`, giving `w`, and found out whether
      any of them has something to commit. */
  ghost predicate InspectedSoFar(v: BondView, reports: seq<bool>, i: nat, w: BondView, pending: bool) {
    && w == v.(slaves := w.slaves) && i <= |v.slaves| == |reports| == |w.slaves|
    && (forall j :: 0 <= j < |w.slaves| ==>
          w.slaves[j] == if j < i then InspectSlave(v.params, v.slaves[j], reports[j]) else v.slaves[j])
    && (pending <==> exists j :: 0 <= j < i && w.slaves[j].newLink != NoChange)
  }

  lemma NoneInspected(v: BondView, reports: seq<bool>)
    requires |reports| == |v.slaves|
    ensures InspectedSoFar(v, reports, 0, v, false)
  {
  }

  lemma InspectOneMore(v: BondView, reports: seq<bool>, i: nat, w: BondView, pending: bool)
    requires InspectedSoFar(v, reports, i, w, pending) && i < |v.slaves|
    ensures var s := InspectSlave(v.params, w.slaves[i], reports[i]);
      InspectedSoFar(v, reports, i + 1, w.(slaves := w.slaves[i := s]), pending || s.newLink != NoChange)
  {
    hide InspectSlave;
    var s := InspectSlave(v.params, w.slaves[i], reports[i]);
    var x := w.(slaves := w.slaves[i := s]);
    if pending {
      var j :| 0 <= j < i && w.slaves[j].newLink != NoChange;
      assert x.slaves[j] == w.slaves[j];
    }
    assert x.slaves[i] == s;
  }

  lemma AllInspected(v: BondView, reports: seq<bool>, w: BondView, pending: bool)
    requires v.Valid() && InspectedSoFar(v, reports, |v.slaves|, w, pending)
    ensures w == Inspect(v, reports) && (pending <==> HasPending(w))
  {
    hide InspectSlave;
  }

  /** One turn of the inspect loop, and the next slave. */
  method InspectTurn(b: Bonding, slave: Slave, i: nat, reports: seq<bool>, commit: nat, ghost v: BondView)
      returns (next: Slave?, count: nat)
    requires b.Valid() && i < |b.ring| == |v.slaves| && slave == b.ring[i]
    requires InspectedSoFar(v, reports, i, b.view, commit > 0)
    modifies b`view, b.ring`link, b.ring`newLink, b.ring`delay
    ensures b.Valid() && InspectedSoFar(v, reports, i + 1, b.view, count > 0)
    ensures next == b.ring[After(i, |b.ring|)]
  {
    hide InspectSlave, Bonding.Valid, Linked;
    RingShape(b);
    NextOf(b.ring, i);
    InspectOneMore(v, reports, i, b.view, commit > 0);
    hide InspectedSoFar;
    next, count := slave.next, commit;
    var c := InspectOne(b, slave, i, reports[i]);
    if c {
      count := count + 1;
    }
  }

  method MiimonInspect(b: Bonding, reports: seq<bool>) returns (commit: nat)
    requires b.Valid() && |reports| == |b.ring|
    modifies b`view, b.ring`link, b.ring`newLink, b.ring`delay
    ensures b.Valid() && b.view == Inspect(old(b.view), reports)
    ensures commit > 0 <==> HasPending(b.view)
  {
    hide InspectedSoFar, InspectSlave, Bonding.Valid, Linked, Inspect, HasPending;
    commit := 0;
    var slave := b.first;
    var i := 0;
    ghost var v, r := b.view, b.ring;
    RingShape(b);
    NoneInspected(v, reports);
    while i < b.cnt
      invariant 0 <= i <= b.cnt == |r| && b.ring == r
      invariant b.Valid() && InspectedSoFar(v, reports, i, b.view, commit > 0)
      invariant i < |r| ==> slave == r[i]
    {
      slave, commit := InspectTurn(b, slave, i, reports, commit, v);
      i := i + 1;
    }
    AllInspected(v, reports, b.view, commit > 0);
  }

  /** One turn of the commit loop. */
  method CommitOne(b: Bonding, slave: Slave, ghost k: nat)
    requires b.Valid() && k < |b.ring| && slave == b.ring[k]
    modifies b`view, b`active, b.ring`link, b.ring`newLink, b.ring`delay, b.ring`state, b.ring`inactive, b.ring`failures
    ensures b.Valid() && b.view == CommitSlave(old(b.view), k)
  {
    match slave.newLink {
      case NoChange =>
        return;
      case To(Up) =>
        CommitUp(b, slave, k);
        if b.active != null && slave != b.primary {
          return;
        }
      case To(Down) =>
        CommitDown(b, slave, k);
        if slave != b.active {
          return;
        }
      case _ =>
        ForgetNewLink(b, slave, k);
        return;
    }
    b.SelectActiveSlave();
  }

  method ForgetNewLink(b: Bonding, slave: Slave, ghost k: nat)
    requires b.Valid() && k < |b.ring| && slave == b.ring[k]
    modifies b`view, slave`newLink
    ensures b.Valid() && var v := old(b.view);
      b.view == v.(slaves := v.slaves[k := v.slaves[k].(newLink := NoChange)])
  {
    slave.newLink := NoChange;
    b.view := b.view.(slaves := b.view.slaves[k := slave.View()]);
  }

  method CommitUp(b: Bonding, slave: Slave, ghost k: nat)
    requires b.Valid() && k < |b.ring| && slave == b.ring[k]
    modifies b`view, slave`link, slave`state
    ensures b.Valid() && var v := old(b.view);
      b.view == v.(slaves := v.slaves[k := CommittedUp(v.params, v.slaves[k], k == v.primary)])
  {
    CommitUpFields(b.params, slave, slave == b.primary);
    b.view := b.view.(slaves := b.view.slaves[k := slave.View()]);
  }

  method CommitUpFields(p: Params, slave: Slave, isPrimary: bool)
    modifies slave`link, slave`state
    ensures slave.View() == CommittedUp(p, old(slave.View()), isPrimary)
  {
    slave.link := Up;
    if p.mode != ActiveBackup {
      slave.state := Active;
    } else if !isPrimary {
      slave.state := Backup;
    }
  }

  method CommitDown(b: Bonding, slave: Slave, ghost k: nat)
    requires b.Valid() && k < |b.ring| && slave == b.ring[k]
    modifies b`view, slave`link, slave`failures, slave`state, slave`inactive
    ensures b.Valid() && var v := old(b.view);
      b.view == v.(slaves := v.slaves[k := CommittedDown(v.params, v.slaves[k])])
  {
    CommitDownFields(b.params, slave);
    b.view := b.view.(slaves := b.view.slaves[k := slave.View()]);
  }

  method CommitDownFields(p: Params, slave: Slave)
    modifies slave`link, slave`failures, slave`state, slave`inactive
    ensures slave.View() == CommittedDown(p, old(slave.View()))
  {
    if slave.failures < UINT_MAX {
      slave.failures := slave.failures + 1;
    }
    slave.link := Down;
    if p.mode == ActiveBackup {
      slave.SetInactiveFlags();
    }
  }

  lemma CommitSteps(v: BondView, n: nat)
    requires v.Valid() && n <= |v.slaves|
    ensures CommitUpTo(v, 0) == v
    ensures n < |v.slaves| ==> CommitUpTo(v, n + 1) == CommitSlave(CommitUpTo(v, n), n)
  {
  }

  /** Then the next slave. */
  method CommitTurn(b: Bonding, slave: Slave, i: nat) returns (next: Slave?)
    requires b.Valid() && i < |b.ring| && slave == b.ring[i]
    modifies b`view, b`active, b.ring`link, b.ring`newLink, b.ring`delay, b.ring`state, b.ring`inactive, b.ring`failures
    ensures b.Valid() && |old(b.view).slaves| == |b.ring| && b.view == CommitSlave(old(b.view), i)
    ensures next == b.ring[After(i, |b.ring|)]
  {
    hide CommitSlave, Bonding.Valid, Linked;
    RingShape(b);
    NextOf(b.ring, i);
    CommitOne(b, slave, i);
    next := slave.next;
  }

  method MiimonCommit(b: Bonding)
    requires b.Valid()
    modifies b`view, b`active, b.ring`link, b.ring`newLink, b.ring`delay, b.ring`state, b.ring`inactive, b.ring`failures
    ensures b.Valid() && b.view == CommitUpTo(old(b.view), |old(b.view).slaves|)
  {
    hide CommitSlave, CommitUpTo, Bonding.Valid, Linked;
    var slave := b.first;
    var i := 0;
    ghost var v, r := b.view, b.ring;
    RingShape(b);
    CommitSteps(v, 0);
    while i < b.cnt
      invariant 0 <= i <= b.cnt == |r| && b.ring == r
      invariant b.Valid() && b.view == CommitUpTo(v, i)
      invariant i < |r| ==> slave == r[i]
    {
      CommitSteps(v, i);
      slave := CommitTurn(b, slave, i);
      i := i + 1;
    }
  }

  lemma EmptyTick(v: BondView, reports: seq<bool>)
    requires v.Valid() && v.slaves == [] && reports == []
    ensures Tick(v, reports) == v
  {
  }

  /** bond_mii_monitor, with the link checks' answers given. */
  method MiiMonitor(b: Bonding, reports: seq<bool>)
    requires b.Valid() && |reports| == |b.ring|
    modifies b`view, b`active, b.ring`link, b.ring`newLink, b.ring`delay, b.ring`state, b.ring`inactive, b.ring`failures
    ensures b.Valid() && b.view == Tick(old(b.view), reports)
  {
    hide CommitUpTo, Inspect;
    if b.cnt == 0 {
      EmptyTick(b.view, reports);
      return;
    }
    var commit := MiimonInspect(b, reports);
    if commit != 0 {
      MiimonCommit(b);
    }
  }
}
