/** The 2.6.24 link monitor on the heap ring. */
module BondMonitor24 {
  import opened BondState
  import opened BondRing
  import opened Monitor24

  /** The environment changes IS_UP of a slave's device. */
  method ObserveDevice(b: Bonding, slave: Slave, i: nat, up: bool) returns (next: Slave?)
    requires b.Valid() && i < |b.ring| && slave == b.ring[i]
    modifies b`view, b.ring`isUp
    ensures b.Valid() && |old(b.view).slaves| == |b.ring|
    ensures b.view == old(b.view).(slaves := old(b.view).slaves[i := old(b.view).slaves[i].(isUp := up)])
    ensures next == b.ring[After(i, |b.ring|)]
  {
    RingShape(b);
    NextOf(b.ring, i);
    next := slave.next;
    slave.isUp := up;
    b.view := b.view.(slaves := b.view.slaves[i := slave.View()]);
  }

  /** And of all of them. */
  method ObserveDevices(b: Bonding, ups: seq<bool>)
    requires b.Valid() && |ups| == |b.ring|
    modifies b`view, b.ring`isUp
    ensures b.Valid() && b.view == Observe(old(b.view), ups)
  {
    var slave := b.first;
    var i := 0;
    ghost var v := b.view;
    RingShape(b);
    hide Bonding.Valid, Linked;
    while i < b.cnt
      invariant 0 <= i <= |b.ring| == |b.view.slaves| && b.Valid()
      invariant i < |b.ring| ==> slave == b.ring[i]
      invariant b.view == v.(slaves := b.view.slaves)
      invariant forall j :: 0 <= j < |v.slaves| ==>
        b.view.slaves[j] == if j < i then v.slaves[j].(isUp := ups[j]) else v.slaves[j]
    {
      slave := ObserveDevice(b, slave, i, ups[i]);
      i := i + 1;
    }
    assert b.view.slaves == Observe(v, ups).slaves;
  }

  method VisitFields(c: Context, slave: Slave, up: bool) returns (stop: bool, failover: bool)
    modifies slave`link, slave`delay, slave`failures, slave`state, slave`inactive
    ensures Visit(c, old(slave.View()), up) == Visited(slave.View(), stop, failover)
  {
    stop, failover := false, false;
    if slave.link == Up {
      if up {
        if c.noOld {
          if !c.locks {
            return true, false;
          }
          failover := true;
        }
        return;
      }
      slave.link := Fail;
      slave.delay := c.p.downdelay;
      if slave.failures < UINT_MAX {
        slave.failures := slave.failures + 1;
      }
    } else if slave.link == Down {
      if !up {
        return;
      }
      slave.link := Back;
      slave.delay := c.p.updelay;
    }
    if slave.link == Fail {
      if !up {
        if slave.delay <= 0 {
          if !c.locks {
            return true, false;
          }
          slave.link := Down;
          if c.p.mode == ActiveBackup {
            slave.SetInactiveFlags();
          }
          failover := c.isOld;
        } else {
          slave.delay := slave.delay - 1;
        }
      } else {
        slave.link := Up;
      }
    } else {
      if !up {
        slave.link := Down;
      } else if slave.delay == 0 {
        if !c.locks {
          return true, false;
        }
        slave.link := Up;
        if c.p.mode != ActiveBackup {
          slave.state := Active;
        } else if !c.isPrimary {
          slave.state := Backup;
        }
        failover := c.noOld || c.isPrimary;
      } else {
        slave.delay := slave.delay - 1;
      }
    }
  }

  /** One turn of the loop. */
  method VisitSlave(b: Bonding, slave: Slave, ghost k: nat, oldcurrent: Slave?, up: bool, haveLocks: bool)
      returns (stop: bool, failover: bool)
    requires b.Valid() && k < |b.ring| && slave == b.ring[k] && oldcurrent == b.active
    modifies b`view, slave`link, slave`delay, slave`failures, slave`state, slave`inactive
    ensures b.Valid()
    ensures var v := old(b.view); var x := Visit(ContextOf(v, haveLocks, k), v.slaves[k], up);
      b.view == v.(slaves := v.slaves[k := x.s]) && stop == x.stop && failover == x.failover
  {
    hide Visit;
    ghost var s := slave.View();
    var c := Context(b.params, haveLocks, oldcurrent == null, slave == oldcurrent, slave == b.primary);
    assert c == ContextOf(b.view, haveLocks, k);
    stop, failover := VisitFields(c, slave, up);
    b.view := b.view.(slaves := b.view.slaves[k := slave.View()]);
  }

  /** From the `i`-th slave of `v` on the pass still comes to `answer`. */
  ghost predicate OnTrack(v: BondView, reports: seq<bool>, locks: bool, i: nat, failover: bool, answer: Pass) {
    v.Valid() && |reports| == |v.slaves| && i <= |v.slaves| && PassFrom(v, reports, locks, i, failover) == answer
  }

  /** One turn of the loop over the slaves. */
  method PassOne(b: Bonding, slave: Slave, i: nat, oldcurrent: Slave?, reports: seq<bool>, haveLocks: bool,
                 failover: bool, ghost answer: Pass) returns (stopped: bool, doFailover: bool)
    requires b.Valid() && i < |b.ring| == |reports| && slave == b.ring[i] && oldcurrent == b.active
    requires OnTrack(b.view, reports, haveLocks, i, failover, answer)
    modifies b`view, b.ring`link, b.ring`delay, b.ring`failures, b.ring`state, b.ring`inactive
    ensures b.Valid()
    ensures stopped ==> answer.v == b.view && answer.stopped
    ensures !stopped ==> OnTrack(b.view, reports, haveLocks, i + 1, doFailover, answer)
  {
    hide Visit, PassFrom, Bonding.Valid;
    PassTurn(b.view, reports, haveLocks, i, failover);
    var due;
    stopped, due := VisitSlave(b, slave, i, oldcurrent, reports[i], haveLocks);
    doFailover := failover || (!stopped && due);
  }

  lemma PassBegins(v: BondView, reports: seq<bool>, locks: bool)
    requires v.Valid() && |reports| == |v.slaves|
    ensures OnTrack(v, reports, locks, 0, false, PassFrom(v, reports, locks, 0, false))
  {
  }

  method PassLoop(b: Bonding, reports: seq<bool>, haveLocks: bool) returns (stopped: bool, doFailover: bool)
    requires b.Valid() && |reports| == |b.ring|
    modifies b`view, b.ring`link, b.ring`delay, b.ring`state, b.ring`inactive, b.ring`failures
    ensures b.Valid()
    ensures var r := PassFrom(old(b.view), reports, haveLocks, 0, false);
      b.view == r.v && stopped == r.stopped && (!stopped ==> doFailover == r.failover)
  {
    hide PassFrom, Bonding.Valid, Linked, OnTrack;
    var oldcurrent := b.active;
    stopped, doFailover := false, false;
    var slave := b.first;
    var i := 0;
    RingShape(b);
    ghost var r, answer := b.ring, PassFrom(b.view, reports, haveLocks, 0, false);
    PassBegins(b.view, reports, haveLocks);
    while i < b.cnt
      invariant 0 <= i <= b.cnt == |r| && b.ring == r && Linked(r)
      invariant b.Valid() && b.active == oldcurrent
      invariant i < |r| ==> slave == r[i]
      invariant OnTrack(b.view, reports, haveLocks, i, doFailover, answer)
    {
      stopped, doFailover := PassOne(b, slave, i, oldcurrent, reports, haveLocks, doFailover, answer);
      if stopped {
        return;
      }
      NextOf(r, i);
      slave := slave.next;
      i := i + 1;
    }
    PassEnds(b.view, reports, haveLocks, doFailover, answer);
  }

  lemma PassTurn(v: BondView, reports: seq<bool>, locks: bool, i: nat, failover: bool)
    requires v.Valid() && |reports| == |v.slaves| && i < |v.slaves|
    ensures var x := Visit(ContextOf(v, locks, i), v.slaves[i], reports[i]);
      var w := v.(slaves := v.slaves[i := x.s]);
      PassFrom(v, reports, locks, i, failover) ==
        if x.stop then Pass(w, true, failover) else PassFrom(w, reports, locks, i + 1, failover || x.failover)
  {
  }

  lemma PassEnds(v: BondView, reports: seq<bool>, locks: bool, failover: bool, answer: Pass)
    requires OnTrack(v, reports, locks, |reports|, failover, answer)
    ensures answer == Pass(v, false, failover)
  {
  }

  /** __bond_mii_monitor. */
  method MonitorPass(b: Bonding, reports: seq<bool>, haveLocks: bool) returns (again: bool)
    requires b.Valid() && |reports| == |b.ring|
    modifies b`view, b`active, b.ring`link, b.ring`delay, b.ring`state, b.ring`inactive, b.ring`failures
    ensures b.Valid() && Monitor(old(b.view), reports, haveLocks) == (b.view, again)
  {
    hide PassFrom, Select;
    var stopped, doFailover := PassLoop(b, reports, haveLocks);
    if stopped {
      return true;
    }
    if doFailover {
      b.SelectActiveSlave();
    }
    return false;
  }

  /** bond_mii_monitor. */
  method MiiMonitor(b: Bonding, first: Checks, second: Checks)
    requires b.Valid()
    requires |first.reports| == |first.ups| == |second.reports| == |second.ups| == |b.ring|
    modifies b`view, b`active, b.ring`link, b.ring`delay, b.ring`state, b.ring`inactive, b.ring`failures, b.ring`isUp
    ensures b.Valid() && b.view == Tick24(old(b.view), first, second)
  {
    hide Monitor, Observe;
    ObserveDevices(b, first.ups);
    var again := MonitorPass(b, first.reports, false);
    if again {
      ObserveDevices(b, second.ups);
      again := MonitorPass(b, second.reports, true);
    }
  }
}
