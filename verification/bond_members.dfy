/** Slaves joining and leaving the bond, and the ioctls that move the active slave. */
module BondMembers {
  import opened Errno
  import opened Lists
  import opened BondState
  import opened BondRing

  method GetSlaveByDev(b: Bonding, dev: nat) returns (slave: Slave?, ghost k: int)
    requires b.Valid()
    ensures k == SlaveByDev(b.view.slaves, dev) && LeadsTo(b.ring, slave, k)
  {
    slave, k := b.first, if b.ring == [] then NULL else 0;
    var i := 0;
    while i < b.cnt
      invariant 0 <= i <= |b.ring|
      invariant k == (if b.ring == [] then NULL else if i < |b.ring| then i else 0)
      invariant LeadsTo(b.ring, slave, k)
      invariant b.ring != [] ==> SlaveByDevFrom(b.view.slaves, dev, i) == SlaveByDev(b.view.slaves, dev)
    {
      assert b.view.slaves[i] == slave.View();
      if slave.dev == dev {
        break;
      }
      slave := slave.next;
      i := i + 1;
      k := if i < |b.ring| then i else 0;
    }
  }

  /** bond_enslave.  `early` is the result of the steps before the slave is attached,
      each of which undoes the ones before it when it fails. */
  method Enslave(b: Bonding, dev: nat, mtu: int, early: int, isUp: bool, linkUp: bool, namedPrimary: bool)
      returns (res: int)
    requires b.Valid()
    modifies b`view, b`active, b`primary, b`first, b`cnt, b`ring
    modifies b.ring`next, b.ring`prev, b.ring`delay, b.ring`link, b.ring`state, b.ring`inactive
    ensures b.Valid() && res == early
    ensures early != 0 ==> b.view == old(b.view) && b.ring == old(b.ring)
    ensures early == 0 ==> b.view == BondState.Enslave(old(b.view), dev, isUp, linkUp, namedPrimary)
    ensures early == 0 ==> |b.ring| == |old(b.ring)| + 1 && old(b.ring) <= b.ring && fresh(b.ring[|b.ring| - 1])
  {
    if early != 0 {
      return early;
    }
    hide BondState.Enslave, Bonding.Valid;
    Join(b, dev, mtu, isUp, linkUp, namedPrimary);
    return 0;
  }

  /** The second half of bond_enslave, which cannot fail. */
  method Join(b: Bonding, dev: nat, mtu: int, isUp: bool, linkUp: bool, namedPrimary: bool)
    requires b.Valid()
    modifies b`view, b`active, b`primary, b`first, b`cnt, b`ring
    modifies b.ring`next, b.ring`prev, b.ring`delay, b.ring`link, b.ring`state, b.ring`inactive
    ensures b.Valid() && b.view == BondState.Enslave(old(b.view), dev, isUp, linkUp, namedPrimary)
    ensures |b.ring| == |old(b.ring)| + 1 && old(b.ring) <= b.ring && fresh(b.ring[|b.ring| - 1])
  {
    assert b.view.Valid() && b.view.params == b.params;
    hide Settle, FreshSlave, Bonding.Valid, Slave.View;
    var slave := NewSlave(b.params, dev, mtu, isUp, linkUp);
    AttachNewSlave(b, slave, b.params.mode.UsesPrimary() && namedPrimary);
    SettleNewSlave(b, slave);
  }

  /** The switch over the bonding mode at the end of bond_enslave. */
  method SettleNewSlave(b: Bonding, slave: Slave)
    requires b.Valid() && b.ring != [] && slave == b.ring[|b.ring| - 1]
    modifies b`view, b`active, b.ring`delay, b.ring`link, b.ring`state, b.ring`inactive
    ensures b.Valid() && b.view == Settle(old(b.view))
  {
    hide Settle, Bonding.Valid;
    RingShape(b);
    SettleSplits(b.view);
    match b.params.mode {
      case ActiveBackup =>
        b.SetSlaveInactiveFlags(slave, |b.ring| - 1);
        b.SelectActiveSlave();
      case Hoolock =>
        SettleHoolock(b, slave);
      case _ =>
        SettleTrunk(b, slave);
    }
  }

  lemma SettleSplits(v: BondView)
    requires v.Valid() && v.slaves != []
    ensures var n := |v.slaves| - 1;
      Settle(v) ==
      match v.params.mode
      case ActiveBackup => Select(v.(slaves := v.slaves[n := SetInactiveFlags(v.slaves[n])]))
      case Hoolock =>
        var u := v.(slaves := v.slaves[n := SetActiveFlags(v.slaves[n])]);
        if u.active == NULL then ChangeActive(u, n) else u
      case _ =>
        var u := v.(slaves := v.slaves[n := v.slaves[n].(role := Active)]);
        if u.active == NULL then u.(active := n) else u
  {
  }

  method SettleHoolock(b: Bonding, slave: Slave)
    requires b.Valid() && b.ring != [] && slave == b.ring[|b.ring| - 1]
    modifies b`view, b`active, b.ring`delay, b.ring`link, b.ring`state, b.ring`inactive
    ensures b.Valid() && var v, n := old(b.view), |b.ring| - 1;
      && n < |v.slaves|
      && var u := v.(slaves := v.slaves[n := SetActiveFlags(v.slaves[n])]);
      b.view == if u.active == NULL then ChangeActive(u, n) else u
  {
    hide ChangeActive, Bonding.Valid, SetActiveFlags, Linked;
    RingShape(b);
    ghost var n := |b.ring| - 1;
    b.SetSlaveActiveFlags(slave, n);
    ActiveIsShown(b);
    if b.active == null {
      b.ChangeActiveSlave(slave, n);
    }
  }

  method SettleTrunk(b: Bonding, slave: Slave)
    requires b.Valid() && b.ring != [] && slave == b.ring[|b.ring| - 1]
    modifies b`view, b`active, b.ring`state
    ensures b.Valid() && var v, n := old(b.view), |b.ring| - 1;
      && n < |v.slaves|
      && var u := v.(slaves := v.slaves[n := v.slaves[n].(role := Active)]);
      b.view == if u.active == NULL then u.(active := n) else u
  {
    RingShape(b);
    hide Bonding.Valid, Linked;
    ghost var n := |b.ring| - 1;
    b.SetSlaveState(slave, n, Active);
    ActiveIsShown(b);
    if b.active == null {
      b.PointActiveAt(slave, n);
    }
  }

  lemma ActiveIsShown(b: Bonding)
    requires b.Valid()
    ensures b.active == null <==> b.view.active == NULL
  {
  }

  method NewSlave(p: Params, dev: nat, mtu: int, isUp: bool, linkUp: bool) returns (slave: Slave)
    ensures fresh(slave) && slave.View() == FreshSlave(p, dev, isUp, linkUp)
  {
    slave := new Slave(dev, isUp, mtu);
    if p.miimon == 0 || linkUp {
      if p.updelay != 0 {
        slave.link := Back;
        slave.delay := p.updelay;
      } else {
        slave.link := Up;
      }
    } else {
      slave.link := Down;
    }
  }

  method AttachNewSlave(b: Bonding, slave: Slave, becomesPrimary: bool)
    requires b.Valid() && slave !in b.ring
    modifies b`view, b`primary, b`first, b`cnt, b`ring, b.ring`next, b.ring`prev, slave`next, slave`prev
    ensures b.Valid() && b.ring == old(b.ring) + [slave]
    ensures var v := old(b.view);
      b.view == v.(slaves := v.slaves + [old(slave.View())],
                   primary := if becomesPrimary then |v.slaves| else v.primary)
  {
    ghost var v := b.view;
    b.AttachSlave(slave);
    if becomesPrimary {
      b.primary := slave;
    }
    b.view := v.(slaves := v.slaves + [slave.View()], primary := if becomesPrimary then |v.slaves| else v.primary);
  }

  /** bond_release of the slave on device `dev`; `mine` is whether the device's master
      is this bond. */
  method Release(b: Bonding, dev: nat, mine: bool) returns (res: int)
    requires b.Valid()
    requires mine ==> exists i :: 0 <= i < |b.view.slaves| && b.view.slaves[i].dev == dev
    modifies b`view, b`active, b`primary, b`arpSlave, b`first, b`cnt, b`ring
    modifies b.ring`next, b.ring`prev, b.ring`delay, b.ring`link, b.ring`state, b.ring`inactive
    ensures b.Valid()
    ensures !mine ==> res == -EINVAL && b.view == old(b.view) && b.ring == old(b.ring) && b.arpSlave == old(b.arpSlave)
    ensures mine ==>
      && res == 0 && b.arpSlave == null
      && b.view == BondState.Release(old(b.view), SlaveByDev(old(b.view).slaves, dev))
      && b.ring == Without(old(b.ring), SlaveByDev(old(b.view).slaves, dev))
  {
    if !mine {
      return -EINVAL;
    }
    var slave, k := GetSlaveByDev(b, dev);
    if slave == null {
      return -EINVAL;
    }
    hide BondState.Release, Bonding.Valid, Without, SlaveByDev;
    LetGo(b, slave, k);
    return 0;
  }

  /** The slave found leaves, and if it was the active one another is selected. */
  method LetGo(b: Bonding, slave: Slave, ghost k: nat)
    requires b.Valid() && k < |b.ring| && slave == b.ring[k]
    modifies b`view, b`active, b`primary, b`arpSlave, b`first, b`cnt, b`ring
    modifies b.ring`next, b.ring`prev, b.ring`delay, b.ring`link, b.ring`state, b.ring`inactive
    ensures b.Valid() && k < |old(b.view).slaves| && b.view == BondState.Release(old(b.view), k)
    ensures b.ring == Without(old(b.ring), k) && b.arpSlave == null
  {
    RingViews(b);
    hide Select, Detach, Bonding.Valid, Shows, Without;
    var oldcurrent := b.active;
    b.arpSlave := null;
    Unchain(b, slave, k);
    if oldcurrent == slave {
      b.SelectActiveSlave();
    }
  }

  /** The first half of a release: the slave leaves the ring and every pointer to it. */
  method Unchain(b: Bonding, slave: Slave, ghost k: nat)
    requires b.Valid() && k < |b.ring| && slave == b.ring[k]
    modifies b`view, b`active, b`primary, b`first, b`cnt, b`ring
    modifies b.ring`next, b.ring`prev, slave`state, slave`inactive
    ensures b.Valid() && b.view == Detach(old(b.view), k)
    ensures b.ring == Without(old(b.ring), k)
  {
    ghost var r, v := b.ring, b.view;
    RingViews(b);
    RingIsDistinct(b);
    hide Bonding.RingValid, Shift, Without;
    UnlinkAndDrop(b, slave, k);
    b.view := Detach(v, k);
    DetachShown(b, r, v, k);
    hide Bonding.Shown;
  }

  /** The slave off the ring, and the pointers off the slave; all other slaves as they were. */
  method UnlinkAndDrop(b: Bonding, slave: Slave, ghost k: nat)
    requires b.RingValid() && k < |b.ring| && slave == b.ring[k]
    modifies b`active, b`primary, b`first, b`cnt, b`ring
    modifies b.ring`next, b.ring`prev, slave`state, slave`inactive
    ensures b.RingValid() && b.ring == Without(old(b.ring), k)
    ensures b.active == (if old(b.active) == slave then null else old(b.active))
    ensures b.primary == (if old(b.primary) == slave then null else old(b.primary))
  {
    hide Bonding.RingValid, Without;
    b.DetachSlave(slave, k);
    DropPointers(b, slave);
  }

  /** No pointer of the bond is left on a slave that is off the ring already; losing its
      active slave is bond_change_active_slave(bond, NULL). */
  method DropPointers(b: Bonding, slave: Slave)
    modifies b`active, b`primary, slave`state, slave`inactive
    ensures b.active == (if old(b.active) == slave then null else old(b.active))
    ensures b.primary == (if old(b.primary) == slave then null else old(b.primary))
  {
    if b.primary == slave {
      b.primary := null;
    }
    if b.active == slave {
      b.active := null;
      if b.params.mode == ActiveBackup {
        slave.SetInactiveFlags();
      }
    }
  }

  lemma RingIsDistinct(b: Bonding)
    requires b.Valid()
    ensures Distinct(b.ring)
  {
  }

  lemma DetachShown(b: Bonding, r: seq<Slave>, v: BondView, k: nat)
    requires v.Valid() && k < |r| == |v.slaves| && Distinct(r)
    requires forall i :: 0 <= i < |r| && i != k ==> v.slaves[i] == r[i].View()
    requires b.ring == Without(r, k) && b.view == Detach(v, k) && v.params == b.params
    requires b.active == if v.active == k || v.active == NULL then null else r[v.active]
    requires b.primary == if v.primary == k || v.primary == NULL then null else r[v.primary]
    ensures b.Shown()
  {
  }

  method ReleaseAll(b: Bonding)
    requires b.Valid()
    modifies b`view, b`active, b`primary, b`arpSlave, b`first, b`cnt, b`ring
    modifies b.ring`next, b.ring`prev, b.ring`delay, b.ring`link, b.ring`state, b.ring`inactive
    ensures b.Valid() && b.view == BondState.ReleaseAll(old(b.view)) && b.ring == []
    ensures b.arpSlave == if old(b.ring) == [] then old(b.arpSlave) else null
  {
    if b.cnt == 0 {
      return;
    }
    b.arpSlave := null;
    ClearPointers(b);
    hide Bonding.Valid, Detach, Without;
    while b.first != null
      invariant b.Valid() && b.arpSlave == null
      invariant b.view == old(b.view).(slaves := b.view.slaves, active := NULL, primary := NULL)
      invariant forall i :: 0 <= i < |b.ring| ==> b.ring[i] in old(b.ring)
      decreases |b.ring|
    {
      DropFirst(b);
    }
    RingShape(b);
  }

  /** No primary and no active slave any more. */
  method ClearPointers(b: Bonding)
    requires b.Valid()
    modifies b`view, b`active, b`primary, b.ring`delay, b.ring`link, b.ring`state, b.ring`inactive
    ensures b.Valid() && b.view == old(b.view).(slaves := b.view.slaves, active := NULL, primary := NULL)
  {
    b.primary := null;
    b.view := b.view.(primary := NULL);
    hide Bonding.Valid;
    b.ChangeActiveSlave(null, NULL);
  }

  method DropFirst(b: Bonding)
    requires b.Valid() && b.first != null && b.view.active == b.view.primary == NULL
    modifies b`view, b`active, b`primary, b`first, b`cnt, b`ring
    modifies b.ring`next, b.ring`prev, b.ring`state, b.ring`inactive
    ensures b.Valid() && b.view == old(b.view).(slaves := b.view.slaves)
    ensures |b.ring| < |old(b.ring)| && forall i :: 0 <= i < |b.ring| ==> b.ring[i] in old(b.ring)
  {
    RingShape(b);
    hide Bonding.Valid, Linked;
    Unchain(b, b.first, 0);
  }

  /** SIOCBONDCHANGEACTIVE. */
  method IoctlChangeActive(b: Bonding, dev: nat, mine: bool) returns (res: int)
    requires b.Valid()
    requires mine ==> exists i :: 0 <= i < |b.view.slaves| && b.view.slaves[i].dev == dev
    modifies b`view, b`active, b.ring`delay, b.ring`link, b.ring`state, b.ring`inactive
    ensures b.Valid()
    ensures !mine ==> res == -EINVAL && b.view == old(b.view)
    ensures mine ==> var k := SlaveByDev(old(b.view).slaves, dev);
      && b.view == BondState.IoctlChangeActive(old(b.view), k)
      && (res == if ChangeActiveAccepted(old(b.view), k) then 0 else -EINVAL)
  {
    if !b.params.mode.UsesPrimary() {
      return -EINVAL;
    }
    if !mine {
      return -EINVAL;
    }
    var oldActive := b.active;
    var newActive, k := GetSlaveByDev(b, dev);
    if newActive != null && newActive == oldActive {
      return 0;
    }
    if newActive != null && oldActive != null && newActive.link == Up && newActive.isUp {
      b.ChangeActiveSlave(newActive, k);
      return 0;
    }
    return -EINVAL;
  }

  /** SIOCBONDHOOLOCKTEST, on a device that need not be a slave. */
  method IoctlTest(b: Bonding, dev: nat)
    requires b.Valid()
    modifies b`view, b`active, b.ring`delay, b.ring`link, b.ring`state, b.ring`inactive
    ensures b.Valid() && b.view == BondState.IoctlTest(old(b.view), dev)
  {
    hide ChangeActive, SlaveByDev;
    var newActive, k := GetSlaveByDev(b, dev);
    var slave := b.first;
    var i := 0;
    while i < b.cnt
      invariant 0 <= i <= |b.ring| && b.Valid() && b.view == old(b.view)
      invariant b.ring != [] ==> i <= k
      invariant i < |b.ring| ==> slave == b.ring[i]
    {
      if slave == newActive {
        b.ChangeActiveSlave(slave, i);
        break;
      }
      slave := slave.next;
      i := i + 1;
    }
  }

  /** SIOCBONDHOOLOCKMAKE. */
  method IoctlMake(b: Bonding)
    requires b.Valid()
    modifies b`view, b`active, b`bufferMode, b.ring`delay, b.ring`link, b.ring`state, b.ring`inactive
    ensures b.Valid() && b.view == BondState.IoctlMake(old(b.view)) && b.bufferMode
  {
    var slave := b.first;
    var i := 0;
    while i < b.cnt
      invariant 0 <= i <= |b.ring| && b.Valid() && b.view == old(b.view)
      invariant i < |b.ring| ==> slave == b.ring[i]
      invariant i == 0 || (i == 1 && b.view.active == 0)
    {
      if slave != b.active {
        b.ChangeActiveSlave(slave, i);
        break;
      }
      slave := slave.next;
      i := i + 1;
    }
    b.bufferMode := true;
  }
}
