/** Whole runs on the heap: whatever sequence of operations is performed on a bond's ring, the
    ring stays well formed and shows, step by step, the run of module BondRuns.  What is proved
    of runs therefore holds of the ring. */
module BondDriver {
  import opened Lists
  import opened BondState
  import opened BondRing
  import opened BondRuns
  import BondMembers
  import BondMonitor27
  import opened ActiveBackupSafety
  import opened ActiveRole

  function Devs(v: BondView): (ds: seq<nat>) {
    seq(|v.slaves|, i requires 0 <= i < |v.slaves| => v.slaves[i].dev)
  }

  /** No device is enslaved twice, which bond_enslave refuses by IFF_SLAVE. */
  ghost predicate OncePerDevice(v: BondView) {
    NoDuplicates(Devs(v))
  }

  ghost predicate FromFreeDevice(v: BondView, e: Event) {
    e.Enslaved? ==> e.dev !in Devs(v)
  }

  ghost predicate AllFromFreeDevices(v: BondView, es: seq<Event>)
    requires Plays(v, es)
    decreases |es|
  {
    es != [] ==> FromFreeDevice(v, es[0]) && AllFromFreeDevices(Step(v, es[0]), es[1..])
  }

  /** What an operation does to the devices on the ring: enslaving appends, releasing removes,
      and nothing else reorders or replaces them. */
  lemma StepOnDevices(v: BondView, e: Event)
    requires v.Valid() && e.Possible(v)
    ensures Devs(Step(v, e)) ==
      match e
      case Enslaved(dev, _, _, _) => Devs(v) + [dev]
      case Released(k) => Without(Devs(v), k)
      case AllReleased => []
      case _ => Devs(v)
  {
    hide Select, Tick, Enslave, ChangeActive, SlaveByDev, MakeTarget;
    match e {
      case Enslaved(dev, isUp, linkUp, named) => EnslaveAppendsDevice(v, dev, isUp, linkUp, named);
      case Released(k) => SelectKeepsDevices(Detach(v, k));
      case Monitored(reports) =>
        TickKeepsDevices(v, reports);
      case ActiveChanged(k) => MoveKeepsDevices(v, k);
      case Made => MoveKeepsDevices(v, MakeTarget(v));
      case Designated(dev) => MoveKeepsDevices(v, SlaveByDev(v.slaves, dev));
      case _ =>
    }
  }

  lemma MoveKeepsDevices(v: BondView, n: int)
    requires v.Valid() && NULL <= n < |v.slaves|
    ensures Devs(ChangeActive(v, n)) == Devs(v)
  {
  }

  lemma EnslaveAppendsDevice(v: BondView, dev: nat, isUp: bool, linkUp: bool, named: bool)
    requires v.Valid()
    ensures Devs(Enslave(v, dev, isUp, linkUp, named)) == Devs(v) + [dev]
  {
    hide Select;
    var u := v.(slaves := v.slaves + [FreshSlave(v.params, dev, isUp, linkUp)],
                primary := if v.params.mode.UsesPrimary() && named then |v.slaves| else v.primary);
    SelectKeepsDevices(u.(slaves := u.slaves[|v.slaves| := SetInactiveFlags(u.slaves[|v.slaves|])]));
  }

  lemma SelectKeepsDevices(v: BondView)
    requires v.Valid()
    ensures Devs(Select(v)) == Devs(v)
  {
    hide BestSlave;
  }

  lemma CommitKeepsDevices(v: BondView, i: nat)
    requires v.Valid() && i < |v.slaves|
    ensures Devs(CommitSlave(v, i)) == Devs(v)
  {
    hide Select;
    var s := v.slaves[i];
    SelectKeepsDevices(v.(slaves := v.slaves[i := CommittedUp(v.params, s, i == v.primary)]));
    SelectKeepsDevices(v.(slaves := v.slaves[i := CommittedDown(v.params, s)]));
  }

  lemma {:induction false} CommitsKeepDevices(v: BondView, n: nat)
    requires v.Valid() && n <= |v.slaves|
    ensures Devs(CommitUpTo(v, n)) == Devs(v)
  {
    hide CommitSlave, Devs;
    if n > 0 {
      CommitsKeepDevices(v, n - 1);
      CommitKeepsDevices(CommitUpTo(v, n - 1), n - 1);
    }
  }

  lemma TickKeepsDevices(v: BondView, reports: seq<bool>)
    requires v.Valid() && |reports| == |v.slaves|
    ensures Devs(Tick(v, reports)) == Devs(v)
  {
    hide CommitUpTo;
    CommitsKeepDevices(Inspect(v, reports), |v.slaves|);
  }

  lemma StepKeepsOncePerDevice(v: BondView, e: Event)
    requires v.Valid() && e.Possible(v) && OncePerDevice(v) && FromFreeDevice(v, e)
    ensures OncePerDevice(Step(v, e))
  {
    StepOnDevices(v, e);
    hide Step, Devs;
  }

  /** So a lookup by device finds the slave that is on it. */
  lemma DeviceIsFound(v: BondView, k: nat)
    requires OncePerDevice(v) && k < |v.slaves|
    ensures SlaveByDev(v.slaves, v.slaves[k].dev) == k
  {
    var j := SlaveByDev(v.slaves, v.slaves[k].dev);
    assert Devs(v)[j] == v.slaves[j].dev && Devs(v)[k] == v.slaves[k].dev;
  }

  method SlaveAt(b: Bonding, k: nat) returns (slave: Slave)
    requires b.Valid() && k < |b.ring|
    ensures slave == b.ring[k]
  {
    slave := b.first;
    for i := 0 to k
      invariant slave == b.ring[i]
    {
      slave := slave.next;
    }
  }

  lemma InPlay(b: Bonding, e: Event)
    requires b.Valid() && e.Possible(b.view)
    ensures b.view.Valid() && |b.view.slaves| == |b.ring|
  {
  }

  method Perform(b: Bonding, e: Event)
    requires b.Valid() && e.Possible(b.view) && OncePerDevice(b.view)
    modifies b, b.ring
    ensures b.Valid() && b.view == Step(old(b.view), e)
    ensures forall j :: 0 <= j < |b.ring| ==> b.ring[j] in old(b.ring) || fresh(b.ring[j])
  {
    hide Enslave, Release, Tick, IoctlChangeActive, IoctlMake, IoctlTest, SetDeviceUp, OncePerDevice, Without;
    hide Bonding.Valid;
    InPlay(b, e);
    match e {
      case Enslaved(dev, isUp, linkUp, named) =>
        var _ := BondMembers.Enslave(b, dev, b.mtu, 0, isUp, linkUp, named);
      case Released(k) => ReleaseAt(b, k);
      case AllReleased => BondMembers.ReleaseAll(b);
      case Monitored(reports) => BondMonitor27.MiiMonitor(b, reports);
      case ActiveChanged(k) => ChangeActiveTo(b, k);
      case Made => BondMembers.IoctlMake(b);
      case Designated(dev) => BondMembers.IoctlTest(b, dev);
      case DeviceChanged(k, up) => SetUp(b, k, up);
    }
  }

  method ReleaseAt(b: Bonding, k: nat)
    requires b.Valid() && k < |b.ring| && OncePerDevice(b.view)
    modifies b, b.ring
    ensures b.Valid() && b.view == Release(old(b.view), k) && b.ring == Without(old(b.ring), k)
  {
    hide Release, OncePerDevice;
    DeviceIsFound(b.view, k);
    var slave := SlaveAt(b, k);
    assert b.view.slaves[k].dev == slave.dev;
    var _ := BondMembers.Release(b, slave.dev, true);
  }

  method ChangeActiveTo(b: Bonding, k: nat)
    requires b.Valid() && k < |b.ring| && OncePerDevice(b.view)
    modifies b, b.ring
    ensures b.Valid() && b.view == IoctlChangeActive(old(b.view), k) && b.ring == old(b.ring)
  {
    hide IoctlChangeActive, OncePerDevice;
    DeviceIsFound(b.view, k);
    var slave := SlaveAt(b, k);
    assert b.view.slaves[k].dev == slave.dev;
    var _ := BondMembers.IoctlChangeActive(b, slave.dev, true);
  }

  method SetUp(b: Bonding, k: nat, up: bool)
    requires b.Valid() && k < |b.ring|
    modifies b, b.ring
    ensures b.Valid() && b.view == SetDeviceUp(old(b.view), k, up) && b.ring == old(b.ring)
  {
    var slave := SlaveAt(b, k);
    slave.isUp := up;
    b.view := SetDeviceUp(b.view, k, up);
  }

  /** Any run, on the ring itself. */
  method Play(b: Bonding, es: seq<Event>)
    requires b.Valid() && Plays(b.view, es) && OncePerDevice(b.view) && AllFromFreeDevices(b.view, es)
    modifies b, b.ring
    ensures b.Valid() && b.view == Run(old(b.view), es)
  {
    hide Step, OncePerDevice, FromFreeDevice, Bonding.RingValid, Bonding.Shown;
    ghost var v := b.view;
    assert es[0..] == es;
    for n := 0 to |es|
      invariant b.Valid() && OncePerDevice(b.view)
      invariant Plays(b.view, es[n..]) && AllFromFreeDevices(b.view, es[n..]) && Run(b.view, es[n..]) == Run(v, es)
      invariant forall j :: 0 <= j < |b.ring| ==> b.ring[j] in old(b.ring) || fresh(b.ring[j])
    {
      assert es[n..][0] == es[n] && es[n..][1..] == es[n + 1..];
      StepKeepsOncePerDevice(b.view, es[n]);
      Perform(b, es[n]);
    }
  }

  /** From a new bond in active-backup mode the ring agrees at the end of every run without blind
      moves, and its active slave reads ACTIVE if it was never overtaken either. */
  method PlayActiveBackup(p: Params, mtu: int, es: seq<Event>) returns (b: Bonding)
    requires p.mode == ActiveBackup && Plays(Empty(p), es) && AllFromFreeDevices(Empty(p), es)
    ensures b.Valid() && b.view == Run(Empty(p), es)
    ensures NeverBlind(Empty(p), es) ==> Agrees(b.view)
    ensures NeverBlind(Empty(p), es) && NeverOvertaken(Empty(p), es) ==> ReadsActive(b.view)
  {
    b := new Bonding(p, mtu);
    Play(b, es);
    EveryRunAgrees(p, es);
    if NeverBlind(Empty(p), es) {
      RunReadsActiveIff(Empty(p), es);
    }
  }
}
