/** The bonding driver's own state as plain values, and the transitions that the
    driver's critical sections make on it.  A slave is named by its position in the
    ring counted from the head; `NULL` (-1) stands for a null slave pointer.  The heap
    class of module BondRing refines these functions.

    Modes 802.3ad, TLB and ALB are not part of this model. */
module BondState {
  import opened Lists

  const NULL := -1
  const UINT_MAX := 0xFFFF_FFFF

  // BOND_LINK_UP, BOND_LINK_FAIL, BOND_LINK_DOWN, BOND_LINK_BACK
  datatype Link = Up | Fail | Down | Back

  // slave->new_link: BOND_LINK_NOCHANGE or a link state to commit
  datatype NewLink = NoChange | To(link: Link)

  // slave->state: BOND_STATE_ACTIVE, BOND_STATE_BACKUP
  datatype Role = Active | Backup

  datatype Mode = RoundRobin | ActiveBackup | Xor | Broadcast | Hoolock {
    predicate UsesPrimary() {
      ActiveBackup? || Hoolock?
    }
  }

  // updelay and downdelay are counted in monitor ticks, as the driver stores them
  datatype Params = Params(mode: Mode, miimon: nat, arpInterval: nat, updelay: nat, downdelay: nat)

  /** One slave.  `inactive` is IFF_SLAVE_INACTIVE of its device and `isUp` the value
      of IS_UP on its device, which the environment changes at will. */
  datatype SlaveView = SlaveView(
    dev: nat,
    link: Link,
    newLink: NewLink,
    delay: int,
    role: Role,
    inactive: bool,
    failures: nat,
    isUp: bool)
  {
    predicate Ready() {
      isUp && link == Up
    }

    predicate Returning() {
      isUp && link == Back
    }
  }

  datatype BondView = BondView(params: Params, slaves: seq<SlaveView>, active: int, primary: int) {
    predicate Valid() {
      && NULL <= active < |slaves|
      && NULL <= primary < |slaves|
    }
  }

  /** Position `k` steps after `start` on a ring of `n`. */
  function Cyclic(start: nat, k: nat, n: nat): (p: nat)
    requires start < n && k <= n
    ensures k < n ==> p < n
  {
    if start + k < n then start + k else start + k - n
  }

  // --------------------------- choosing the active slave ---------------------------

  /** Where the search for the best slave starts. */
  function SearchStart(v: BondView): (p: nat)
    requires v.Valid() && v.slaves != []
    ensures p < |v.slaves|
  {
    if v.primary != NULL && v.params.arpInterval == 0 && v.slaves[v.primary].isUp then v.primary
    else if v.active != NULL then v.active
    else 0
  }

  function BestFrom(s: seq<SlaveView>, start: nat, k: nat, mintime: int, best: int): (r: int)
    requires start < |s| && k <= |s|
    requires NULL <= best < |s|
    ensures NULL <= r < |s|
    decreases |s| - k
  {
    if k == |s| then best
    else
      var p := Cyclic(start, k, |s|);
      if s[p].Ready() then p
      else if s[p].Returning() && s[p].delay < mintime then BestFrom(s, start, k + 1, s[p].delay, p)
      else BestFrom(s, start, k + 1, mintime, best)
  }

  function BestSlave(v: BondView): (r: int)
    requires v.Valid()
    ensures NULL <= r < |v.slaves|
  {
    if v.slaves == [] then NULL
    else BestFrom(v.slaves, SearchStart(v), 0, v.params.updelay, NULL)
  }

  function SetInactiveFlags(s: SlaveView): SlaveView {
    s.(role := Backup, inactive := true)
  }

  function SetActiveFlags(s: SlaveView): SlaveView {
    s.(role := Active, inactive := false)
  }

  /** A slave that is made active while its link is still settling is promoted early. */
  function Promote(s: SlaveView): SlaveView {
    if s.link == Back then s.(delay := 0, link := Up) else s
  }

  function ChangeActive(v: BondView, n: int): (w: BondView)
    requires v.Valid() && NULL <= n < |v.slaves|
    ensures w.Valid() && |w.slaves| == |v.slaves| && w.params == v.params && w.primary == v.primary
    ensures w.active == n
  {
    if n == v.active then v
    else
      var s1 := if n == NULL then v.slaves else v.slaves[n := Promote(v.slaves[n])];
      if v.params.mode == ActiveBackup then
        var s2 := if v.active == NULL then s1 else s1[v.active := SetInactiveFlags(s1[v.active])];
        var s3 := if n == NULL then s2 else s2[n := SetActiveFlags(s2[n])];
        v.(slaves := s3, active := n)
      else
        v.(slaves := s1, active := n)
  }

  function Select(v: BondView): (w: BondView)
    requires v.Valid()
    ensures w.Valid() && |w.slaves| == |v.slaves| && w.params == v.params && w.primary == v.primary
  {
    ChangeActive(v, BestSlave(v))
  }

  // ------------------------------- ring membership --------------------------------

  /** What position `p` is called once position `k` has left the ring. */
  function Shift(p: int, k: int): int {
    if p == k then NULL else if p > k then p - 1 else p
  }

  function Detach(v: BondView, k: nat): (w: BondView)
    requires v.Valid() && k < |v.slaves|
    ensures w.Valid() && w.params == v.params
  {
    v.(slaves := Without(v.slaves, k), active := Shift(v.active, k), primary := Shift(v.primary, k))
  }

  /** A slave as enslaving it leaves it before an active slave is chosen.  The structure
      comes zeroed, so its new_link reads BOND_LINK_UP. */
  function FreshSlave(p: Params, dev: nat, isUp: bool, linkUp: bool): SlaveView {
    var s := SlaveView(dev, Up, To(Up), 0, Active, false, 0, isUp);
    if p.miimon == 0 || linkUp then
      if p.updelay > 0 then s.(link := Back, delay := p.updelay) else s
    else s.(link := Down)
  }

  function Enslave(v: BondView, dev: nat, isUp: bool, linkUp: bool, namedPrimary: bool): (w: BondView)
    requires v.Valid()
    ensures w.Valid() && |w.slaves| == |v.slaves| + 1 && w.params == v.params
  {
    var becomesPrimary := v.params.mode.UsesPrimary() && namedPrimary;
    Settle(v.(slaves := v.slaves + [FreshSlave(v.params, dev, isUp, linkUp)],
              primary := if becomesPrimary then |v.slaves| else v.primary))
  }

  /** What the mode does with the slave that has just been attached. */
  function Settle(v: BondView): (w: BondView)
    requires v.Valid() && v.slaves != []
    ensures w.Valid() && |w.slaves| == |v.slaves| && w.params == v.params
  {
    var n := |v.slaves| - 1;
    match v.params.mode
    case ActiveBackup => Select(v.(slaves := v.slaves[n := SetInactiveFlags(v.slaves[n])]))
    case Hoolock =>
      var u := v.(slaves := v.slaves[n := SetActiveFlags(v.slaves[n])]);
      if u.active == NULL then ChangeActive(u, n) else u
    case _ =>
      var u := v.(slaves := v.slaves[n := v.slaves[n].(role := Active)]);
      if u.active == NULL then u.(active := n) else u
  }

  function Release(v: BondView, k: nat): (w: BondView)
    requires v.Valid() && k < |v.slaves|
    ensures w.Valid() && |w.slaves| == |v.slaves| - 1 && w.params == v.params
  {
    if v.active == k then Select(Detach(v, k)) else Detach(v, k)
  }

  function ReleaseAll(v: BondView): (w: BondView)
    requires v.Valid()
    ensures w.Valid() && w.params == v.params
  {
    v.(slaves := [], active := NULL, primary := NULL)
  }

  // ------------------------------------ ioctls ------------------------------------

  /** The answer of bond_get_slave_by_dev: the first slave on device `dev`.  A miss is not
      reported as null: the walk has then come round to the head again. */
  function SlaveByDev(s: seq<SlaveView>, dev: nat): (k: int)
    ensures NULL <= k < |s|
    ensures k == NULL <==> s == []
  {
    if s == [] then NULL else SlaveByDevFrom(s, dev, 0)
  }

  function SlaveByDevFrom(s: seq<SlaveView>, dev: nat, i: nat): (k: nat)
    requires s != [] && i <= |s|
    ensures k < |s|
    ensures (exists j :: i <= j < |s| && s[j].dev == dev) ==> i <= k && s[k].dev == dev
    ensures forall j :: i <= j < k ==> s[j].dev != dev
    decreases |s| - i
  {
    if i == |s| then 0 else if s[i].dev == dev then i else SlaveByDevFrom(s, dev, i + 1)
  }

  predicate ChangeActiveAccepted(v: BondView, k: nat)
    requires v.Valid() && k < |v.slaves|
  {
    v.params.mode.UsesPrimary() && (k == v.active || (v.active != NULL && v.slaves[k].Ready()))
  }

  function IoctlChangeActive(v: BondView, k: nat): (w: BondView)
    requires v.Valid() && k < |v.slaves|
    ensures w.Valid() && |w.slaves| == |v.slaves| && w.params == v.params && w.primary == v.primary
  {
    if ChangeActiveAccepted(v, k) then ChangeActive(v, k) else v
  }

  /** The slave SIOCBONDHOOLOCKMAKE moves to: the first in ring order that is not active. */
  function MakeTarget(v: BondView): (t: int)
    requires v.Valid()
    ensures NULL <= t < |v.slaves|
    ensures t == NULL ==> |v.slaves| <= 1
    ensures t != NULL ==> t != v.active
  {
    if v.slaves == [] then NULL
    else if v.active != 0 then 0
    else if |v.slaves| > 1 then 1
    else NULL
  }

  function IoctlMake(v: BondView): (w: BondView)
    requires v.Valid()
    ensures w.Valid() && |w.slaves| == |v.slaves| && w.params == v.params && w.primary == v.primary
  {
    if MakeTarget(v) == NULL then v else ChangeActive(v, MakeTarget(v))
  }

  /** SIOCBONDHOOLOCKTEST moves to the slave found for a device, in any mode and whatever its
      link.  Whether the device is a slave at all is not looked at, so for any other device the
      head of the ring is found. */
  function IoctlTest(v: BondView, dev: nat): (w: BondView)
    requires v.Valid()
    ensures w.Valid() && |w.slaves| == |v.slaves| && w.params == v.params && w.primary == v.primary
  {
    if v.slaves == [] then v else ChangeActive(v, SlaveByDev(v.slaves, dev))
  }

  /** The environment raises or drops a slave device. */
  function SetDeviceUp(v: BondView, k: nat, up: bool): (w: BondView)
    requires v.Valid() && k < |v.slaves|
    ensures w.Valid() && w.params == v.params
  {
    v.(slaves := v.slaves[k := v.slaves[k].(isUp := up)])
  }

  // --------------------------- the 2.6.27 link monitor ----------------------------

  /** What the inspect phase does to one slave whose link check answers `up`. */
  function InspectSlave(p: Params, s0: SlaveView, up: bool): SlaveView {
    var s := s0.(newLink := NoChange);
    match s.link
    case Up => if up then s else InspectFail(s.(link := Fail, delay := p.downdelay), up)
    case Fail => InspectFail(s, up)
    case Down => if !up then s else InspectBack(s.(link := Back, delay := p.updelay), up)
    case Back => InspectBack(s, up)
  }

  function InspectFail(s: SlaveView, up: bool): SlaveView {
    if up then s.(link := Up)
    else if s.delay <= 0 then s.(newLink := To(Down))
    else s.(delay := s.delay - 1)
  }

  function InspectBack(s: SlaveView, up: bool): SlaveView {
    if !up then s.(link := Down)
    else if s.delay <= 0 then s.(newLink := To(Up))
    else s.(delay := s.delay - 1)
  }

  function Inspect(v: BondView, reports: seq<bool>): (w: BondView)
    requires v.Valid() && |reports| == |v.slaves|
    ensures w.Valid() && |w.slaves| == |v.slaves| && w.params == v.params
    ensures w.active == v.active && w.primary == v.primary
  {
    v.(slaves := seq(|v.slaves|, i requires 0 <= i < |v.slaves| && |reports| == |v.slaves| =>
                                   InspectSlave(v.params, v.slaves[i], reports[i])))
  }

  /** What an inspected slave may be waiting to commit. */
  predicate Inspected(s: SlaveView) {
    match s.newLink
    case NoChange => true
    case To(Up) => s.link in {Up, Back}
    case To(Down) => s.link == Fail
    case _ => false
  }

  function CommittedUp(p: Params, s: SlaveView, isPrimary: bool): SlaveView {
    var s1 := s.(link := Up);
    if p.mode != ActiveBackup then s1.(role := Active)
    else if !isPrimary then s1.(role := Backup)
    else s1
  }

  function CommittedDown(p: Params, s: SlaveView): SlaveView {
    var s1 := s.(failures := if s.failures < UINT_MAX then s.failures + 1 else s.failures, link := Down);
    if p.mode == ActiveBackup then SetInactiveFlags(s1) else s1
  }

  /** The commit phase on the slave at position `i`. */
  function CommitSlave(v: BondView, i: nat): (w: BondView)
    requires v.Valid() && i < |v.slaves|
    ensures w.Valid() && |w.slaves| == |v.slaves| && w.params == v.params && w.primary == v.primary
  {
    var s := v.slaves[i];
    match s.newLink
    case NoChange => v
    case To(Up) =>
      var u := v.(slaves := v.slaves[i := CommittedUp(v.params, s, i == v.primary)]);
      if u.active == NULL || i == u.primary then Select(u) else u
    case To(Down) =>
      var u := v.(slaves := v.slaves[i := CommittedDown(v.params, s)]);
      if i == u.active then Select(u) else u
    case _ => v.(slaves := v.slaves[i := s.(newLink := NoChange)])
  }

  /** The commit phase on the first `n` slaves of the ring. */
  function CommitUpTo(v: BondView, n: nat): (w: BondView)
    requires v.Valid() && n <= |v.slaves|
    ensures w.Valid() && |w.slaves| == |v.slaves| && w.params == v.params && w.primary == v.primary
  {
    if n == 0 then v else CommitSlave(CommitUpTo(v, n - 1), n - 1)
  }

  predicate HasPending(v: BondView) {
    exists i :: 0 <= i < |v.slaves| && v.slaves[i].newLink != NoChange
  }

  /** One run of the monitor: inspect, then commit if anything is pending. */
  function Tick(v: BondView, reports: seq<bool>): (w: BondView)
    requires v.Valid() && |reports| == |v.slaves|
    ensures w.Valid() && |w.slaves| == |v.slaves| && w.params == v.params && w.primary == v.primary
  {
    var u := Inspect(v, reports);
    if HasPending(u) then CommitUpTo(u, |u.slaves|) else u
  }
}
