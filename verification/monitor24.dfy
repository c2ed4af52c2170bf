/** The older, 2.6.24 link monitor: one loop that both inspects and commits, run first
    without the lock a failover needs and, if it finds it would need it, run again with it.
    The first run keeps what it wrote before giving up. */
module Monitor24 {
  import opened BondState
  import opened BestSlaveLaws
  import opened BondRuns

  /** What one visit of the loop does: the slave afterwards, whether the pass must give up
      for want of the lock, and whether a failover is due. */
  datatype Visited = Visited(s: SlaveView, stop: bool, failover: bool)

  /** What a visit needs to know besides the slave and its link check. */
  datatype Context = Context(p: Params, locks: bool, noOld: bool, isOld: bool, isPrimary: bool)

  function Visit(c: Context, s: SlaveView, up: bool): Visited {
    match s.link
    case Up =>
      if up then Visited(s, c.noOld && !c.locks, c.noOld && c.locks)
      else
        VisitFail(c, s.(link := Fail, delay := c.p.downdelay,
                        failures := if s.failures < UINT_MAX then s.failures + 1 else s.failures), up)
    case Fail => VisitFail(c, s, up)
    case Down =>
      if !up then Visited(s, false, false)
      else VisitBack(c, s.(link := Back, delay := c.p.updelay), up)
    case Back => VisitBack(c, s, up)
  }

  function VisitFail(c: Context, s: SlaveView, up: bool): Visited {
    if up then Visited(s.(link := Up), false, false)
    else if s.delay > 0 then Visited(s.(delay := s.delay - 1), false, false)
    else if !c.locks then Visited(s, true, false)
    else
      var s1 := s.(link := Down);
      Visited(if c.p.mode == ActiveBackup then SetInactiveFlags(s1) else s1, false, c.isOld)
  }

  function VisitBack(c: Context, s: SlaveView, up: bool): Visited {
    if !up then Visited(s.(link := Down), false, false)
    else if s.delay != 0 then Visited(s.(delay := s.delay - 1), false, false)
    else if !c.locks then Visited(s, true, false)
    else Visited(CommittedUp(c.p, s, c.isPrimary), false, c.noOld || c.isPrimary)
  }

  function ContextOf(v: BondView, locks: bool, i: nat): Context
    requires v.Valid() && i < |v.slaves|
  {
    Context(v.params, locks, v.active == NULL, v.active == i, v.primary == i)
  }

  datatype Pass = Pass(v: BondView, stopped: bool, failover: bool)

  /** The loop from the `i`-th slave on, with a failover already due or not. */
  function PassFrom(v: BondView, reports: seq<bool>, locks: bool, i: nat, failover: bool): (r: Pass)
    requires v.Valid() && |reports| == |v.slaves| && i <= |v.slaves|
    ensures r.v == v.(slaves := r.v.slaves) && |r.v.slaves| == |v.slaves|
    decreases |v.slaves| - i
  {
    if i == |v.slaves| then Pass(v, false, failover)
    else
      var x := Visit(ContextOf(v, locks, i), v.slaves[i], reports[i]);
      var w := v.(slaves := v.slaves[i := x.s]);
      if x.stop then Pass(w, true, failover)
      else PassFrom(w, reports, locks, i + 1, failover || x.failover)
  }

  /** __bond_mii_monitor: the bond afterwards, and whether it must run again with the lock. */
  function Monitor(v: BondView, reports: seq<bool>, locks: bool): (r: (BondView, bool))
    requires v.Valid() && |reports| == |v.slaves|
    ensures r.0.Valid() && |r.0.slaves| == |v.slaves| && r.0.params == v.params
  {
    var r := PassFrom(v, reports, locks, 0, false);
    if r.stopped then (r.v, true)
    else (if r.failover then Select(r.v) else r.v, false)
  }

  /** What the environment shows to one pass: the link checks' answers and IS_UP of each
      slave's device. */
  datatype Checks = Checks(reports: seq<bool>, ups: seq<bool>)

  function Observe(v: BondView, ups: seq<bool>): (w: BondView)
    requires v.Valid() && |ups| == |v.slaves|
    ensures w.Valid() && w == v.(slaves := w.slaves) && |w.slaves| == |v.slaves|
    ensures forall i :: 0 <= i < |v.slaves| ==> w.slaves[i] == v.slaves[i].(isUp := ups[i])
  {
    v.(slaves := seq(|v.slaves|, i requires 0 <= i < |v.slaves| && |ups| == |v.slaves| => v.slaves[i].(isUp := ups[i])))
  }

  /** bond_mii_monitor.  Between the two passes every lock is dropped, so the second sees
      the links afresh. */
  function Tick24(v: BondView, first: Checks, second: Checks): (w: BondView)
    requires v.Valid()
    requires |first.reports| == |first.ups| == |second.reports| == |second.ups| == |v.slaves|
    ensures w.Valid() && |w.slaves| == |v.slaves| && w.params == v.params
  {
    var (u, again) := Monitor(Observe(v, first.ups), first.reports, false);
    if again then Monitor(Observe(u, second.ups), second.reports, true).0 else u
  }

  // ------------------------- one slave through one pass ------------------------------

  /** What a pass shows of the slave at position `j`: it was left alone, or visited. */
  lemma {:induction false} PassOnOne(v: BondView, reports: seq<bool>, locks: bool, i: nat, failover: bool, j: nat)
    requires v.Valid() && |reports| == |v.slaves| && i <= |v.slaves| && j < |v.slaves|
    ensures var r := PassFrom(v, reports, locks, i, failover);
      var x := Visit(ContextOf(v, locks, j), v.slaves[j], reports[j]);
      && (j < i ==> r.v.slaves[j] == v.slaves[j])
      && (j >= i && !r.stopped ==> r.v.slaves[j] == x.s && !x.stop && (x.failover ==> r.failover))
      && (j >= i && r.stopped ==> r.v.slaves[j] in {v.slaves[j], x.s})
      && (failover && !r.stopped ==> r.failover)
      && (locks ==> !r.stopped)
      && (!locks && !failover ==> !r.failover)
    decreases |v.slaves| - i
  {
    if i < |v.slaves| {
      var x := Visit(ContextOf(v, locks, i), v.slaves[i], reports[i]);
      var w := v.(slaves := v.slaves[i := x.s]);
      if !x.stop {
        PassOnOne(w, reports, locks, i + 1, failover || x.failover, j);
      }
    }
  }

  // ------------------------------- bounded recovery ----------------------------------

  /** The number of ticks after which a slave that stays up guarantees an active slave. */
  function TicksNeeded(p: Params, s: SlaveView): nat
    requires s.link == Back ==> s.delay >= 0
  {
    match s.link
    case Up => 1
    case Fail => 2
    case Back => s.delay + 1
    case Down => p.updelay + 1
  }

  predicate StaysUp(c: Checks, j: nat) {
    j < |c.reports| == |c.ups| && c.reports[j] && c.ups[j]
  }

  predicate DelayOk(s: SlaveView) {
    s.link == Back ==> s.delay >= 0
  }

  /** A visit that finds the link up brings the slave at least one tick closer, unless it
      stops; when one tick is all that is left it brings the link up for good and, without
      an active slave, demands a failover. */
  lemma VisitProgress(c: Context, s: SlaveView)
    requires DelayOk(s)
    ensures var x, n := Visit(c, s, true), TicksNeeded(c.p, s);
      && DelayOk(x.s) && x.s.isUp == s.isUp
      && TicksNeeded(c.p, x.s) <= n
      && (!x.stop && n > 1 ==> TicksNeeded(c.p, x.s) < n)
      && (!x.stop && n == 1 ==> x.s.link == Up && (c.noOld ==> x.failover))
      && (x.stop ==> n == 1)
  {
  }

  lemma SelectKeepsUp(v: BondView, j: nat)
    requires v.Valid() && j < |v.slaves| && v.slaves[j].Ready()
    ensures var w := Select(v); w.active != NULL && w.slaves[j].link == Up
  {
    hide BestSlave;
    SelectedIsReady(v);
  }

  /** Failover promotes, which only brings a settling slave closer. */
  lemma SelectKeepsProgress(v: BondView, j: nat)
    requires v.Valid() && j < |v.slaves| && DelayOk(v.slaves[j])
    ensures var t := Select(v).slaves[j];
      DelayOk(t) && TicksNeeded(v.params, t) <= TicksNeeded(v.params, v.slaves[j])
  {
    hide BestSlave;
  }

  /** A pass that runs to the end, on the slave at `j`. */
  lemma FullPass(v: BondView, reports: seq<bool>, locks: bool, j: nat)
    requires v.Valid() && |reports| == |v.slaves| && j < |v.slaves|
    requires reports[j] && v.slaves[j].isUp && DelayOk(v.slaves[j])
    requires !Monitor(v, reports, locks).1
    ensures var w, n := Monitor(v, reports, locks).0, TicksNeeded(v.params, v.slaves[j]);
      && DelayOk(w.slaves[j])
      && (n > 1 ==> TicksNeeded(v.params, w.slaves[j]) < n)
      && (n == 1 ==> w.slaves[j].link == Up && w.active != NULL)
  {
    hide PassFrom, Select;
    var r := PassFrom(v, reports, locks, 0, false);
    PassOnOne(v, reports, locks, 0, false, j);
    VisitProgress(ContextOf(v, locks, j), v.slaves[j]);
    SelectKeepsProgress(r.v, j);
    if r.v.slaves[j].link == Up {
      SelectKeepsUp(r.v, j);
    }
  }

  lemma TickProgress(v: BondView, first: Checks, second: Checks, j: nat)
    requires v.Valid() && j < |v.slaves| && DelayOk(v.slaves[j])
    requires |first.reports| == |first.ups| == |second.reports| == |second.ups| == |v.slaves|
    requires StaysUp(first, j) && StaysUp(second, j)
    ensures var w, n := Tick24(v, first, second), TicksNeeded(v.params, v.slaves[j]);
      && DelayOk(w.slaves[j])
      && (n > 1 ==> TicksNeeded(v.params, w.slaves[j]) < n)
      && (n == 1 ==> w.slaves[j].link == Up && w.active != NULL)
  {
    hide PassFrom, Select;
    var v1 := Observe(v, first.ups);
    if !Monitor(v1, first.reports, false).1 {
      FullPass(v1, first.reports, false, j);
    } else {
      PassOnOne(v1, first.reports, false, 0, false, j);
      VisitProgress(ContextOf(v1, false, j), v1.slaves[j]);
      var u := Monitor(v1, first.reports, false).0;
      var u2 := Observe(u, second.ups);
      PassOnOne(u2, second.reports, true, 0, false, j);
      FullPass(u2, second.reports, true, j);
    }
  }

  predicate Plays24(v: BondView, checks: seq<(Checks, Checks)>) {
    forall t :: 0 <= t < |checks| ==>
      |checks[t].0.reports| == |checks[t].0.ups| == |checks[t].1.reports| == |checks[t].1.ups| == |v.slaves|
  }

  function Run24(v: BondView, checks: seq<(Checks, Checks)>): (w: BondView)
    requires v.Valid() && Plays24(v, checks)
    ensures w.Valid() && |w.slaves| == |v.slaves|
    decreases |checks|
  {
    if checks == [] then v else Run24(Tick24(v, checks[0].0, checks[0].1), checks[1..])
  }

  lemma {:induction false} Recovers(v: BondView, checks: seq<(Checks, Checks)>, j: nat)
    requires v.Valid() && j < |v.slaves| && DelayOk(v.slaves[j]) && Plays24(v, checks)
    requires forall t :: 0 <= t < |checks| ==> StaysUp(checks[t].0, j) && StaysUp(checks[t].1, j)
    requires |checks| >= TicksNeeded(v.params, v.slaves[j])
    ensures Run24(v, checks).active != NULL
    decreases |checks|
  {
    hide Tick24;
    var w := Tick24(v, checks[0].0, checks[0].1);
    TickProgress(v, checks[0].0, checks[0].1, j);
    if |checks| > 1 {
      Recovers(w, checks[1..], j);
    }
  }

  /** Bounded recovery.  If one slave of the ring stays up on every check for updelay + 2
      consecutive ticks, the bond has an active slave at the end, whatever the other slaves
      do, whatever state the bond was in, and although passes give up half way.  With a
      nonzero updelay one tick fewer is enough. */
  lemma BoundedRecovery(v: BondView, checks: seq<(Checks, Checks)>, j: nat)
    requires v.Valid() && j < |v.slaves| && Plays24(v, checks)
    requires v.slaves[j].link == Back ==> 0 <= v.slaves[j].delay <= v.params.updelay
    requires forall t :: 0 <= t < |checks| ==> StaysUp(checks[t].0, j) && StaysUp(checks[t].1, j)
    requires |checks| >= if v.params.updelay == 0 then 2 else v.params.updelay + 1
    ensures Run24(v, checks).active != NULL
  {
    Recovers(v, checks, j);
  }
}
