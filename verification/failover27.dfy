/** Who is active after a tick of the 2.6.27 monitor: a primary that completes its updelay takes
    over, a healthy active slave stays, and one that has failed for its downdelay is replaced
    whenever there is anyone to replace it. */
module Failover27 {
  import opened BondState
  import opened BestSlaveLaws
  import opened BondRuns
  import opened Recovery27
  import Debounce

  /** The slave completes its downdelay with a bad check now. */
  predicate Fails(p: Params, s: SlaveView, up: bool) {
    !up && ((s.link == Fail && s.delay <= 0) || (s.link == Up && p.downdelay == 0))
  }

  lemma InspectFails(p: Params, s: SlaveView, up: bool)
    ensures InspectSlave(p, s, up).newLink == To(Down) <==> Fails(p, s, up)
    ensures Completes(p, s, up) ==> InspectSlave(p, s, up).newLink == To(Up)
    ensures DelayInRange(p, s) && InspectSlave(p, s, up).newLink == To(Up) ==> Completes(p, s, up)
    ensures Inspected(InspectSlave(p, s, up))
  {
  }

  // --------------------------------- the primary comes back --------------------------

  /** The primary, waiting to be committed UP, is active once it has been. */
  ghost predicate TakesOver(u: BondView, n: nat, x: BondView)
    requires u.Valid() && u.primary != NULL
  {
    && x.Valid() && |x.slaves| == |u.slaves| && x.params == u.params && x.primary == u.primary
    && x.slaves[x.primary].isUp && x.slaves[x.primary].newLink == To(Up)
    && (u.primary < n ==> x.active == u.primary && x.slaves[u.primary].link == Up)
  }

  lemma TakesOverStep(u: BondView, n: nat, x: BondView)
    requires u.Valid() && u.primary != NULL && u.params.arpInterval == 0 && n < |u.slaves|
    requires TakesOver(u, n, x)
    ensures TakesOver(u, n + 1, CommitSlave(x, n))
  {
    hide Select;
    var s := x.slaves[n];
    match s.newLink {
      case To(Up) =>
        var z := x.(slaves := x.slaves[n := CommittedUp(x.params, s, n == x.primary)]);
        SelectSpares(z, x.primary);
        if n == x.primary {
          ReadyPrimaryIsSelected(z);
        }
      case To(Down) =>
        SelectSpares(x.(slaves := x.slaves[n := CommittedDown(x.params, s)]), x.primary);
      case _ =>
    }
  }

  lemma SelectSpares(z: BondView, i: nat)
    requires z.Valid() && i < |z.slaves|
    ensures var t := Select(z).slaves[i];
      t.isUp == z.slaves[i].isUp && t.newLink == z.slaves[i].newLink && (z.slaves[i].link == Up ==> t.link == Up)
  {
    hide BestSlave;
  }

  lemma {:induction false} TakesOverSoFar(u: BondView, n: nat)
    requires u.Valid() && u.primary != NULL && u.params.arpInterval == 0 && n <= |u.slaves|
    requires TakesOver(u, 0, u)
    ensures TakesOver(u, n, CommitUpTo(u, n))
  {
    hide TakesOver, CommitSlave;
    if n > 0 {
      TakesOverSoFar(u, n - 1);
      TakesOverStep(u, n - 1, CommitUpTo(u, n - 1));
    }
  }

  /** A primary that completes its updelay is the active slave after the tick, whoever was before
      and whatever the others do, if it is IS_UP and there is no ARP monitoring. */
  lemma PrimaryTakesOver(v: BondView, reports: seq<bool>)
    requires v.Valid() && |reports| == |v.slaves| && v.primary != NULL && v.params.arpInterval == 0
    requires v.slaves[v.primary].isUp && Completes(v.params, v.slaves[v.primary], reports[v.primary])
    ensures var w := Tick(v, reports); w.active == v.primary && w.slaves[v.primary].link == Up
  {
    hide CommitUpTo, Tick;
    var u := Inspect(v, reports);
    assert u.slaves[u.primary] == InspectSlave(v.params, v.slaves[v.primary], reports[v.primary]);
    InspectFails(v.params, v.slaves[v.primary], reports[v.primary]);
    TakesOverSoFar(u, |u.slaves|);
    Debounce.TickCommits(v, reports);
  }

  // -------------------------------- the active slave stays ---------------------------

  ghost predicate Staying(u: BondView, x: BondView)
    requires u.Valid()
  {
    && x.Valid() && |x.slaves| == |u.slaves| && x.primary == u.primary && x.active == u.active != NULL
    && (forall i :: 0 <= i < |u.slaves| ==> x.slaves[i].newLink == u.slaves[i].newLink)
    && x.slaves[x.active].newLink != To(Down)
    && (x.primary != NULL ==> x.slaves[x.primary].newLink != To(Up))
  }

  lemma {:induction false} StaysSoFar(u: BondView, n: nat)
    requires u.Valid() && n <= |u.slaves| && Staying(u, u)
    requires forall i :: 0 <= i < |u.slaves| ==> Inspected(u.slaves[i])
    ensures Staying(u, CommitUpTo(u, n))
  {
    hide Select;
    if n > 0 {
      StaysSoFar(u, n - 1);
      assert Inspected(u.slaves[n - 1]);
    }
  }

  /** An active slave that does not complete its downdelay is active still, unless the primary
      completes its updelay. */
  lemma ActiveStays(v: BondView, reports: seq<bool>)
    requires v.Valid() && |reports| == |v.slaves| && v.active != NULL
    requires forall i :: 0 <= i < |v.slaves| ==> DelayInRange(v.params, v.slaves[i])
    requires !Fails(v.params, v.slaves[v.active], reports[v.active])
    requires v.primary == NULL || !Completes(v.params, v.slaves[v.primary], reports[v.primary])
    ensures Tick(v, reports).active == v.active
  {
    hide CommitUpTo, Tick, Inspected;
    var u := Inspect(v, reports);
    forall i | 0 <= i < |u.slaves|
      ensures Inspected(u.slaves[i])
      ensures u.slaves[i].newLink == To(Down) <==> Fails(v.params, v.slaves[i], reports[i])
      ensures u.slaves[i].newLink == To(Up) ==> Completes(v.params, v.slaves[i], reports[i])
    {
      assert u.slaves[i] == InspectSlave(v.params, v.slaves[i], reports[i]);
      InspectFails(v.params, v.slaves[i], reports[i]);
    }
    StaysSoFar(u, |u.slaves|);
    Debounce.TickCommits(v, reports);
  }

  // ------------------------------ the active slave fails -----------------------------

  /** The active slave `a` waits to be committed DOWN. */
  ghost predicate Failing(u: BondView, a: nat) {
    && u.Valid() && a < |u.slaves| && u.active == a && u.slaves[a].newLink == To(Down)
    && (forall j :: 0 <= j < |u.slaves| ==> Inspected(u.slaves[j]))
  }

  /** After `n` commit steps: what is committed, and `a` is active at most until its own step;
      another active slave is ready and will not be committed DOWN. */
  ghost predicate Replacing(u: BondView, a: nat, n: nat, x: BondView)
    requires Failing(u, a) && n <= |u.slaves|
  {
    && x.Valid() && |x.slaves| == |u.slaves| && x.params == u.params
    && (forall j :: 0 <= j < |u.slaves| ==> x.slaves[j].newLink == u.slaves[j].newLink)
    && (forall j :: n <= j < |u.slaves| ==> Inspected(x.slaves[j]))
    && (forall j :: 0 <= j < n && x.slaves[j].newLink == To(Down) ==> x.slaves[j].link == Down)
    && (x.active == a ==> n <= a)
    && (x.active !in {NULL, a} ==> x.slaves[x.active].Ready() && x.slaves[x.active].newLink != To(Down))
  }

  lemma ReplacingStep(u: BondView, a: nat, n: nat, x: BondView)
    requires Failing(u, a) && n < |u.slaves| && Replacing(u, a, n, x)
    ensures Replacing(u, a, n + 1, CommitSlave(x, n))
  {
    hide Select;
    var s := x.slaves[n];
    match s.newLink {
      case To(Up) => ReplacingUp(u, a, n, x);
      case To(Down) =>
        var z := x.(slaves := x.slaves[n := CommittedDown(x.params, s)]);
        SelectTells(z);
        SelectedWasFit(z);
      case _ =>
    }
  }

  lemma ReplacingUp(u: BondView, a: nat, n: nat, x: BondView)
    requires Failing(u, a) && n < |u.slaves| && Replacing(u, a, n, x) && x.slaves[n].newLink == To(Up)
    ensures Replacing(u, a, n + 1, CommitSlave(x, n))
  {
    hide Select;
    if x.active == NULL || n == x.primary {
      ReplacingSelect(u, a, n, x);
    }
  }

  lemma ReplacingSelect(u: BondView, a: nat, n: nat, x: BondView)
    requires Failing(u, a) && n < |u.slaves| && Replacing(u, a, n, x) && x.slaves[n].newLink == To(Up)
    ensures var z := x.(slaves := x.slaves[n := CommittedUp(x.params, x.slaves[n], n == x.primary)]);
      Replacing(u, a, n + 1, Select(z))
  {
    hide Select;
    SelectTells(x.(slaves := x.slaves[n := CommittedUp(x.params, x.slaves[n], n == x.primary)]));
  }

  lemma {:induction false} ReplacedSoFar(u: BondView, a: nat, n: nat)
    requires Failing(u, a) && n <= |u.slaves|
    ensures Replacing(u, a, n, CommitUpTo(u, n))
  {
    if n > 0 {
      assert u.Valid();
      hide Replacing, Failing, CommitSlave;
      ReplacedSoFar(u, a, n - 1);
      ReplacingStep(u, a, n - 1, CommitUpTo(u, n - 1));
    }
  }

  /** The slave at `i`, waiting to be committed DOWN, is disabled once it has been. */
  ghost predicate Disabled(u: BondView, i: nat, n: nat, x: BondView)
    requires u.Valid() && i < |u.slaves|
  {
    && x.Valid() && |x.slaves| == |u.slaves| && x.params == u.params
    && x.slaves[i].newLink == To(Down)
    && (n <= i ==> x.slaves[i].link == Fail)
    && (n > i ==> x.active != i && x.slaves[i].link == Down && x.slaves[i].role == Backup && x.slaves[i].inactive)
  }

  lemma DisabledStep(u: BondView, i: nat, n: nat, x: BondView)
    requires u.Valid() && i < |u.slaves| && u.params.mode == ActiveBackup && n < |u.slaves| && Disabled(u, i, n, x)
    ensures Disabled(u, i, n + 1, CommitSlave(x, n))
  {
    hide Select;
    var s := x.slaves[n];
    match s.newLink {
      case To(Up) => DisabledSelect(x.(slaves := x.slaves[n := CommittedUp(x.params, s, n == x.primary)]), i);
      case To(Down) => DisabledSelect(x.(slaves := x.slaves[n := CommittedDown(x.params, s)]), i);
      case _ =>
    }
  }

  lemma DisabledSelect(z: BondView, i: nat)
    requires z.Valid() && i < |z.slaves| && z.params.mode == ActiveBackup
    ensures var w := Select(z); var s, t := z.slaves[i], w.slaves[i];
      && t.newLink == s.newLink
      && (s.link in {Fail, Down} ==> w.active != i && t.link == s.link)
      && (s.link in {Fail, Down} && s.role == Backup && s.inactive ==> t.role == Backup && t.inactive)
  {
    hide BestSlave;
    SelectedWasFit(z);
  }

  lemma {:induction false} DisabledSoFar(u: BondView, i: nat, n: nat)
    requires u.Valid() && i < |u.slaves| && u.params.mode == ActiveBackup && n <= |u.slaves| && Disabled(u, i, 0, u)
    ensures Disabled(u, i, n, CommitUpTo(u, n))
  {
    hide Disabled, CommitSlave;
    if n > 0 {
      DisabledSoFar(u, i, n - 1);
      DisabledStep(u, i, n - 1, CommitUpTo(u, n - 1));
    }
  }

  /** In active-backup mode any slave that completes its downdelay is BACKUP and flagged inactive
      after the tick, and not the active one. */
  lemma FailedIsDisabled(v: BondView, reports: seq<bool>, i: nat)
    requires v.Valid() && |reports| == |v.slaves| && i < |v.slaves| && v.params.mode == ActiveBackup
    requires Fails(v.params, v.slaves[i], reports[i])
    ensures var w := Tick(v, reports); var t := w.slaves[i];
      w.active != i && t.link == Down && t.role == Backup && t.inactive
  {
    hide CommitUpTo, Tick;
    var u := Inspect(v, reports);
    assert u.slaves[i] == InspectSlave(v.params, v.slaves[i], reports[i]);
    InspectFails(v.params, v.slaves[i], reports[i]);
    DisabledSoFar(u, i, |u.slaves|);
    Debounce.TickCommits(v, reports);
  }

  /** While nobody is usable, nobody is found. */
  ghost predicate Nobody(u: BondView, a: nat, n: nat, x: BondView)
    requires Failing(u, a)
  {
    && x.Valid() && |x.slaves| == |u.slaves| && x.params == u.params && x.active in {NULL, a}
    && (forall i :: 0 <= i < |u.slaves| ==> !Usable(x.params, x.slaves[i]))
    && (forall i :: n <= i < |u.slaves| ==> Inspected(x.slaves[i]))
  }

  lemma NobodyStep(u: BondView, a: nat, n: nat, x: BondView)
    requires Failing(u, a) && n < |u.slaves| && Nobody(u, a, n, x)
    ensures Nobody(u, a, n + 1, CommitSlave(x, n))
  {
    hide Select;
    var s := x.slaves[n];
    match s.newLink {
      case To(Up) => NobodySelected(x.(slaves := x.slaves[n := CommittedUp(x.params, s, n == x.primary)]));
      case To(Down) => NobodySelected(x.(slaves := x.slaves[n := CommittedDown(x.params, s)]));
      case _ =>
    }
  }

  lemma NobodySelected(z: BondView)
    requires z.Valid() && forall i :: 0 <= i < |z.slaves| ==> !Usable(z.params, z.slaves[i])
    ensures var y := Select(z);
      && y.active == NULL
      && forall i :: 0 <= i < |z.slaves| ==>
           !Usable(y.params, y.slaves[i]) && (Inspected(z.slaves[i]) ==> Inspected(y.slaves[i]))
  {
    hide BestSlave;
    SelectedIsReady(z);
  }

  lemma {:induction false} NobodySoFar(u: BondView, a: nat, n: nat)
    requires Failing(u, a) && n <= |u.slaves| && forall i :: 0 <= i < |u.slaves| ==> !Usable(u.params, u.slaves[i])
    ensures Nobody(u, a, n, CommitUpTo(u, n))
  {
    if n > 0 {
      assert u.Valid();
      hide Nobody, Failing, CommitSlave, Usable;
      NobodySoFar(u, a, n - 1);
      NobodyStep(u, a, n - 1, CommitUpTo(u, n - 1));
    }
  }

  /** With a usable slave `k` nobody is active only until that is committed UP, if it waits for
      it, and then it stays fit to be selected. */
  ghost predicate Somebody(u: BondView, a: nat, k: nat, n: nat, x: BondView)
    requires Failing(u, a) && k < |u.slaves|
  {
    && x.Valid() && |x.slaves| == |u.slaves| && x.params == u.params
    && x.slaves[k].isUp && x.slaves[k].newLink == u.slaves[k].newLink != To(Down)
    && (|| (u.slaves[k].newLink == To(Up) && n <= k)
        || x.slaves[k].link == Up
        || (x.slaves[k].link == Back && x.slaves[k].delay < x.params.updelay))
    && (x.active == NULL ==> u.slaves[k].newLink == To(Up) && n <= k)
    && (forall j :: n <= j < |u.slaves| ==> Inspected(x.slaves[j]))
  }

  lemma SomebodyStep(u: BondView, a: nat, k: nat, n: nat, x: BondView)
    requires Failing(u, a) && k < |u.slaves| && n < |u.slaves| && Somebody(u, a, k, n, x)
    ensures Somebody(u, a, k, n + 1, CommitSlave(x, n))
  {
    hide Select;
    var s := x.slaves[n];
    match s.newLink {
      case To(Up) => SomebodySelected(x.(slaves := x.slaves[n := CommittedUp(x.params, s, n == x.primary)]), k);
      case To(Down) => SomebodySelected(x.(slaves := x.slaves[n := CommittedDown(x.params, s)]), k);
      case _ =>
    }
  }

  lemma SomebodySelected(z: BondView, k: nat)
    requires z.Valid() && k < |z.slaves|
    ensures var y := Select(z);
      && (z.slaves[k].isUp && (z.slaves[k].link == Up || Candidate(z.slaves[k], z.params.updelay)) ==> y.active != NULL)
      && y.slaves[k].isUp == z.slaves[k].isUp && y.slaves[k].newLink == z.slaves[k].newLink
      && ((y.slaves[k].link == z.slaves[k].link && y.slaves[k].delay == z.slaves[k].delay) || y.slaves[k].link == Up)
      && (forall i :: 0 <= i < |z.slaves| && Inspected(z.slaves[i]) ==> Inspected(y.slaves[i]))
  {
    hide BestSlave;
    SelectedIsReady(z);
  }

  lemma {:induction false} SomebodySoFar(u: BondView, a: nat, k: nat, n: nat)
    requires Failing(u, a) && n <= |u.slaves| && k < |u.slaves| && Usable(u.params, u.slaves[k])
    ensures Somebody(u, a, k, n, CommitUpTo(u, n))
  {
    if n > 0 {
      assert u.Valid();
      hide Somebody, Failing, CommitSlave, Usable;
      SomebodySoFar(u, a, k, n - 1);
      SomebodyStep(u, a, k, n - 1, CommitUpTo(u, n - 1));
    }
  }

  /** An active slave that completes its downdelay is not active any more after the tick.  Nobody
      is exactly if no slave is IS_UP with a good check; otherwise one is whose link is UP. */
  lemma FailoverIff(v: BondView, reports: seq<bool>)
    requires v.Valid() && |reports| == |v.slaves| && v.active != NULL
    requires forall i :: 0 <= i < |v.slaves| ==> DelayInRange(v.params, v.slaves[i])
    requires Fails(v.params, v.slaves[v.active], reports[v.active])
    ensures var w := Tick(v, reports);
      && w.active != v.active && w.slaves[v.active].link == Down
      && (w.active == NULL <==> forall i :: 0 <= i < |v.slaves| ==> !(v.slaves[i].isUp && reports[i]))
      && (w.active != NULL ==> w.slaves[w.active].isUp && w.slaves[w.active].link == Up)
  {
    hide CommitUpTo, Tick, Usable, InspectSlave, Inspected;
    var u, a, n := Inspect(v, reports), v.active, |v.slaves|;
    forall i | 0 <= i < n
      ensures Usable(u.params, u.slaves[i]) <==> v.slaves[i].isUp && reports[i]
      ensures Inspected(u.slaves[i])
    {
      assert u.slaves[i] == InspectSlave(v.params, v.slaves[i], reports[i]);
      InspectTells(v.params, v.slaves[i], reports[i]);
    }
    assert u.slaves[a] == InspectSlave(v.params, v.slaves[a], reports[a]);
    InspectFails(v.params, v.slaves[a], reports[a]);
    Debounce.TickCommits(v, reports);
    ReplacedSoFar(u, a, n);
    if k :| 0 <= k < n && Usable(u.params, u.slaves[k]) {
      SomebodySoFar(u, a, k, n);
    } else {
      NobodySoFar(u, a, n);
    }
  }
}
