/** Recovery with the 2.6.27 link monitor: when a slave that stays up guarantees the bond an active
    slave, and when it does not. */
module Recovery27 {
  import opened BondState
  import opened BestSlaveLaws
  import opened BondRuns
  import opened Monitor24
  import Debounce

  /** A tick that sees the devices and link checks as `c` shows them. */
  function Tick27(v: BondView, c: Checks): (w: BondView)
    requires v.Valid() && |c.reports| == |c.ups| == |v.slaves|
    ensures w.Valid() && |w.slaves| == |v.slaves| && w.params == v.params
  {
    Tick(Observe(v, c.ups), c.reports)
  }

  predicate Plays27(v: BondView, cs: seq<Checks>) {
    forall t :: 0 <= t < |cs| ==> |cs[t].reports| == |cs[t].ups| == |v.slaves|
  }

  function Run27(v: BondView, cs: seq<Checks>): (w: BondView)
    requires v.Valid() && Plays27(v, cs)
    ensures w.Valid() && |w.slaves| == |v.slaves|
    decreases |cs|
  {
    if cs == [] then v else Run27(Tick27(v, cs[0]), cs[1..])
  }

  predicate DelayInRange(p: Params, s: SlaveView) {
    s.link == Back ==> 0 <= s.delay <= p.updelay
  }

  // -------------------------- one tick without an active slave ----------------------

  /** The slave completes its updelay with a good check now. */
  predicate Completes(p: Params, s: SlaveView, up: bool) {
    up && ((s.link == Back && s.delay <= 0) || (s.link == Down && p.updelay == 0))
  }

  /** A tick finds an active slave for a bond that has none exactly if some slave completes its
      updelay in it and some slave is up and has a good check.  No other recovery counts: not that
      of a slave that had failed for less than its downdelay. */
  lemma ActiveIsFoundIff(v: BondView, reports: seq<bool>)
    requires v.Valid() && |reports| == |v.slaves| && v.active == NULL
    requires forall i :: 0 <= i < |v.slaves| ==> DelayInRange(v.params, v.slaves[i])
    ensures Tick(v, reports).active != NULL <==>
      && (exists i :: 0 <= i < |v.slaves| && Completes(v.params, v.slaves[i], reports[i]))
      && (exists i :: 0 <= i < |v.slaves| && v.slaves[i].isUp && reports[i])
  {
    hide CommitUpTo, BestSlave, Tick, Usable, Completes, InspectSlave, Inspected;
    var u := Inspect(v, reports);
    Debounce.TickCommits(v, reports);
    var n := |u.slaves|;
    forall i | 0 <= i < n
      ensures u.slaves[i].newLink == To(Up) <==> Completes(v.params, v.slaves[i], reports[i])
      ensures Usable(u.params, u.slaves[i]) <==> v.slaves[i].isUp && reports[i]
      ensures Inspected(u.slaves[i])
    {
      assert u.slaves[i] == InspectSlave(v.params, v.slaves[i], reports[i]);
      InspectTells(v.params, v.slaves[i], reports[i]);
    }
    if i :| 0 <= i < n && u.slaves[i].newLink == To(Up) {
      if k :| 0 <= k < n && Usable(u.params, u.slaves[k]) {
        FoundFrom(u, if u.slaves[k].newLink == To(Up) then k else i, k, n);
      } else {
        NobodyUsable(u, n);
      }
    } else {
      NobodyCompletes(u, n);
    }
  }

  /** Up, settling below updelay, or about to be committed up: a slave a selection in the commit
      loop can find. */
  predicate Usable(p: Params, s: SlaveView) {
    s.isUp && (s.link == Up || (s.link == Back && s.delay < p.updelay) || s.newLink == To(Up))
  }

  lemma InspectTells(p: Params, s: SlaveView, up: bool)
    requires DelayInRange(p, s)
    ensures var t := InspectSlave(p, s, up);
      && (t.newLink == To(Up) <==> Completes(p, s, up))
      && (Usable(p, t) <==> s.isUp && up)
      && Inspected(t)
  {
  }

  lemma {:induction false} NobodyCompletes(u: BondView, n: nat)
    requires u.Valid() && u.active == NULL && n <= |u.slaves|
    requires forall i :: 0 <= i < |u.slaves| ==> u.slaves[i].newLink != To(Up)
    ensures CommitUpTo(u, n).active == NULL
    ensures forall i :: 0 <= i < |u.slaves| ==> CommitUpTo(u, n).slaves[i].newLink != To(Up)
  {
    if n > 0 {
      NobodyCompletes(u, n - 1);
    }
  }

  lemma {:induction false} NobodyUsable(u: BondView, n: nat)
    requires u.Valid() && u.active == NULL && n <= |u.slaves|
    requires forall i :: 0 <= i < |u.slaves| ==> !Usable(u.params, u.slaves[i]) && Inspected(u.slaves[i])
    ensures var x := CommitUpTo(u, n);
      x.active == NULL && forall i :: 0 <= i < |u.slaves| ==>
        && !Usable(x.params, x.slaves[i])
        && (i >= n ==> x.slaves[i] == u.slaves[i])
  {
    hide Usable, CommitSlave;
    if n > 0 {
      NobodyUsable(u, n - 1);
      NobodyUsableStep(CommitUpTo(u, n - 1), n - 1);
    }
  }

  lemma NobodyUsableStep(x: BondView, n: nat)
    requires x.Valid() && x.active == NULL && n < |x.slaves| && Inspected(x.slaves[n])
    requires forall i :: 0 <= i < |x.slaves| ==> !Usable(x.params, x.slaves[i])
    ensures var y := CommitSlave(x, n);
      y.active == NULL && forall i :: 0 <= i < |x.slaves| ==>
        && !Usable(y.params, y.slaves[i])
        && (i != n ==> y.slaves[i] == x.slaves[i])
  {
    hide BestSlave;
    if x.slaves[n].newLink == To(Up) {
      var u := x.(slaves := x.slaves[n := CommittedUp(x.params, x.slaves[n], n == x.primary)]);
      SelectedIsReady(u);
      assert forall p :: 0 <= p < |u.slaves| ==> !u.slaves[p].Ready() && !Candidate(u.slaves[p], u.params.updelay);
      assert Select(u) == u;
    }
  }

  /** Slave `i` waits to be committed UP and `k` is usable: `i` itself, or one that waits for
      nothing. */
  ghost predicate Promising(u: BondView, i: nat, k: nat) {
    && u.Valid() && u.active == NULL && i < |u.slaves| && k < |u.slaves|
    && u.slaves[i].newLink == To(Up) && Usable(u.params, u.slaves[k])
    && (k == i || u.slaves[k].newLink != To(Up))
    && (forall j :: 0 <= j < |u.slaves| ==> Inspected(u.slaves[j]))
  }

  /** After `n` commit steps: what has been committed, that an active slave is ready and will not
      be committed DOWN, and that there is one once `i` has been committed. */
  ghost predicate Progressing(u: BondView, i: nat, k: nat, n: nat, x: BondView)
    requires Promising(u, i, k) && n <= |u.slaves|
  {
    && x.Valid() && |x.slaves| == |u.slaves| && x.params == u.params
    && (forall j :: n <= j < |u.slaves| ==> Inspected(x.slaves[j]) && x.slaves[j].newLink == u.slaves[j].newLink)
    && (forall j :: 0 <= j < n && x.slaves[j].newLink == To(Down) ==> x.slaves[j].link == Down)
    && (x.active != NULL ==> x.slaves[x.active].Ready() && x.slaves[x.active].newLink != To(Down))
    && (x.active == NULL ==> n <= i && x.slaves[k] == u.slaves[k])
  }

  lemma ProgressStep(u: BondView, i: nat, k: nat, n: nat, x: BondView)
    requires Promising(u, i, k) && n < |u.slaves| && Progressing(u, i, k, n, x)
    ensures Progressing(u, i, k, n + 1, CommitSlave(x, n))
  {
    hide Select, CommittedUp;
    var s := x.slaves[n];
    if s.newLink == To(Up) {
      ProgressUp(u, i, k, n, x);
    }
    assert x.active == n ==> s.newLink != To(Down);
  }

  lemma ProgressUp(u: BondView, i: nat, k: nat, n: nat, x: BondView)
    requires Promising(u, i, k) && n < |u.slaves| && Progressing(u, i, k, n, x) && x.slaves[n].newLink == To(Up)
    ensures Progressing(u, i, k, n + 1, CommitSlave(x, n))
  {
    hide Select;
    if x.active == NULL || n == x.primary {
      ProgressSelect(u, i, k, n, x);
    }
  }

  lemma ProgressSelect(u: BondView, i: nat, k: nat, n: nat, x: BondView)
    requires Promising(u, i, k) && n < |u.slaves| && Progressing(u, i, k, n, x) && x.slaves[n].newLink == To(Up)
    ensures var z := x.(slaves := x.slaves[n := CommittedUp(x.params, x.slaves[n], n == x.primary)]);
      Progressing(u, i, k, n + 1, Select(z))
  {
    hide Select;
    var z := x.(slaves := x.slaves[n := CommittedUp(x.params, x.slaves[n], n == x.primary)]);
    SelectTells(z);
    if x.active != NULL {
      assert z.slaves[x.active].Ready();
    } else if n == i || k != i {
      assert z.slaves[k].Ready() || Candidate(z.slaves[k], z.params.updelay);
    }
  }

  /** All that the commit loop needs of a selection. */
  lemma SelectTells(z: BondView)
    requires z.Valid()
    ensures var y := Select(z);
      && (y.active == NULL <==>
            forall p :: 0 <= p < |z.slaves| ==> !z.slaves[p].Ready() && !Candidate(z.slaves[p], z.params.updelay))
      && (y.active == z.active ==> y == z)
      && (y.active != z.active && y.active != NULL ==>
            y.slaves[y.active].Ready() && z.slaves[y.active].link in {Up, Back})
      && (forall p :: 0 <= p < |z.slaves| ==>
            && y.slaves[p].newLink == z.slaves[p].newLink
            && (z.slaves[p].link == Down ==> y.slaves[p].link == Down)
            && (Inspected(z.slaves[p]) ==> Inspected(y.slaves[p])))
  {
    hide BestSlave;
    SelectedIsReady(z);
    BestIsUpOrBack(z);
  }

  lemma {:induction false} FoundFrom(u: BondView, i: nat, k: nat, n: nat)
    requires Promising(u, i, k) && n <= |u.slaves|
    ensures Progressing(u, i, k, n, CommitUpTo(u, n))
  {
    if n > 0 {
      FoundFrom(u, i, k, n - 1);
      hide Progressing, Promising, CommitSlave;
      ProgressStep(u, i, k, n - 1, CommitUpTo(u, n - 1));
    }
  }

  // ------------------------------------ a slave that stays up -----------------------

  /** There is an active slave, or the slave at `j` still has its updelay to complete. */
  predicate Hopeful(v: BondView, j: nat)
    requires j < |v.slaves|
  {
    v.active != NULL || v.slaves[j].link in {Down, Back}
  }

  /** The ticks until a slave that stays up has its link up. */
  function Owed(p: Params, s: SlaveView): int {
    match s.link
    case Down => p.updelay + 1
    case Back => s.delay + 1
    case _ => 0
  }

  /** During the commit loop: the slave at `j`, up and checked good, has its link up only while
      the bond has an active slave. */
  ghost predicate Kept(x: BondView, j: nat) {
    && x.Valid() && j < |x.slaves| && x.slaves[j].isUp
    && x.slaves[j].link in {Up, Back} && x.slaves[j].newLink in {NoChange, To(Up)}
    && (x.slaves[j].link == Up ==> x.active != NULL)
  }

  lemma KeptStep(x: BondView, n: nat, j: nat)
    requires Kept(x, j) && n < |x.slaves|
    ensures Kept(CommitSlave(x, n), j)
  {
    hide Select;
    var s := x.slaves[n];
    match s.newLink {
      case To(Up) => SelectKeeps(x.(slaves := x.slaves[n := CommittedUp(x.params, s, n == x.primary)]), j);
      case To(Down) => SelectKeeps(x.(slaves := x.slaves[n := CommittedDown(x.params, s)]), j);
      case _ =>
    }
  }

  /** A selection keeps it even where the slave has just come UP. */
  lemma SelectKeeps(z: BondView, j: nat)
    requires z.Valid() && j < |z.slaves| && z.slaves[j].isUp
    requires z.slaves[j].link in {Up, Back} && z.slaves[j].newLink in {NoChange, To(Up)}
    ensures Kept(Select(z), j)
  {
    hide BestSlave;
    SelectedIsReady(z);
  }

  lemma {:induction false} KeptThroughCommit(u: BondView, n: nat, j: nat)
    requires Kept(u, j) && n <= |u.slaves|
    ensures Kept(CommitUpTo(u, n), j)
  {
    assert u.Valid();
    hide Kept, CommitSlave;
    if n > 0 {
      KeptThroughCommit(u, n - 1, j);
      KeptStep(CommitUpTo(u, n - 1), n - 1, j);
    }
  }

  /** A tick in which the slave is up and its check good brings it a tick closer, or its link up;
      and whenever its link is up the bond has an active slave. */
  lemma TickOnward(v: BondView, c: Checks, j: nat)
    requires v.Valid() && |c.reports| == |c.ups| == |v.slaves| && j < |v.slaves|
    requires StaysUp(c, j) && Hopeful(v, j) && DelayInRange(v.params, v.slaves[j])
    ensures var w := Tick27(v, c);
      && DelayInRange(v.params, w.slaves[j])
      && if w.slaves[j].link == Up then w.active != NULL
         else w.slaves[j].link == Back && Owed(v.params, w.slaves[j]) < Owed(v.params, v.slaves[j])
  {
    hide CommitUpTo, Tick;
    var x := Observe(v, c.ups);
    var u := Inspect(x, c.reports);
    assert u.slaves[j] == InspectSlave(v.params, x.slaves[j], true);
    Debounce.TickCommits(x, c.reports);
    KeptThroughCommit(u, |u.slaves|, j);
    Debounce.CommitOnOne(u, |u.slaves|, j);
  }

  lemma {:induction false} Recovers27(v: BondView, cs: seq<Checks>, j: nat)
    requires v.Valid() && Plays27(v, cs) && j < |v.slaves| && DelayInRange(v.params, v.slaves[j])
    requires forall t :: 0 <= t < |cs| ==> StaysUp(cs[t], j)
    requires Hopeful(v, j) && |cs| >= Owed(v.params, v.slaves[j])
    ensures Run27(v, cs).active != NULL
    decreases |cs|
  {
    hide Tick27;
    if cs != [] {
      TickOnward(v, cs[0], j);
      Recovers27(Tick27(v, cs[0]), cs[1..], j);
    }
  }

  /** What a bond may see while the slaves that were up or failing have good checks and the others
      bad ones, all devices being up. */
  function IdleCheck(v: BondView): (c: Checks)
    ensures |c.reports| == |c.ups| == |v.slaves|
  {
    Checks(seq(|v.slaves|, i requires 0 <= i < |v.slaves| => v.slaves[i].link in {Up, Fail}),
           seq(|v.slaves|, _ => true))
  }

  function Idle(v: BondView, n: nat): (cs: seq<Checks>)
    ensures |cs| == n && Plays27(v, cs)
  {
    seq(n, _ => IdleCheck(v))
  }

  /** Then it stays without an active slave. */
  lemma {:induction false} IdleStaysStuck(v: BondView, n: nat)
    requires v.Valid() && v.active == NULL
    ensures Run27(v, Idle(v, n)).active == NULL
    decreases n
  {
    hide Tick27, IdleCheck;
    if n > 0 {
      var w := Tick27(v, IdleCheck(v));
      IdleTick(v);
      assert Idle(v, n)[1..] == Idle(w, n - 1);
      IdleStaysStuck(w, n - 1);
    }
  }

  lemma IdleTick(v: BondView)
    requires v.Valid() && v.active == NULL
    ensures var w := Tick27(v, IdleCheck(v)); w.active == NULL && IdleCheck(w) == IdleCheck(v)
  {
    var c := IdleCheck(v);
    var x := Observe(v, c.ups);
    var u := Inspect(x, c.reports);
    forall i | 0 <= i < |v.slaves|
      ensures u.slaves[i].newLink == NoChange && (u.slaves[i].link in {Up, Fail}) == (v.slaves[i].link in {Up, Fail})
    {
      assert u.slaves[i] == InspectSlave(v.params, x.slaves[i], c.reports[i]);
    }
    assert IdleCheck(u).reports == c.reports && IdleCheck(u).ups == c.ups;
  }

  /** When 2.6.27 recovers.  Let one slave be up on every check of some number of ticks, at least
      updelay + 1.  That the bond has an active slave at the end, whatever the other slaves do and
      however devices come and go, is guaranteed exactly if it had one at the start, or that slave
      was DOWN or BACK: if its link was UP or FAIL it completes no updelay, and nothing else makes
      this monitor look for an active slave. */
  lemma RecoversIff27(v: BondView, j: nat, n: nat)
    requires v.Valid() && j < |v.slaves| && DelayInRange(v.params, v.slaves[j]) && n >= v.params.updelay + 1
    ensures Hopeful(v, j) <==>
      (forall cs :: Plays27(v, cs) && |cs| == n && (forall t :: 0 <= t < n ==> StaysUp(cs[t], j)) ==>
         Run27(v, cs).active != NULL)
  {
    if Hopeful(v, j) {
      forall cs | Plays27(v, cs) && |cs| == n && (forall t :: 0 <= t < n ==> StaysUp(cs[t], j))
        ensures Run27(v, cs).active != NULL
      {
        Recovers27(v, cs, j);
      }
    } else {
      IdleStaysStuck(v, n);
      assert forall t :: 0 <= t < n ==> StaysUp(Idle(v, n)[t], j);
    }
  }

  /** A bond that need not recover is reached in five steps: enslave two slaves, let the second
      fail one check, release the first, and let the second recover before its downdelay expires. */
  lemma StuckIsReachable27(p: Params) returns (es: seq<Event>)
    requires p == Params(ActiveBackup, 100, 0, 0, 1)
    ensures Plays(BondView(p, [], NULL, NULL), es) && var v := Run(BondView(p, [], NULL, NULL), es);
      |v.slaves| == 1 && !Hopeful(v, 0)
  {
    hide Run, Plays, Step, Pair;
    var e := [Enslaved(0, true, true, false), Enslaved(1, true, true, false), Monitored([true, false]), Released(0),
              Monitored([true])];
    es := e;
    var v0, v1, v2 := BondView(p, [], NULL, NULL), Pair(p, 1), Pair(p, 2);
    PairIsReached(p);
    var v3 := SecondFails(p);
    var f := v3.slaves[1];
    var v4 := v3.(slaves := [f], active := NULL);
    var v5 := v4.(slaves := [f.(link := Up)]);
    LeftWithFailing(v3);
    StepByStep([v0, v1, v2, v3, v4, v5], es);
  }

  /** The first `n` of two slaves that have just been enslaved with their links up. */
  function Pair(p: Params, n: nat): (v: BondView)
    requires 0 < n <= 2
    ensures v.Valid() && |v.slaves| == n
  {
    var s := SlaveView(0, Up, To(Up), 0, Active, false, 0, true);
    BondView(p, [s, SetInactiveFlags(s.(dev := 1))][..n], 0, NULL)
  }

  lemma PairIsReached(p: Params)
    requires p == Params(ActiveBackup, 100, 0, 0, 1)
    ensures Step(BondView(p, [], NULL, NULL), Enslaved(0, true, true, false)) == Pair(p, 1)
    ensures Step(Pair(p, 1), Enslaved(1, true, true, false)) == Pair(p, 2)
  {
    var v0, v1, v2 := BondView(p, [], NULL, NULL), Pair(p, 1), Pair(p, 2);
    var s := v1.slaves[0];
    var u := v0.(slaves := [SetInactiveFlags(s)]);
    assert v0.slaves + [s] == [s] && [s][0 := SetInactiveFlags(s)] == u.slaves;
    assert BestSlave(u) == 0;
    assert (v1.slaves + [s.(dev := 1)])[1 := v2.slaves[1]] == v2.slaves;
    ReadyStartIsBest(v2, 0);
  }

  lemma SecondFails(p: Params) returns (w: BondView)
    requires p == Params(ActiveBackup, 100, 0, 0, 1)
    ensures Step(Pair(p, 2), Monitored([true, false])) == w
    ensures w.Valid() && |w.slaves| == 2 && w.active == 0 && w.primary == NULL
    ensures var f := w.slaves[1];
      f.link == Fail && f.newLink == NoChange && f.role == Backup && f.inactive
  {
    var v := Pair(p, 2);
    var s, t := v.slaves[0], v.slaves[1];
    w := v.(slaves := [s.(newLink := NoChange), t.(link := Fail, delay := 0, newLink := NoChange)]);
    assert Inspect(v, [true, false]) == w;
  }

  /** The active slave leaves the one that has failed its last check, and that recovers. */
  lemma LeftWithFailing(v: BondView)
    requires v.Valid() && |v.slaves| == 2 && v.active == 0 && v.primary == NULL
    requires var f := v.slaves[1];
      f.link == Fail && f.newLink == NoChange && f.role == Backup && f.inactive
    ensures var f := v.slaves[1]; var w := v.(slaves := [f], active := NULL);
      && Step(v, Released(0)) == w
      && Step(w, Monitored([true])) == w.(slaves := [f.(link := Up)])
  {
    var f := v.slaves[1];
    var w := v.(slaves := [f], active := NULL);
    assert Detach(v, 0) == w;
    BestSlaveIsBest(w, 0);
    assert Inspect(w, [true]) == w.(slaves := [f.(link := Up)]);
  }
}
