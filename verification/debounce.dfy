/** Debouncing over whole runs of the 2.6.27 monitor: when a slave changes state follows
    from the length of the current streak of equal link checks, and from nothing else
    but early promotion. */
module Debounce {
  import opened BondState
  import opened BestSlaveLaws
  import opened BondRuns

  /** How many of the latest answers in `h` are all `answer`. */
  function Streak(h: seq<bool>, answer: bool): (n: nat)
    ensures n <= |h|
    ensures forall i :: |h| - n <= i < |h| ==> h[i] == answer
    ensures n < |h| ==> h[|h| - n - 1] != answer
  {
    if h == [] || h[|h| - 1] != answer then 0 else Streak(h[..|h| - 1], answer) + 1
  }

  /** What a slave's link and delay must be after the answers `h`.  A streak that began
      before `h` did is not counted. */
  ghost predicate Tracks(p: Params, h: seq<bool>, s: SlaveView) {
    match s.link
    case Up => Streak(h, false) == 0
    case Fail => 1 <= Streak(h, false) <= p.downdelay && s.delay == p.downdelay - Streak(h, false)
    case Down => Streak(h, true) == 0
    case Back =>
      && (h == [] || Streak(h, true) >= 1)
      && Streak(h, true) <= p.updelay && s.delay == p.updelay - Streak(h, true)
  }

  predicate Good(s: SlaveView) {
    s.link in {Up, Fail}
  }

  /** Link and delay of `t` are those of `s`, or `s` was settling and has been promoted. */
  predicate SameOrPromoted(s: SlaveView, t: SlaveView) {
    || (t.link == s.link && t.delay == s.delay)
    || (s.link == Back && t.link == Up)
  }

  lemma PromotedTracks(p: Params, h: seq<bool>, s: SlaveView, t: SlaveView)
    requires Tracks(p, h, s) && SameOrPromoted(s, t)
    ensures Tracks(p, h, t)
  {
  }

  // ------------------------------ one slave in a tick -------------------------------

  /** Choosing an active slave promotes a settling slave only by making it the active one. */
  lemma SelectOnOne(v: BondView, i: nat)
    requires v.Valid() && i < |v.slaves|
    ensures var s, t, w := v.slaves[i], Select(v).slaves[i], Select(v);
      && t.newLink == s.newLink && t.failures == s.failures
      && SameOrPromoted(s, t)
      && (t.link != s.link ==> v.active != i && w.active == i)
      && (v.active != i && w.active == i ==> s.link in {Up, Back} && t.link == Up)
  {
    hide BestSlave;
    BestIsUpOrBack(v);
  }

  /** One step of the commit loop, on any slave. */
  lemma CommitSlaveOnOne(v: BondView, m: nat, i: nat)
    requires v.Valid() && i < |v.slaves| && m < |v.slaves|
    requires i == m ==> Inspected(v.slaves[i])
    ensures var s, t, w := v.slaves[i], CommitSlave(v, m).slaves[i], CommitSlave(v, m);
      && t.newLink == s.newLink
      && (v.active != i && w.active == i ==> t.link == Up && (s.link in {Up, Back} || m == i))
      && (i == m && s.newLink == To(Up) ==> t.link == Up && t.failures == s.failures)
      && (i == m && s.newLink == To(Down) ==> t.link == Down && t.failures == CommittedDown(v.params, s).failures)
      && (i != m || s.newLink == NoChange ==>
            && t.failures == s.failures && SameOrPromoted(s, t)
            && (t.link != s.link ==> v.active != i && w.active == i))
  {
    hide Select;
    var s := v.slaves[m];
    match s.newLink {
      case To(Up) =>
        SelectOnOne(v.(slaves := v.slaves[m := CommittedUp(v.params, s, m == v.primary)]), i);
      case To(Down) =>
        SelectOnOne(v.(slaves := v.slaves[m := CommittedDown(v.params, s)]), i);
      case _ =>
    }
  }

  /** Some step of the first `n` commit steps makes the slave at position `i` active. */
  ghost predicate MadeActive(u: BondView, n: nat, i: nat)
    requires u.Valid() && n <= |u.slaves|
  {
    exists m :: 0 < m <= n && CommitUpTo(u, m).active == i && CommitUpTo(u, m - 1).active != i
  }

  lemma {:induction false} CommitOnOne(u: BondView, n: nat, i: nat)
    requires u.Valid() && n <= |u.slaves| && i < |u.slaves| && Inspected(u.slaves[i])
    ensures var s, t := u.slaves[i], CommitUpTo(u, n).slaves[i];
      && t.newLink == s.newLink
      && (i < n && s.newLink == To(Up) ==> t.link == Up && t.failures == s.failures)
      && (i < n && s.newLink == To(Down) ==> t.link == Down && t.failures == CommittedDown(u.params, s).failures)
      && (i >= n || s.newLink == NoChange ==>
            && t.failures == s.failures && SameOrPromoted(s, t)
            && (t.link != s.link ==> MadeActive(u, n, i)))
      && (MadeActive(u, n, i) ==> t.link == Up)
  {
    hide CommitSlave;
    if n > 0 {
      CommitOnOne(u, n - 1, i);
      CommitSlaveOnOne(CommitUpTo(u, n - 1), n - 1, i);
      assert MadeActive(u, n - 1, i) ==> MadeActive(u, n, i);
    }
  }

  /** A failover of the tick makes the slave active while its link is still settling. */
  ghost predicate PromotedInTick(v: BondView, reports: seq<bool>, i: nat)
    requires v.Valid() && |reports| == |v.slaves| && i < |v.slaves|
  {
    var u := Inspect(v, reports);
    u.slaves[i].link == Back && MadeActive(u, |u.slaves|, i)
  }

  /** The exact effect of a tick on a slave that tracks its answers so far. */
  ghost predicate ExactTick(v: BondView, reports: seq<bool>, i: nat, h: seq<bool>)
    requires v.Valid() && |reports| == |v.slaves| && i < |v.slaves|
  {
    var s, t, h' := v.slaves[i], Tick(v, reports).slaves[i], h + [reports[i]];
    && (Good(s) ==>
          && (t.link == Down <==> Streak(h', false) == v.params.downdelay + 1)
          && (t.link != Down ==> Good(t)))
    && (!Good(s) ==>
          && (t.link == Up <==> Streak(h', true) == v.params.updelay + 1 || PromotedInTick(v, reports, i))
          && (t.link != Up ==> !Good(t)))
    && t.failures == (if Good(s) && t.link == Down && s.failures < UINT_MAX then s.failures + 1 else s.failures)
    && Tracks(v.params, h', t)
  }

  lemma StreakGrows(h: seq<bool>, r: bool, answer: bool)
    ensures Streak(h + [r], answer) == if r == answer then Streak(h, answer) + 1 else 0
  {
    assert (h + [r])[..|h|] == h;
  }

  lemma InspectIsExact(p: Params, h: seq<bool>, s: SlaveView, r: bool)
    requires Tracks(p, h, s)
    ensures var a, bad, good := InspectSlave(p, s, r), Streak(h + [r], false), Streak(h + [r], true);
      && a.failures == s.failures && Inspected(a)
      && if Good(s) then
           if r then a.newLink == NoChange && a.link == Up && bad == 0
           else if bad == p.downdelay + 1 then a.newLink == To(Down)
           else a.newLink == NoChange && a.link == Fail && Tracks(p, h + [r], a)
         else
           if !r then a.newLink == NoChange && a.link == Down && good == 0
           else if good == p.updelay + 1 then a.newLink == To(Up) && bad == 0
           else a.newLink == NoChange && a.link == Back && bad == 0 && Tracks(p, h + [r], a)
  {
    StreakGrows(h, r, true);
    StreakGrows(h, r, false);
  }

  lemma TickIsExact(v: BondView, reports: seq<bool>, i: nat, h: seq<bool>)
    requires v.Valid() && |reports| == |v.slaves| && i < |v.slaves|
    requires Tracks(v.params, h, v.slaves[i])
    ensures ExactTick(v, reports, i, h)
  {
    hide CommitUpTo, InspectSlave, Streak, MadeActive;
    var u, s, r := Inspect(v, reports), v.slaves[i], reports[i];
    var a := u.slaves[i];
    assert a == InspectSlave(v.params, s, r);
    InspectIsExact(v.params, h, s, r);
    StreakGrows(h, r, true);
    StreakGrows(h, r, false);
    CommitOnOne(u, |u.slaves|, i);
    TickCommits(v, reports);
  }

  /** Without anything pending the commit pass would do nothing. */
  lemma TickCommits(v: BondView, reports: seq<bool>)
    requires v.Valid() && |reports| == |v.slaves|
    ensures Tick(v, reports) == CommitUpTo(Inspect(v, reports), |v.slaves|)
  {
    var u := Inspect(v, reports);
    if !HasPending(u) {
      NothingPending(u, |v.slaves|);
    }
  }

  lemma {:induction false} NothingPending(u: BondView, n: nat)
    requires u.Valid() && n <= |u.slaves| && !HasPending(u)
    ensures CommitUpTo(u, n) == u
  {
    if n > 0 {
      NothingPending(u, n - 1);
    }
  }

  // ---------------------------------- whole runs ------------------------------------

  /** Where the slave at position `i` is after `e`; NULL once it has left the bond. */
  function Follow(i: nat, e: Event): (j: int) {
    match e
    case Released(k) => Shift(i, k)
    case AllReleased => NULL
    case _ => i
  }

  lemma OtherStepTracks(v: BondView, e: Event, i: nat, h: seq<bool>)
    requires v.Valid() && e.Possible(v) && i < |v.slaves| && !e.Monitored?
    requires Tracks(v.params, h, v.slaves[i])
    ensures Follow(i, e) != NULL ==>
      && 0 <= Follow(i, e) < |Step(v, e).slaves|
      && Tracks(v.params, h, Step(v, e).slaves[Follow(i, e)])
  {
    if Follow(i, e) != NULL {
      OtherStepPromotes(v, e, i);
      PromotedTracks(v.params, h, v.slaves[i], Step(v, e).slaves[Follow(i, e)]);
    }
  }

  lemma OtherStepPromotes(v: BondView, e: Event, i: nat)
    requires v.Valid() && e.Possible(v) && i < |v.slaves| && !e.Monitored? && Follow(i, e) != NULL
    ensures 0 <= Follow(i, e) < |Step(v, e).slaves|
    ensures SameOrPromoted(v.slaves[i], Step(v, e).slaves[Follow(i, e)])
  {
    hide Select, Enslave, ChangeActive, SlaveByDev, MakeTarget, Promote;
    match e {
      case Enslaved(dev, isUp, linkUp, named) => EnslavePromotes(v, dev, isUp, linkUp, named, i);
      case Released(k) => SelectOnOne(Detach(v, k), Shift(i, k));
      case ActiveChanged(k) => MovePromotes(v, k, i);
      case Made => MovePromotes(v, MakeTarget(v), i);
      case Designated(dev) => MovePromotes(v, SlaveByDev(v.slaves, dev), i);
      case _ =>
    }
  }

  lemma MovePromotes(v: BondView, n: int, i: nat)
    requires v.Valid() && NULL <= n < |v.slaves| && i < |v.slaves|
    ensures SameOrPromoted(v.slaves[i], ChangeActive(v, n).slaves[i])
  {
  }

  lemma EnslavePromotes(v: BondView, dev: nat, isUp: bool, linkUp: bool, named: bool, i: nat)
    requires v.Valid() && i < |v.slaves|
    ensures SameOrPromoted(v.slaves[i], Enslave(v, dev, isUp, linkUp, named).slaves[i])
  {
    hide Select, FreshSlave;
    var becomesPrimary := v.params.mode.UsesPrimary() && named;
    var u := v.(slaves := v.slaves + [FreshSlave(v.params, dev, isUp, linkUp)],
                primary := if becomesPrimary then |v.slaves| else v.primary);
    var n := |v.slaves|;
    SelectOnOne(u.(slaves := u.slaves[n := SetInactiveFlags(u.slaves[n])]), i);
  }

  /** The position of the slave that starts at `i`, and the answers its link check gives
      in the ticks of the run, up to its release. */
  ghost function Followed(v: BondView, es: seq<Event>, i: nat): (j: int)
    requires Plays(v, es) && i < |v.slaves|
    ensures j == NULL || 0 <= j < |Run(v, es).slaves|
    decreases |es|
  {
    if es == [] then i
    else if Follow(i, es[0]) == NULL then NULL
    else
      FollowInRange(v, es[0], i);
      Followed(Step(v, es[0]), es[1..], Follow(i, es[0]))
  }

  lemma FollowInRange(v: BondView, e: Event, i: nat)
    requires v.Valid() && e.Possible(v) && i < |v.slaves| && Follow(i, e) != NULL
    ensures 0 <= Follow(i, e) < |Step(v, e).slaves|
  {
  }

  function Answer(e: Event, i: nat): seq<bool>
    requires e.Monitored? ==> i < |e.reports|
  {
    if e.Monitored? then [e.reports[i]] else []
  }

  ghost function Answers(v: BondView, es: seq<Event>, i: nat): (h: seq<bool>)
    requires Plays(v, es) && i < |v.slaves|
    decreases |es|
  {
    if es == [] || Follow(i, es[0]) == NULL then []
    else
      FollowInRange(v, es[0], i);
      Answer(es[0], i) + Answers(Step(v, es[0]), es[1..], Follow(i, es[0]))
  }

  lemma TickTracks(v: BondView, e: Event, i: nat, h: seq<bool>)
    requires v.Valid() && e.Possible(v) && e.Monitored? && i < |v.slaves|
    requires Tracks(v.params, h, v.slaves[i])
    ensures Tracks(v.params, h + [e.reports[i]], Step(v, e).slaves[i])
  {
    hide Tick, Tracks;
    TickIsExact(v, e.reports, i, h);
  }

  lemma StepTracks(v: BondView, e: Event, i: nat, h: seq<bool>)
    requires v.Valid() && e.Possible(v) && i < |v.slaves| && Follow(i, e) != NULL
    requires Tracks(v.params, h, v.slaves[i])
    ensures 0 <= Follow(i, e) < |Step(v, e).slaves|
    ensures Tracks(v.params, h + Answer(e, i), Step(v, e).slaves[Follow(i, e)])
  {
    hide Step, Tracks;
    FollowInRange(v, e, i);
    if e.Monitored? {
      TickTracks(v, e, i, h);
    } else {
      OtherStepTracks(v, e, i, h);
      assert h + [] == h;
    }
  }

  lemma {:induction false} RunTracks(v: BondView, es: seq<Event>, i: nat, h: seq<bool>)
    requires Plays(v, es) && i < |v.slaves| && Tracks(v.params, h, v.slaves[i])
    ensures var j := Followed(v, es, i);
      j != NULL ==> Tracks(v.params, h + Answers(v, es, i), Run(v, es).slaves[j])
    decreases |es|
  {
    hide Step, Tracks;
    if es == [] {
      assert h + [] == h;
    } else if Follow(i, es[0]) != NULL {
      var e, w := es[0], Step(v, es[0]);
      StepTracks(v, e, i, h);
      RunTracks(w, es[1..], Follow(i, e), h + Answer(e, i));
      assert h + Answers(v, es, i) == h + Answer(e, i) + Answers(w, es[1..], Follow(i, e));
    }
  }

  /** A slave at the start of its history: settled, or as enslaving leaves it. */
  predicate AtRest(p: Params, s: SlaveView) {
    s.link in {Up, Down} || (s.link == Back && s.delay == p.updelay)
  }

  /** Every slave starts its history at rest, whatever enslaving it leads to. */
  lemma EnslavedIsAtRest(v: BondView, dev: nat, isUp: bool, linkUp: bool, named: bool)
    requires v.Valid()
    ensures AtRest(v.params, Enslave(v, dev, isUp, linkUp, named).slaves[|v.slaves|])
  {
    hide Select;
    var becomesPrimary := v.params.mode.UsesPrimary() && named;
    var u := v.(slaves := v.slaves + [FreshSlave(v.params, dev, isUp, linkUp)],
                primary := if becomesPrimary then |v.slaves| else v.primary);
    var n := |v.slaves|;
    SelectOnOne(u.(slaves := u.slaves[n := SetInactiveFlags(u.slaves[n])]), n);
  }

  /** Debouncing is exact over every run.  Take any slave at rest, any run of operations
      that it survives, and one more tick: a slave that was UP or FAIL is committed DOWN at
      that tick if and only if its check has now failed exactly downdelay + 1 times in a
      row; one that was DOWN or BACK becomes UP if and only if its check has now succeeded
      exactly updelay + 1 times in a row or a failover of that tick promotes it; and its
      failure count goes up by one, saturating, at exactly the DOWN commits. */
  lemma DebounceIsExact(v: BondView, es: seq<Event>, i: nat, reports: seq<bool>)
    requires Plays(v, es) && i < |v.slaves| && AtRest(v.params, v.slaves[i])
    requires Followed(v, es, i) != NULL && |reports| == |Run(v, es).slaves|
    ensures ExactTick(Run(v, es), reports, Followed(v, es, i), Answers(v, es, i))
  {
    RunTracks(v, es, i, []);
    assert [] + Answers(v, es, i) == Answers(v, es, i);
    TickIsExact(Run(v, es), reports, Followed(v, es, i), Answers(v, es, i));
  }

  /** FAIL and BACK delays stay within 0..downdelay and 0..updelay over every run. */
  lemma DelaysStayInRange(v: BondView, es: seq<Event>, i: nat)
    requires Plays(v, es) && i < |v.slaves| && AtRest(v.params, v.slaves[i])
    requires Followed(v, es, i) != NULL
    ensures var s := Run(v, es).slaves[Followed(v, es, i)];
      && (s.link == Fail ==> 0 <= s.delay < v.params.downdelay)
      && (s.link == Back ==> 0 <= s.delay <= v.params.updelay)
  {
    RunTracks(v, es, i, []);
  }
}
