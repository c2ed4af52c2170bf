/** What the search for the best slave finds, independently of how it walks. */
module BestSlaveLaws {
  import opened BondState

  /** The slave met `k` steps after `start`. */
  function At(s: seq<SlaveView>, start: nat, k: nat): SlaveView
    requires start < |s| && k < |s|
  {
    s[if start + k < |s| then start + k else start + k - |s|]
  }

  /** A slave that would do if none is ready: settling, with less than `bound` still to go. */
  predicate Candidate(s: SlaveView, bound: int) {
    s.isUp && s.link == Back && s.delay < bound
  }

  /** `k` is the earliest of the candidates of least delay among the first `n` met. */
  ghost predicate LeastCandidate(s: seq<SlaveView>, start: nat, bound: int, n: nat, k: nat)
    requires start < |s| && n <= |s|
  {
    && k < n
    && Candidate(At(s, start, k), bound)
    && (forall j :: 0 <= j < n && Candidate(At(s, start, j), bound) ==> At(s, start, k).delay <= At(s, start, j).delay)
    && (forall j :: 0 <= j < k && Candidate(At(s, start, j), bound) ==> At(s, start, k).delay < At(s, start, j).delay)
  }

  ghost predicate FirstReady(s: seq<SlaveView>, start: nat, k: nat)
    requires start < |s|
  {
    && k < |s| && At(s, start, k).isUp && At(s, start, k).link == Up
    && forall j :: 0 <= j < k ==> !(At(s, start, j).isUp && At(s, start, j).link == Up)
  }

  /** The search begins with a primary that is IS_UP while there is no ARP monitoring, else with
      the active slave, else with the head of the ring. */
  predicate BeginsAt(v: BondView, start: nat)
    requires v.Valid()
  {
    && start < |v.slaves|
    && (v.primary != NULL && v.params.arpInterval == 0 && v.slaves[v.primary].isUp ==> start == v.primary)
    && (v.primary == NULL || v.params.arpInterval != 0 || !v.slaves[v.primary].isUp ==>
          start == if v.active != NULL then v.active else 0)
  }

  /** Position `r` is that of the first ready slave from `start` on or, when none is ready, of the
      least candidate. */
  ghost predicate BestAt(v: BondView, start: nat, r: nat)
    requires v.Valid() && start < |v.slaves|
  {
    var s := v.slaves;
    exists k :: 0 <= k < |s| && r == (if start + k < |s| then start + k else start + k - |s|) &&
      (if exists p :: 0 <= p < |s| && s[p].isUp && s[p].link == Up then FirstReady(s, start, k)
       else LeastCandidate(s, start, v.params.updelay, |s|, k))
  }

  lemma {:induction false} BestFromFinds(s: seq<SlaveView>, start: nat, bound: int, k: nat, mintime: int, best: int,
      bk: int)
      returns (r: int)
    requires start < |s| && k <= |s|
    requires forall j :: 0 <= j < k ==> !At(s, start, j).Ready()
    requires if bk == NULL then
               best == NULL && mintime == bound && forall j :: 0 <= j < k ==> !Candidate(At(s, start, j), bound)
             else
               && 0 <= bk && LeastCandidate(s, start, bound, k, bk)
               && best == Cyclic(start, bk, |s|) && mintime == At(s, start, bk).delay
    ensures NULL <= r < |s|
    ensures BestFrom(s, start, k, mintime, best) == if r == NULL then NULL else Cyclic(start, r, |s|)
    ensures r == NULL ==> forall j :: 0 <= j < |s| ==> !At(s, start, j).Ready() && !Candidate(At(s, start, j), bound)
    ensures r != NULL ==>
      || FirstReady(s, start, r)
      || ((forall j :: 0 <= j < |s| ==> !At(s, start, j).Ready()) && LeastCandidate(s, start, bound, |s|, r))
    decreases |s| - k
  {
    if k == |s| {
      return bk;
    }
    var here := At(s, start, k);
    if here.Ready() {
      return k;
    }
    if here.Returning() && here.delay < mintime {
      r := BestFromFinds(s, start, bound, k + 1, here.delay, Cyclic(start, k, |s|), k);
    } else {
      r := BestFromFinds(s, start, bound, k + 1, mintime, best, bk);
    }
  }

  /** Every slave of the ring is met once on the way round. */
  lemma EverySlaveIsMet(start: nat, n: nat, p: nat) returns (k: nat)
    requires start < n && p < n
    ensures k < n && Cyclic(start, k, n) == p
    ensures forall j :: 0 <= j < n && Cyclic(start, j, n) == p ==> j == k
  {
    k := if p >= start then p - start else p - start + n;
  }

  /** The best slave is the first ready one met from where the search begins; failing that the
      earliest met of those settling slaves whose remaining delay is least and below updelay;
      and there is none exactly when no slave is either. */
  lemma BestSlaveIsBest(v: BondView, start: nat)
    requires v.Valid() && BeginsAt(v, start)
    ensures var s, r := v.slaves, BestSlave(v);
      && (r == NULL <==> forall p :: 0 <= p < |s| ==>
            !(s[p].isUp && s[p].link == Up) && !Candidate(s[p], v.params.updelay))
      && (r != NULL ==> BestAt(v, start, r))
  {
    var s := v.slaves;
    var k := BestFromFinds(s, start, v.params.updelay, 0, v.params.updelay, NULL, NULL);
    hide BestFrom;
    forall p | 0 <= p < |s| ensures exists j :: 0 <= j < |s| && At(s, start, j) == s[p] {
      var j := EverySlaveIsMet(start, |s|, p);
      assert At(s, start, j) == s[p];
    }
    hide LeastCandidate, Candidate;
    if k != NULL {
      FoundIsBest(v, start, k);
    }
  }

  lemma FoundIsBest(v: BondView, start: nat, k: nat)
    requires v.Valid() && start < |v.slaves| && k < |v.slaves|
    requires FirstReady(v.slaves, start, k) || (
      && LeastCandidate(v.slaves, start, v.params.updelay, |v.slaves|, k)
      && forall j :: 0 <= j < |v.slaves| ==> !At(v.slaves, start, j).Ready())
    ensures BestAt(v, start, Cyclic(start, k, |v.slaves|))
  {
    hide LeastCandidate;
    var s := v.slaves;
    var r := Cyclic(start, k, |s|);
    assert s[r] == At(s, start, k);
    if p :| 0 <= p < |s| && s[p].isUp && s[p].link == Up {
      var j := EverySlaveIsMet(start, |s|, p);
      assert At(s, start, j) == s[p];
    }
  }

  lemma BestIsUpOrBack(v: BondView)
    requires v.Valid()
    ensures var n := BestSlave(v); n != NULL ==> v.slaves[n].link in {Up, Back}
  {
    if v.slaves != [] {
      BestSlaveIsBest(v, SearchStart(v));
    }
  }

  /** The slave the search begins with wins if it is ready. */
  lemma ReadyStartIsBest(v: BondView, start: nat)
    requires v.Valid() && BeginsAt(v, start) && v.slaves[start].isUp && v.slaves[start].link == Up
    ensures BestSlave(v) == start
  {
  }

  /** So a ready primary is selected whoever is active, unless there is ARP monitoring. */
  lemma ReadyPrimaryIsSelected(v: BondView)
    requires v.Valid() && v.primary != NULL && v.params.arpInterval == 0
    requires v.slaves[v.primary].isUp && v.slaves[v.primary].link == Up
    ensures BestSlave(v) == v.primary && Select(v).active == v.primary
  {
    ReadyStartIsBest(v, v.primary);
  }

  /** With a healthy active slave and no usable primary to override it, nothing changes. */
  lemma SelectKeepsHealthyActive(v: BondView)
    requires v.Valid() && v.active != NULL && v.slaves[v.active].isUp && v.slaves[v.active].link == Up
    requires v.primary in {NULL, v.active} || v.params.arpInterval != 0 || !v.slaves[v.primary].isUp
    ensures Select(v) == v
  {
    ReadyStartIsBest(v, v.active);
  }

  /** Whoever is selected is ready, except an active slave that was settling and stays. */
  lemma SelectedIsReady(v: BondView)
    requires v.Valid()
    ensures var w := Select(v);
      w.active != NULL && w != v ==> w.slaves[w.active].isUp && w.slaves[w.active].link == Up
    ensures Select(v).active == NULL <==> forall p :: 0 <= p < |v.slaves| ==>
      !(v.slaves[p].isUp && v.slaves[p].link == Up) && !Candidate(v.slaves[p], v.params.updelay)
  {
    if v.slaves != [] {
      BestSlaveIsBest(v, SearchStart(v));
    }
  }

  /** Whoever is active after a selection was ready, or settling with less than updelay to go; and
      a new one is promoted. */
  lemma SelectedWasFit(v: BondView)
    requires v.Valid()
    ensures var w := Select(v);
      w.active != NULL ==>
        var s, t := v.slaves[w.active], w.slaves[w.active];
        && s.isUp && (s.link == Up || Candidate(s, v.params.updelay))
        && t.isUp && (w.active != v.active ==> t.link == Up)
        && (w.active == v.active ==> w == v)
  {
    if v.slaves != [] {
      BestSlaveIsBest(v, SearchStart(v));
    }
    hide BestSlave;
  }

  /** Once the selected slave is ready, a search from the same start finds it again. */
  lemma SelectedIsFoundAgain(v: BondView, w: BondView)
    requires v.Valid() && w == Select(v) && w != v && w.active != NULL
    requires SearchStart(w) == SearchStart(v)
    ensures BestSlave(w) == w.active
  {
    hide BestSlave, Select;
    var n, start := |v.slaves|, SearchStart(v);
    SelectedIsReady(v);
    SelectedWasFit(v);
    var k := EverySlaveIsMet(start, n, w.active);
    NoneBeforeSelected(v, start, k);
    FirstReadyIsBest(w, k);
  }

  /** No slave met before the one that is selected is ready, even afterwards. */
  lemma NoneBeforeSelected(v: BondView, start: nat, k: nat)
    requires v.Valid() && BeginsAt(v, start) && k < |v.slaves|
    requires Select(v).active == Cyclic(start, k, |v.slaves|) != v.active
    ensures forall j :: 0 <= j < k ==>
      var t := At(Select(v).slaves, start, j); !(t.isUp && t.link == Up)
  {
    hide BestSlave;
    BestSlaveIsBest(v, start);
    var s, t, n := v.slaves, Select(v).slaves, |v.slaves|;
    assert forall p :: 0 <= p < n && p != Select(v).active ==> t[p].isUp == s[p].isUp && t[p].link == s[p].link;
    if exists p :: 0 <= p < n && s[p].isUp && s[p].link == Up {
      assert FirstReady(s, start, k);
    }
    forall j | 0 <= j < k ensures !(At(t, start, j).isUp && At(t, start, j).link == Up) {
      assert !(At(s, start, j).isUp && At(s, start, j).link == Up);
    }
  }

  lemma FirstReadyIsBest(w: BondView, k: nat)
    requires w.Valid() && w.slaves != [] && FirstReady(w.slaves, SearchStart(w), k)
    ensures BestSlave(w) == Cyclic(SearchStart(w), k, |w.slaves|)
  {
    BestSlaveIsBest(w, SearchStart(w));
    hide BestSlave;
    var n, start := |w.slaves|, SearchStart(w);
    assert At(w.slaves, start, k).Ready() && w.slaves[Cyclic(start, k, n)].Ready();
  }

  /** Selecting twice in a row is selecting once. */
  lemma SelectIsIdempotent(v: BondView)
    requires v.Valid()
    ensures Select(Select(v)) == Select(v)
  {
    var w := Select(v);
    if w.slaves == [] || w == v {
      return;
    }
    SelectedIsReady(v);
    var s, t, n := v.slaves, w.slaves, |v.slaves|;
    assert forall p :: 0 <= p < n ==> t[p].isUp == s[p].isUp;
    if w.active == NULL {
      BestSlaveIsBest(w, SearchStart(w));
      assert forall p :: 0 <= p < n ==> t[p].link == s[p].link && t[p].delay == s[p].delay;
    } else if SearchStart(w) == w.active {
      ReadyStartIsBest(w, w.active);
    } else {
      SelectedIsFoundAgain(v, w);
    }
  }
}
