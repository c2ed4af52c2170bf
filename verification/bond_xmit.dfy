/** Transmitting through the bond: round-robin and broadcast.  Handing a frame to a
    slave's queue always succeeds in this driver. */
module BondXmit {
  import opened BondState
  import opened BondRing
  import opened BestSlaveLaws

  /** The slaves a frame may leave by. */
  predicate Eligible(s: SlaveView) {
    s.isUp && s.link == Up && s.role == Active
  }

  /** The first eligible slave met from `start`, beginning `k` steps on; NULL if none. */
  function EligibleFrom(s: seq<SlaveView>, start: nat, k: nat): (p: int)
    requires start < |s| && k <= |s|
    ensures NULL <= p < |s|
    decreases |s| - k
  {
    if k == |s| then NULL
    else if Eligible(s[Cyclic(start, k, |s|)]) then Cyclic(start, k, |s|)
    else EligibleFrom(s, start, k + 1)
  }

  /** The slave round-robin sends the frame numbered `counter` to. */
  function RoundRobinPick(s: seq<SlaveView>, counter: nat): (p: int)
    requires s != []
    ensures NULL <= p < |s|
  {
    EligibleFrom(s, counter % |s|, 0)
  }

  /** Position `p` is that of the first eligible slave from the `k`-th step on. */
  ghost predicate FirstEligible(s: seq<SlaveView>, start: nat, k: nat, p: nat)
    requires start < |s|
  {
    p < |s| && s[p].isUp && s[p].link == Up && s[p].role == Active &&
    (exists j :: k <= j < |s| && p == Cyclic(start, j, |s|) &&
       forall m :: k <= m < j ==>
         var t := s[Cyclic(start, m, |s|)]; !(t.isUp && t.link == Up && t.role == Active))
  }

  /** It is eligible and the first such slave, in ring order, from the one the counter
      points at; and there is one if any slave is eligible. */
  lemma RoundRobinPicksFirst(s: seq<SlaveView>, counter: nat)
    requires s != []
    ensures var p, start := RoundRobinPick(s, counter), counter % |s|;
      && (p == NULL <==> forall i :: 0 <= i < |s| ==> !(s[i].isUp && s[i].link == Up && s[i].role == Active))
      && (p != NULL ==> FirstEligible(s, start, 0, p))
  {
    var start := counter % |s|;
    PickFirstFrom(s, start, 0);
    if RoundRobinPick(s, counter) == NULL {
      forall i | 0 <= i < |s| ensures !Eligible(s[i]) {
        var k := EverySlaveIsMet(start, |s|, i);
      }
    }
  }

  lemma {:induction false} PickFirstFrom(s: seq<SlaveView>, start: nat, k: nat)
    requires start < |s| && k <= |s|
    ensures var p := EligibleFrom(s, start, k);
      && (p == NULL <==> forall j :: k <= j < |s| ==> !Eligible(s[Cyclic(start, j, |s|)]))
      && (p != NULL ==> FirstEligible(s, start, k, p))
    decreases |s| - k
  {
    if k < |s| && !Eligible(s[Cyclic(start, k, |s|)]) {
      PickFirstFrom(s, start, k + 1);
    }
  }

  /** bond_xmit_roundrobin; `deviceOk` is the bond device being up and running.  The frame
      is queued on slave `to`, or freed when that is null. */
  method XmitRoundRobin(b: Bonding, deviceOk: bool) returns (to: Slave?, ghost pos: int)
    requires b.Valid()
    modifies b`rrTxCounter
    ensures b.Valid() && b.view == old(b.view)
    ensures LeadsTo(b.ring, to, pos)
    ensures !deviceOk || b.ring == [] ==> to == null && b.rrTxCounter == old(b.rrTxCounter)
    ensures deviceOk && b.ring != [] ==>
      && b.rrTxCounter == (old(b.rrTxCounter) + 1) % 0x1_0000
      && pos == RoundRobinPick(b.view.slaves, old(b.rrTxCounter))
  {
    RingShape(b);
    hide EligibleFrom, Linked;
    if !(deviceOk && b.cnt > 0) {
      return null, NULL;
    }
    var slaveNo := b.rrTxCounter % b.cnt;
    b.rrTxCounter := (b.rrTxCounter + 1) % 0x1_0000;
    ghost var start := slaveNo;
    var slave := CountedTo(b, slaveNo);
    hide Bonding.Valid;
    to, pos := FirstEligibleFrom(b, slave, start);
  }

  /** The counter's walk from the head of the ring. */
  method CountedTo(b: Bonding, n: nat) returns (slave: Slave)
    requires b.Valid() && n < |b.ring|
    ensures slave == b.ring[n]
  {
    RingShape(b);
    hide Linked, Bonding.Valid;
    slave := b.first;
    var slaveNo: int := n;
    var i := 0;
    while i < b.cnt
      invariant 0 <= i <= n && slaveNo == n - i
      invariant slave == b.ring[i]
    {
      slaveNo := slaveNo - 1;
      if slaveNo < 0 {
        break;
      }
      NextOf(b.ring, i);
      slave := slave.next;
      i := i + 1;
    }
  }

  method FirstEligibleFrom(b: Bonding, first: Slave, ghost start: nat) returns (to: Slave?, ghost pos: int)
    requires b.Valid() && start < |b.ring| && first == b.ring[start]
    ensures |b.view.slaves| == |b.ring| && pos == EligibleFrom(b.view.slaves, start, 0)
    ensures LeadsTo(b.ring, to, pos)
  {
    RingShape(b);
    RingViews(b);
    ghost var n := |b.ring|;
    hide Linked, Shows, Bonding.Valid;
    var slave := first;
    var i := 0;
    while i < b.cnt
      invariant 0 <= i <= n
      invariant slave == b.ring[if i < n then Cyclic(start, i, n) else start]
      invariant EligibleFrom(b.view.slaves, start, i) == EligibleFrom(b.view.slaves, start, 0)
    {
      ghost var p := Cyclic(start, i, n);
      ViewOf(b.ring, b.view.slaves, p);
      if slave.isUp && slave.link == Up && slave.state == Active {
        return slave, p;
      }
      NextOf(b.ring, p);
      slave := slave.next;
      i := i + 1;
    }
    return null, NULL;
  }

  // ----------------------------------- broadcast ------------------------------------

  /** The slave met `k` steps after `start` receives the frame: it is eligible, and either
      the first such slave or one for which the frame could be cloned. */
  ghost predicate Receives(s: seq<SlaveView>, start: nat, cloneOk: seq<bool>, k: nat)
    requires start < |s| == |cloneOk| && k < |s|
  {
    && Eligible(s[Cyclic(start, k, |s|)])
    && (cloneOk[k] || forall j :: 0 <= j < k ==> !Eligible(s[Cyclic(start, j, |s|)]))
  }

  /** `ks` lists, in order, the receiving steps among the first `i`. */
  ghost predicate Met(s: seq<SlaveView>, start: nat, cloneOk: seq<bool>, i: nat, ks: seq<nat>)
    requires start < |s| == |cloneOk| && i <= |s|
  {
    && (forall m :: 0 <= m < |ks| ==> ks[m] < i)
    && (forall m, l :: 0 <= m < l < |ks| ==> ks[m] < ks[l])
    && (forall k :: 0 <= k < i ==> (k in ks <==> Receives(s, start, cloneOk, k)))
    && (ks == [] <==> forall k :: 0 <= k < i ==> !Eligible(s[Cyclic(start, k, |s|)]))
  }

  lemma MetStep(s: seq<SlaveView>, start: nat, cloneOk: seq<bool>, i: nat, ks: seq<nat>)
    requires start < |s| == |cloneOk| && i < |s| && Met(s, start, cloneOk, i, ks)
    ensures Receives(s, start, cloneOk, i) <==> Eligible(s[Cyclic(start, i, |s|)]) && (cloneOk[i] || ks == [])
    ensures Met(s, start, cloneOk, i + 1, if Receives(s, start, cloneOk, i) then ks + [i] else ks)
  {
    if Receives(s, start, cloneOk, i) {
      var ks' := ks + [i];
      forall k | 0 <= k < i + 1 ensures k in ks' <==> Receives(s, start, cloneOk, k) {
        assert k in ks' <==> k in ks || k == i;
      }
      assert ks'[|ks|] == i;
    }
  }

  /** `got` are the slaves met at the steps `ks`. */
  ghost predicate MetAt(r: seq<Slave>, start: nat, ks: seq<nat>, got: seq<Slave>) {
    start < |r| && |got| == |ks| && forall m :: 0 <= m < |ks| ==> ks[m] < |r| && got[m] == r[Cyclic(start, ks[m], |r|)]
  }

  /** No slave gets the frame twice, and exactly those get it who should. */
  ghost predicate Reaches(r: seq<Slave>, s: seq<SlaveView>, start: nat, cloneOk: seq<bool>, got: seq<Slave>)
    requires start < |r| == |s| == |cloneOk|
  {
    && (forall i, j :: 0 <= i < j < |got| ==> got[i] != got[j])
    && (forall k :: 0 <= k < |r| ==> (r[Cyclic(start, k, |r|)] in got <==> Receives(s, start, cloneOk, k)))
    && (forall x :: x in got ==> x in r)
    && (got == [] <==> forall i :: 0 <= i < |s| ==> !Eligible(s[i]))
  }

  lemma GotIsMet(r: seq<Slave>, start: nat, ks: seq<nat>, got: seq<Slave>, k: nat)
    requires Distinct(r) && MetAt(r, start, ks, got) && k < |r|
    ensures r[Cyclic(start, k, |r|)] in got <==> k in ks
  {
    if k in ks {
      var m :| 0 <= m < |ks| && ks[m] == k;
      assert got[m] == r[Cyclic(start, k, |r|)];
    }
    if r[Cyclic(start, k, |r|)] in got {
      var m :| 0 <= m < |got| && got[m] == r[Cyclic(start, k, |r|)];
      assert Cyclic(start, ks[m], |r|) == Cyclic(start, k, |r|);
    }
  }

  lemma GotOnce(r: seq<Slave>, start: nat, ks: seq<nat>, got: seq<Slave>, i: nat, j: nat)
    requires Distinct(r) && MetAt(r, start, ks, got) && i < |got| && j < |got| && ks[i] != ks[j]
    ensures got[i] != got[j]
  {
    assert Cyclic(start, ks[i], |r|) != Cyclic(start, ks[j], |r|);
  }

  /** So whoever gets the frame is up with its link UP and is ACTIVE, everyone like that gets it if
      all clones can be made, and someone does if there is anyone like that. */
  lemma WhoGetsTheFrame(r: seq<Slave>, s: seq<SlaveView>, start: nat, cloneOk: seq<bool>, got: seq<Slave>, i: nat)
    requires start < |r| == |s| == |cloneOk| && Distinct(r) && Reaches(r, s, start, cloneOk, got) && i < |r|
    ensures var able := s[i].isUp && s[i].link == Up && s[i].role == Active;
      && (r[i] in got ==> able)
      && ((forall k :: 0 <= k < |cloneOk| ==> cloneOk[k]) && able ==> r[i] in got)
      && (able ==> got != [])
  {
    var k := EverySlaveIsMet(start, |r|, i);
  }

  lemma MetReaches(r: seq<Slave>, s: seq<SlaveView>, start: nat, cloneOk: seq<bool>, ks: seq<nat>, got: seq<Slave>)
    requires start < |r| == |s| == |cloneOk| && Distinct(r)
    requires Met(s, start, cloneOk, |r|, ks) && MetAt(r, start, ks, got)
    ensures Reaches(r, s, start, cloneOk, got)
  {
    hide Distinct, Cyclic, Eligible, Receives;
    forall k | 0 <= k < |r| ensures r[Cyclic(start, k, |r|)] in got <==> Receives(s, start, cloneOk, k) {
      GotIsMet(r, start, ks, got, k);
    }
    forall i, j | 0 <= i < j < |got| ensures got[i] != got[j] {
      GotOnce(r, start, ks, got, i, j);
    }
    if ks == [] {
      forall i | 0 <= i < |s| ensures !Eligible(s[i]) {
        var k := EverySlaveIsMet(start, |s|, i);
      }
    }
  }

  /** bond_xmit_broadcast.  `cloneOk[k]` is whether a clone made at the `k`-th slave met
      succeeds; `copies` are the slaves that are sent a clone and `original` the one that is
      sent the frame itself, null if it is freed. */
  method XmitBroadcast(b: Bonding, deviceOk: bool, cloneOk: seq<bool>) returns (copies: seq<Slave>, original: Slave?)
    requires b.Valid() && |cloneOk| == |b.ring|
    ensures !deviceOk || b.active == null ==> copies == [] && original == null
    ensures original == null ==> copies == []
    ensures deviceOk && b.active != null ==>
      Reaches(b.ring, b.view.slaves, b.view.active, cloneOk, copies + if original == null then [] else [original])
  {
    hide Receives, Met;
    copies, original := [], null;
    if !(deviceOk && b.cnt > 0) {
      return;
    }
    var startAt := b.active;
    if startAt == null {
      return;
    }
    ghost var n, s, start := |b.ring|, b.view.slaves, b.view.active;
    ghost var ks: seq<nat> := [];
    MetNone(s, start, cloneOk);
    var txDev: Slave? := null;
    var slave := startAt;
    var i := 0;
    while i < b.cnt
      invariant 0 <= i <= n
      invariant slave == b.ring[if i < n then Cyclic(start, i, n) else start]
      invariant Met(s, start, cloneOk, i, ks)
      invariant txDev == null ==> copies == [] && ks == []
      invariant txDev != null ==> MetAt(b.ring, start, ks, copies + [txDev])
    {
      ghost var p := Cyclic(start, i, n);
      assert s[p] == slave.View();
      MetStep(s, start, cloneOk, i, ks);
      if slave.isUp && slave.link == Up && slave.state == Active {
        if txDev != null {
          if cloneOk[i] {
            copies := copies + [txDev];
            txDev := slave;
            ks := ks + [i];
          }
        } else {
          txDev := slave;
          ks := ks + [i];
        }
      }
      slave := slave.next;
      i := i + 1;
    }
    MetReaches(b.ring, s, start, cloneOk, ks, copies + if txDev == null then [] else [txDev]);
    if txDev != null {
      original := txDev;
    }
  }

  lemma MetNone(s: seq<SlaveView>, start: nat, cloneOk: seq<bool>)
    requires start < |s| == |cloneOk|
    ensures Met(s, start, cloneOk, 0, [])
  {
  }
}
