/** The bonding driver on the heap: slaves chained in a circular doubly linked ring,
    with the bond's pointers into it.  Every method that changes the state is proved
    to be the transition of module BondState on the value that the heap stands for. */
module BondRing {
  import opened Lists
  import opened BondState

  type u16 = x: int | 0 <= x < 0x1_0000

  class Slave {
    const dev: nat
    var next: Slave?
    var prev: Slave?
    var delay: int
    var link: Link
    var newLink: NewLink
    var state: Role
    var failures: nat
    // two fields of the slave's device: IFF_SLAVE_INACTIVE in priv_flags, and IS_UP(dev)
    var inactive: bool
    var isUp: bool
    var mtu: int

    // kzalloc: everything reads zero
    constructor (dev: nat, isUp: bool, mtu: int)
      ensures this.dev == dev && next == null && prev == null && this.mtu == mtu
      ensures View() == SlaveView(dev, Up, To(Up), 0, Active, false, 0, isUp)
    {
      this.dev := dev;
      next, prev := null, null;
      delay, link, newLink, state, failures := 0, Up, To(Up), Active, 0;
      inactive, this.isUp, this.mtu := false, isUp, mtu;
    }

    ghost function View(): SlaveView
      reads `delay, `link, `newLink, `state, `failures, `inactive, `isUp
    {
      SlaveView(dev, link, newLink, delay, state, inactive, failures, isUp)
    }

    method SetInactiveFlags()
      modifies `state, `inactive
      ensures state == Backup && inactive
    {
      state := Backup;
      inactive := true;
    }

    method SetActiveFlags()
      modifies `state, `inactive
      ensures state == Active && !inactive
    {
      state := Active;
      inactive := false;
    }
  }

  /** The positions either side of position `i` on a ring of `n`. */
  function After(i: nat, n: nat): nat
    requires i < n
  {
    if i + 1 < n then i + 1 else 0
  }

  function Before(i: nat, n: nat): nat
    requires i < n
  {
    if i > 0 then i - 1 else n - 1
  }

  ghost predicate Distinct(r: seq<Slave>) {
    forall i, j :: 0 <= i < j < |r| ==> r[i] != r[j]
  }

  /** next and prev chain `r` into a ring, and are each other's inverse. */
  ghost predicate Linked(r: seq<Slave>)
    reads r`next, r`prev
  {
    && (forall i {:trigger r[i].next} :: 0 <= i < |r| ==> r[i].next == r[After(i, |r|)])
    && (forall i {:trigger r[i].prev} :: 0 <= i < |r| ==> r[i].prev == r[Before(i, |r|)])
  }

  /** The ring `r` with the neighbours of position `k` bypassing it. */
  ghost predicate Bridged(r: seq<Slave>, k: nat)
    requires k < |r|
    reads r`next, r`prev
  {
    && (forall i {:trigger r[i].next} :: 0 <= i < |r| && i != k ==>
          r[i].next == r[if After(i, |r|) == k then After(k, |r|) else After(i, |r|)])
    && (forall i {:trigger r[i].prev} :: 0 <= i < |r| && i != k ==>
          r[i].prev == r[if Before(i, |r|) == k then Before(k, |r|) else Before(i, |r|)])
  }

  lemma BridgedIsLinked(r: seq<Slave>, k: nat)
    requires k < |r| && Distinct(r) && Bridged(r, k)
    ensures Linked(Without(r, k))
  {
    var q := Without(r, k);
    forall i | 0 <= i < |q| ensures q[i].next == q[After(i, |q|)] {
      assert q[i] == r[if i < k then i else i + 1];
    }
    forall i | 0 <= i < |q| ensures q[i].prev == q[Before(i, |q|)] {
      assert q[i] == r[if i < k then i else i + 1];
    }
  }

  lemma RemoveKeepsDistinct(r: seq<Slave>, k: nat)
    requires k < |r| && Distinct(r)
    ensures Distinct(Without(r, k)) && r[k] !in Without(r, k)
    ensures forall x :: x in r && x != r[k] ==> x in Without(r, k)
    ensures forall x :: x in Without(r, k) ==> x in r
  {
    var q := Without(r, k);
    forall x | x in r && x != r[k] ensures x in q {
      var i :| 0 <= i < |r| && r[i] == x;
      assert q[if i < k then i else i - 1] == x;
    }
  }

  /** Pointer `s` leads to position `p` of the ring `r`. */
  ghost predicate LeadsTo(r: seq<Slave>, s: Slave?, p: int) {
    NULL <= p < |r| && if p == NULL then s == null else s == r[p]
  }

  class Bonding {
    const params: Params
    var first: Slave?
    var active: Slave?
    var primary: Slave?
    var arpSlave: Slave?        // current_arp_slave, which only the ARP monitor sets
    var cnt: int
    var bufferMode: bool
    var rrTxCounter: u16
    var mtu: int
    ghost var ring: seq<Slave>
    ghost var view: BondView

    /** The ring is well formed; says nothing about the data on it. */
    ghost predicate RingValid()
      reads `cnt, `first, `ring, ring`next, ring`prev
    {
      && cnt == |ring|
      && first == (if ring == [] then null else ring[0])
      && Distinct(ring)
      && Linked(ring)
    }

    /** `view` is what the heap shows: each slave's fields, and where the pointers lead. */
    ghost predicate Shown()
      reads `view, `ring, `active, `primary
      reads ring`delay, ring`link, ring`newLink, ring`state, ring`failures, ring`inactive, ring`isUp
    {
      && view.params == params
      && |view.slaves| == |ring|
      && (forall i :: 0 <= i < |ring| ==> view.slaves[i] == ring[i].View())
      && LeadsTo(ring, active, view.active)
      && LeadsTo(ring, primary, view.primary)
    }

    ghost predicate Valid()
      reads this, ring`next, ring`prev
      reads ring`delay, ring`link, ring`newLink, ring`state, ring`failures, ring`inactive, ring`isUp
      ensures Valid() ==> view.Valid()
    {
      RingValid() && Shown()
    }

    constructor (params: Params, mtu: int)
      ensures Valid() && ring == []
      ensures view == BondView(params, [], NULL, NULL)
      ensures this.mtu == mtu
    {
      this.params := params;
      first, active, primary, arpSlave := null, null, null, null;
      cnt, bufferMode, rrTxCounter := 0, false, 0;
      this.mtu := mtu;
      ring := [];
      view := BondView(params, [], NULL, NULL);
    }

    // ----------------------------- slave list handling -----------------------------

    method AttachSlave(s: Slave)
      requires RingValid() && s !in ring
      modifies `first, `cnt, `ring, ring`next, ring`prev, s`next, s`prev
      ensures RingValid()
      ensures ring == old(ring) + [s]
    {
      ghost var r := ring;
      if first == null {
        s.next := s;
        s.prev := s;
        first := s;
      } else {
        assert first == r[0] && first.prev == r[|r| - 1];
        s.next := first;
        s.prev := first.prev;
        s.next.prev := s;
        s.prev.next := s;
      }
      cnt := cnt + 1;
      ring := ring + [s];
    }

    /** Unchains `s`.  Pointers of the bond to `s` are the caller's to repair. */
    method DetachSlave(s: Slave, ghost k: nat)
      requires RingValid() && k < |ring| && s == ring[k]
      modifies `first, `cnt, `ring, ring`next, ring`prev
      ensures ring == Without(old(ring), k)
      ensures RingValid() && s !in ring
      ensures s.next == null && s.prev == null
    {
      ghost var r := ring;
      BridgeNeighbours(s, k);
      if first == s {
        if cnt > 1 {
          first := s.next;
        } else {
          first := null;
        }
      }
      BridgedIsLinked(r, k);
      RemoveKeepsDistinct(r, k);
      s.next := null;
      s.prev := null;
      cnt := cnt - 1;
      ring := Without(ring, k);
    }

    /** Lets the neighbours of `s` bypass it. */
    method BridgeNeighbours(s: Slave, ghost k: nat)
      requires RingValid() && k < |ring| && s == ring[k]
      modifies ring`next, ring`prev
      ensures s.next == ring[After(k, |ring|)] && Bridged(ring, k)
    {
      ghost var a, b := After(k, |ring|), Before(k, |ring|);
      assert ring[k] == s && ring[k].next == ring[a] && ring[k].prev == ring[b];
      if s.next != null {
        s.next.prev := s.prev;
      }
      if s.prev != null {
        s.prev.next := s.next;
      }
    }

    // ------------------------- choosing the active slave --------------------------

    /** Where the search starts. */
    method FirstCandidate() returns (start: Slave?)
      requires Valid()
      ensures ring == [] ==> start == null
      ensures ring != [] ==> start == ring[SearchStart(view)]
    {
      start := active;
      if start == null {
        if cnt > 0 {
          start := first;
        } else {
          return;
        }
      }
      if primary != null && params.arpInterval == 0 && primary.isUp {
        start := primary;
      }
    }

    /** One turn of the search: `s` is met `k` steps after the start.  It is the answer, or the
        best so far and the next slave are. */
    method SearchTurn(s: Slave, ghost k: nat, mintime: int, best: Slave?, ghost bestPos: int)
        returns (found: bool, next: Slave?, least: int, choice: Slave?, ghost pos: int)
      requires Valid() && k < |ring| == |view.slaves| && s == ring[Cyclic(SearchStart(view), k, |ring|)]
      requires LeadsTo(ring, best, bestPos)
      ensures LeadsTo(ring, choice, pos)
      ensures BestFrom(view.slaves, SearchStart(view), k, mintime, bestPos) ==
        if found then pos else BestFrom(view.slaves, SearchStart(view), k + 1, least, pos)
      ensures next == ring[if k + 1 < |ring| then Cyclic(SearchStart(view), k + 1, |ring|) else SearchStart(view)]
    {
      ghost var start := SearchStart(view);
      ghost var p := Cyclic(start, k, |ring|);
      RingShape(this);
      NextOf(ring, p);
      RingViews(this);
      ViewOf(ring, view.slaves, p);
      BestTurn(view.slaves, start, k, mintime, bestPos);
      hide Bonding.Valid, SearchStart, BestFrom, Linked, Shows;
      found, next, least, choice, pos := false, s.next, mintime, best, bestPos;
      if s.isUp {
        if s.link == Up {
          found, choice, pos := true, s, p;
        } else if s.link == Back {
          if s.delay < mintime {
            least, choice, pos := s.delay, s, p;
          }
        }
      }
    }

    method FindBestSlave() returns (best: Slave?, ghost bestPos: int)
      requires Valid()
      ensures bestPos == BestSlave(view) && LeadsTo(ring, best, bestPos)
    {
      RingShape(this);
      hide Bonding.Valid, SearchStart, BestFrom, Linked;
      var newActive := FirstCandidate();
      best, bestPos := null, NULL;
      if newActive == null {
        return;
      }
      ghost var n, s, start := |ring|, view.slaves, SearchStart(view);
      var mintime: int := params.updelay;
      var i := 0;
      while i < cnt
        invariant 0 <= i <= n
        invariant newActive == ring[if i < n then Cyclic(start, i, n) else start]
        invariant LeadsTo(ring, best, bestPos)
        invariant BestFrom(s, start, i, mintime, bestPos) == BestSlave(view)
      {
        var found;
        found, newActive, mintime, best, bestPos := SearchTurn(newActive, i, mintime, best, bestPos);
        if found {
          return;
        }
        i := i + 1;
      }
      BestEnds(s, start, mintime, bestPos);
    }

    // One slave's fields change, and the view with them.

    method PromoteSlave(s: Slave, ghost k: nat)
      requires Valid() && k < |ring| && s == ring[k]
      modifies `view, s`delay, s`link
      ensures Valid()
      ensures view == old(view).(slaves := old(view).slaves[k := Promote(old(view).slaves[k])])
    {
      if s.link == Back {
        s.delay := 0;
        s.link := Up;
      }
      view := view.(slaves := view.slaves[k := Promote(view.slaves[k])]);
    }

    method SetSlaveInactiveFlags(s: Slave, ghost k: nat)
      requires Valid() && k < |ring| && s == ring[k]
      modifies `view, s`state, s`inactive
      ensures Valid()
      ensures view == old(view).(slaves := old(view).slaves[k := SetInactiveFlags(old(view).slaves[k])])
    {
      s.SetInactiveFlags();
      view := view.(slaves := view.slaves[k := SetInactiveFlags(view.slaves[k])]);
    }

    method SetSlaveActiveFlags(s: Slave, ghost k: nat)
      requires Valid() && k < |ring| && s == ring[k]
      modifies `view, s`state, s`inactive
      ensures Valid()
      ensures view == old(view).(slaves := old(view).slaves[k := SetActiveFlags(old(view).slaves[k])])
    {
      s.SetActiveFlags();
      view := view.(slaves := view.slaves[k := SetActiveFlags(view.slaves[k])]);
    }

    method SetSlaveState(s: Slave, ghost k: nat, state: Role)
      requires Valid() && k < |ring| && s == ring[k]
      modifies `view, s`state
      ensures Valid()
      ensures view == old(view).(slaves := old(view).slaves[k := old(view).slaves[k].(role := state)])
    {
      s.state := state;
      view := view.(slaves := view.slaves[k := view.slaves[k].(role := state)]);
    }

    method PointActiveAt(n: Slave?, ghost p: int)
      requires Valid() && LeadsTo(ring, n, p)
      modifies `active, `view
      ensures Valid() && view == old(view).(active := p)
    {
      active := n;
      view := view.(active := p);
    }

    /** Makes `n`, at position `p`, the active slave. */
    method ChangeActiveSlave(n: Slave?, ghost p: int)
      requires Valid() && LeadsTo(ring, n, p)
      modifies `active, `view, ring`delay, ring`link, ring`state, ring`inactive
      ensures Valid() && view == ChangeActive(old(view), p)
    {
      var oldActive := active;
      if oldActive == n {
        return;
      }
      if n != null {
        PromoteSlave(n, p);
      }
      PointActiveAt(n, p);
      if params.mode == ActiveBackup {
        SwapFlags(n, p, oldActive, old(view).active);
      }
    }

    /** The active-backup half of a change: flags follow the active slave. */
    method SwapFlags(n: Slave?, ghost p: int, oldActive: Slave?, ghost q: int)
      requires Valid() && LeadsTo(ring, n, p) && LeadsTo(ring, oldActive, q)
      modifies `view, ring`state, ring`inactive
      ensures Valid()
      ensures var v := old(view);
        var s2 := if q == NULL then v.slaves else v.slaves[q := SetInactiveFlags(v.slaves[q])];
        view == v.(slaves := if p == NULL then s2 else s2[p := SetActiveFlags(s2[p])])
    {
      if oldActive != null {
        SetSlaveInactiveFlags(oldActive, q);
      }
      if n != null {
        SetSlaveActiveFlags(n, p);
      }
    }

    method SelectActiveSlave()
      requires Valid()
      modifies `active, `view, ring`delay, ring`link, ring`state, ring`inactive
      ensures Valid() && view == Select(old(view))
    {
      hide BestFrom, ChangeActive;
      var best, p := FindBestSlave();
      if best != active {
        ChangeActiveSlave(best, p);
      } else {
        UnchangedActive(view);
      }
    }
  }

  /** One turn of the search, and its end. */
  lemma BestTurn(s: seq<SlaveView>, start: nat, k: nat, mintime: int, best: int)
    requires start < |s| && k < |s| && NULL <= best < |s|
    ensures var p := Cyclic(start, k, |s|);
      BestFrom(s, start, k, mintime, best) ==
        if s[p].Ready() then p
        else if s[p].Returning() && s[p].delay < mintime then BestFrom(s, start, k + 1, s[p].delay, p)
        else BestFrom(s, start, k + 1, mintime, best)
  {
  }

  lemma BestEnds(s: seq<SlaveView>, start: nat, mintime: int, best: int)
    requires start < |s| && NULL <= best < |s|
    ensures BestFrom(s, start, |s|, mintime, best) == best
  {
  }

  /** What a walk round the ring goes by. */
  lemma RingShape(b: Bonding)
    requires b.Valid()
    ensures b.cnt == |b.ring| == |b.view.slaves| && b.view.params == b.params && Linked(b.ring) && b.view.Valid()
    ensures b.first == if b.ring == [] then null else b.ring[0]
  {
  }

  /** And what the pointers and the slaves on the way show. */
  lemma RingViews(b: Bonding)
    requires b.Valid()
    ensures LeadsTo(b.ring, b.active, b.view.active) && LeadsTo(b.ring, b.primary, b.view.primary)
    ensures Shows(b.ring, b.view.slaves)
  {
  }

  /** The slaves of the ring `r` show the values `s`. */
  ghost predicate Shows(r: seq<Slave>, s: seq<SlaveView>)
    reads r`delay, r`link, r`newLink, r`state, r`failures, r`inactive, r`isUp
  {
    |r| == |s| && forall i :: 0 <= i < |r| ==> s[i] == r[i].View()
  }

  lemma ViewOf(r: seq<Slave>, s: seq<SlaveView>, i: nat)
    requires Shows(r, s) && i < |r|
    ensures |r| == |s| && s[i] == r[i].View()
  {
  }

  lemma NextOf(r: seq<Slave>, i: nat)
    requires Linked(r) && i < |r|
    ensures r[i].next == r[After(i, |r|)]
  {
  }

  lemma UnchangedActive(v: BondView)
    requires v.Valid()
    ensures ChangeActive(v, v.active) == v
  {
  }
}
