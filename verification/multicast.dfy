/** Multicast references between a bond and the devices enslaved to it.  The bond uploads
    its own multicast list to the devices that carry its traffic: the active slave in the
    modes that have one, every slave in the trunk modes.  Allocation is taken to succeed. */
module Multicast {
  import opened Lists
  import opened AddrState
  import opened AddrMirror

  /** `mc` are the multicast lists of all devices, `own` the users each has besides the
      bond; `list` is the bond device's own list and `saved` the copy of it that the bond
      last uploaded.  `active` is a device, or NONE. */
  datatype McView = McView(
    usesPrimary: bool,
    slaves: seq<nat>,
    active: int,
    list: seq<Addr>,
    saved: seq<Addr>,
    mc: map<nat, AddrSeq>,
    own: map<nat, Owners>)

  const NONE := -1

  ghost predicate SameAddresses(s: seq<Addr>, t: seq<Addr>) {
    forall a :: a in s <==> a in t
  }

  /** The devices the bond's list is uploaded to. */
  function Carriers(w: McView): seq<nat> {
    if !w.usesPrimary then w.slaves
    else if w.active >= 0 then [w.active]
    else []
  }

  ghost predicate WellFormed(w: McView) {
    && w.mc.Keys == w.own.Keys
    && NoDuplicates(w.slaves) && NoDuplicates(w.list) && NoDuplicates(w.saved)
    && (forall d :: d in w.slaves ==> d in w.mc)
    && (w.active == NONE || w.active in w.slaves)
  }

  /** Every reference is accounted for: one for each uploaded address on each carrier, none
      on any other device, and otherwise the device's own users. */
  ghost predicate Conserved(w: McView) {
    && WellFormed(w)
    && (forall d :: d in w.mc ==> Accounted(w.mc[d], w.own[d], if d in Carriers(w) then w.saved else []))
  }

  ghost predicate Accounted(l: AddrSeq, o: Owners, up: seq<Addr>) {
    && Sane(l)
    && (forall a :: Users(l, a) == o.Held(a) + if a in up then 1 else 0)
    && (forall a :: Global(l, a) == o.global(a))
  }

  // ------------------------- uploading to one device ---------------------------------

  function AddEach(l: AddrSeq, s: seq<Addr>): AddrSeq
    decreases |s|
  {
    if s == [] then l else Add(AddEach(l, s[..|s| - 1]), s[|s| - 1], false, true).0
  }

  function DeleteEach(l: AddrSeq, s: seq<Addr>): AddrSeq
    decreases |s|
  {
    if s == [] then l else Delete(DeleteEach(l, s[..|s| - 1]), s[|s| - 1], false).0
  }

  lemma {:induction false} AddEachAccounts(l: AddrSeq, o: Owners, up: seq<Addr>, s: seq<Addr>)
    requires Accounted(l, o, up) && NoDuplicates(s) && forall a :: a in s ==> a !in up
    ensures Accounted(AddEach(l, s), o, up + s)
    decreases |s|
  {
    if s == [] {
      assert up + s == up;
    } else {
      var n := |s| - 1;
      AddEachAccounts(l, o, up, s[..n]);
      assert up + s == up + s[..n] + [s[n]];
      assert s[n] !in s[..n];
      hide Add, Accounted;
      OneMoreAccounts(AddEach(l, s[..n]), o, up + s[..n], s[n]);
    }
  }

  lemma OneMoreAccounts(l: AddrSeq, o: Owners, up: seq<Addr>, a: Addr)
    requires Accounted(l, o, up) && a !in up
    ensures Accounted(Add(l, a, false, true).0, o, up + [a])
  {
    hide Add, Users, Global, Synced;
    AddEffect(l, a, false, true);
  }

  lemma {:induction false} DeleteEachAccounts(l: AddrSeq, o: Owners, up: seq<Addr>, s: seq<Addr>, rest: seq<Addr>)
    requires Accounted(l, o, up) && NoDuplicates(s) && forall a :: a in s ==> a in up
    requires forall a :: a in rest <==> a in up && a !in s
    ensures Accounted(DeleteEach(l, s), o, rest)
    decreases |s|
  {
    if s == [] {
    } else {
      var n := |s| - 1;
      assert s == s[..n] + [s[n]] && s[n] !in s[..n];
      DeleteEachAccounts(l, o, up, s[..n], rest + [s[n]]);
      var m := DeleteEach(l, s[..n]);
      PresentIfUsed(m, s[n]);
      hide Delete, Users, Global, Synced;
      DeleteEffect(m, s[n], false);
      GlobalIsHeld(o, s[n]);
    }
  }

  lemma GlobalIsHeld(o: Owners, a: Addr)
    ensures o.global(a) ==> o.Held(a) >= 1
  {
  }

  /** Only the set of uploaded addresses matters. */
  lemma AccountedByAddress(l: AddrSeq, o: Owners, s: seq<Addr>, t: seq<Addr>)
    requires Accounted(l, o, s)
    ensures Accounted(l, o, t) <==> SameAddresses(s, t)
  {
    if Accounted(l, o, t) {
      forall a ensures a in s <==> a in t {
        assert Users(l, a) == o.Held(a) + if a in s then 1 else 0;
        assert Users(l, a) == o.Held(a) + if a in t then 1 else 0;
      }
    }
  }

  /** What a device's list says after a list of addresses has been deleted from it. */
  lemma {:induction false} DeleteEachEffect(l: AddrSeq, s: seq<Addr>)
    requires Sane(l) && NoDuplicates(s)
    ensures var m := DeleteEach(l, s);
      && Sane(m)
      && (forall a :: Users(m, a) == if a in s && Users(l, a) > 0 then Users(l, a) - 1 else Users(l, a))
      && (forall a :: Global(m, a) <==> Global(l, a) && !(a in s && Users(l, a) == 1))
    decreases |s|
  {
    if s != [] {
      var n := |s| - 1;
      assert s == s[..n] + [s[n]] && s[n] !in s[..n];
      DeleteEachEffect(l, s[..n]);
      var m := DeleteEach(l, s[..n]);
      PresentIfUsed(m, s[n]);
      hide Delete, Users, Global, Synced;
      DeleteEffect(m, s[n], false);
    }
  }

  /** Taking `list` off a device takes exactly the references for `saved` off it: every saved
      address is on the list, and no other listed address has users of the device's own. */
  ghost predicate Droppable(o: Owners, saved: seq<Addr>, list: seq<Addr>) {
    && (forall a :: a in saved ==> a in list)
    && (forall a :: a in list && a !in saved ==> o.Held(a) == 0)
  }

  /** The bond's list comes off a carrier. */
  lemma CarrierLeft(l: AddrSeq, o: Owners, saved: seq<Addr>, list: seq<Addr>)
    requires Accounted(l, o, saved) && NoDuplicates(list)
    ensures Accounted(DeleteEach(l, list), o, []) <==> Droppable(o, saved, list)
  {
    var m := DeleteEach(l, list);
    DeleteEachEffect(l, list);
    hide DeleteEach, Users, Global, Sane;
    forall a
      ensures Users(m, a) == o.Held(a) <==> (a in saved ==> a in list) && (a in list && a !in saved ==> o.Held(a) == 0)
      ensures Users(m, a) == o.Held(a) ==> Global(m, a) == o.global(a)
    {
      GlobalIsHeld(o, a);
      assert Users(l, a) == o.Held(a) + if a in saved then 1 else 0;
    }
  }

  /** The bond's list goes onto a device that becomes a carrier. */
  lemma CarrierMade(l: AddrSeq, o: Owners, saved: seq<Addr>, list: seq<Addr>)
    requires Accounted(l, o, []) && NoDuplicates(list)
    ensures Accounted(AddEach(l, list), o, saved) <==> SameAddresses(list, saved)
  {
    AddEachAccounts(l, o, [], list);
    assert [] + list == list;
    AccountedByAddress(AddEach(l, list), o, list, saved);
  }

  // ------------------------------------ failover -------------------------------------

  function AddListTo(mc: map<nat, AddrSeq>, d: int, s: seq<Addr>): map<nat, AddrSeq> {
    if d >= 0 && d in mc then mc[d := AddEach(mc[d], s)] else mc
  }

  function DeleteListFrom(mc: map<nat, AddrSeq>, d: int, s: seq<Addr>): map<nat, AddrSeq> {
    if d >= 0 && d in mc then mc[d := DeleteEach(mc[d], s)] else mc
  }

  /** bond_change_active_slave as far as it concerns multicast: bond_mc_swap. */
  function ChangeActive(w: McView, n: int): McView {
    if n == w.active then w
    else if !w.usesPrimary then w.(active := n)
    else w.(active := n, mc := AddListTo(DeleteListFrom(w.mc, w.active, w.list), n, w.list))
  }

  ghost predicate InSync(w: McView) {
    SameAddresses(w.list, w.saved)
  }

  /** Switching to `n` moves the references right.  Switching to a slave does so exactly if the
      list has not changed behind the bond's back since it was last uploaded; switching to none
      if it can be taken off the old active slave; in the trunk modes nothing is moved. */
  ghost predicate SafeSwitch(w: McView, n: int)
    requires WellFormed(w)
  {
    || n == w.active || !w.usesPrimary
    || if n >= 0 then InSync(w) else w.active >= 0 ==> Droppable(w.own[w.active], w.saved, w.list)
  }

  lemma InSyncIsDroppable(w: McView, o: Owners)
    requires InSync(w)
    ensures Droppable(o, w.saved, w.list)
  {
  }

  lemma FailoverConservesIff(w: McView, n: int)
    requires Conserved(w) && (n == NONE || n in w.slaves)
    ensures Conserved(ChangeActive(w, n)) <==> SafeSwitch(w, n)
  {
    hide Accounted, SameAddresses, Droppable;
    if n != w.active && w.usesPrimary {
      var x := ChangeActive(w, n);
      if n >= 0 {
        CarrierMade(w.mc[n], w.own[n], w.saved, w.list);
        assert x.mc[n] == AddEach(w.mc[n], w.list) && n in Carriers(x);
      }
      if w.active >= 0 {
        CarrierLeft(w.mc[w.active], w.own[w.active], w.saved, w.list);
        assert x.mc[w.active] == DeleteEach(w.mc[w.active], w.list) && w.active !in Carriers(x);
      }
      if InSync(w) && w.active >= 0 {
        InSyncIsDroppable(w, w.own[w.active]);
      }
      if SafeSwitch(w, n) {
        forall d | d in x.mc ensures Accounted(x.mc[d], x.own[d], if d in Carriers(x) then x.saved else []) {
          if d != w.active && d != n {
            assert x.mc[d] == w.mc[d];
          }
        }
      }
    }
  }

  // ------------------------------ enslave and release --------------------------------

  /** Device `d` joins; whatever the mode then chooses, `n` is the active slave. */
  function Enslave(w: McView, d: nat, n: int): McView {
    var u := w.(slaves := w.slaves + [d], mc := if w.usesPrimary then w.mc else AddListTo(w.mc, d, w.list));
    ChangeActive(u, n)
  }

  /** The slave at position `k` leaves; if it was active, `n` takes over. */
  function Release(w: McView, k: nat, n: int): McView
    requires k < |w.slaves|
  {
    var d := w.slaves[k];
    var u := if w.active == d then ChangeActive(w, NONE) else w;
    var x := u.(slaves := Without(w.slaves, k), mc := if w.usesPrimary then u.mc else DeleteListFrom(u.mc, d, w.list));
    if w.active == d then ChangeActive(x, n) else x
  }

  /** A join is safe in a trunk mode exactly if the list is in step; otherwise if the switch is. */
  ghost predicate SafeJoin(w: McView, n: int)
    requires WellFormed(w)
  {
    if w.usesPrimary then SafeSwitch(w, n) else InSync(w)
  }

  /** A leave is safe in a trunk mode exactly if the list can be taken off the slave; in a primary
      mode a slave that is not active leaves safely, and one that is like a switch. */
  ghost predicate SafeLeave(w: McView, k: nat, n: int)
    requires WellFormed(w) && k < |w.slaves|
  {
    var d := w.slaves[k];
    if !w.usesPrimary then Droppable(w.own[d], w.saved, w.list)
    else w.active == d ==> if n >= 0 then InSync(w) else Droppable(w.own[d], w.saved, w.list)
  }

  lemma EnslaveConservesIff(w: McView, d: nat, n: int)
    requires Conserved(w) && d in w.mc && d !in w.slaves && (n == NONE || n in w.slaves + [d])
    ensures Conserved(Enslave(w, d, n)) <==> SafeJoin(w, n)
  {
    hide Accounted, SameAddresses, Droppable;
    var u := w.(slaves := w.slaves + [d], mc := if w.usesPrimary then w.mc else AddListTo(w.mc, d, w.list));
    assert WellFormed(u);
    if w.usesPrimary {
      assert Conserved(u);
      FailoverConservesIff(u, n);
    } else {
      CarrierMade(w.mc[d], w.own[d], w.saved, w.list);
      assert u.mc[d] == AddEach(w.mc[d], w.list) && d in u.slaves;
      forall e | e in u.mc && e != d ensures Accounted(u.mc[e], u.own[e], if e in u.slaves then u.saved else []) {
        assert u.mc[e] == w.mc[e] && (e in u.slaves <==> e in w.slaves);
      }
      TrunkSwitch(u, n);
    }
  }

  /** In the trunk modes the active slave does not matter. */
  lemma TrunkSwitch(u: McView, n: int)
    requires !u.usesPrimary && WellFormed(u) && (n == NONE || n in u.slaves)
    ensures Conserved(ChangeActive(u, n)) <==> Conserved(u)
  {
    hide Accounted;
    assert Carriers(ChangeActive(u, n)) == Carriers(u);
  }

  lemma ReleaseConservesIff(w: McView, k: nat, n: int)
    requires Conserved(w) && k < |w.slaves| && (n == NONE || n in Without(w.slaves, k))
    ensures Conserved(Release(w, k, n)) <==> SafeLeave(w, k, n)
  {
    hide Accounted, SameAddresses, Droppable;
    LeaverIsGone(w.slaves, k);
    if !w.usesPrimary {
      TrunkLeave(w, k, n);
    } else if w.active != w.slaves[k] {
      assert Carriers(Release(w, k, n)) == Carriers(w);
    } else {
      ActiveLeave(w, k, n);
    }
  }

  lemma TrunkLeave(w: McView, k: nat, n: int)
    requires Conserved(w) && !w.usesPrimary && k < |w.slaves| && (n == NONE || n in Without(w.slaves, k))
    ensures Conserved(Release(w, k, n)) <==> Droppable(w.own[w.slaves[k]], w.saved, w.list)
  {
    hide Accounted, SameAddresses, Droppable;
    var d := w.slaves[k];
    LeaverIsGone(w.slaves, k);
    var x := Release(w, k, n);
    assert x.mc == DeleteListFrom(w.mc, d, w.list) && x.slaves == Without(w.slaves, k);
    CarrierLeft(w.mc[d], w.own[d], w.saved, w.list);
    assert x.mc[d] == DeleteEach(w.mc[d], w.list) && d !in Carriers(x);
    forall e | e in x.mc && e != d ensures Accounted(x.mc[e], x.own[e], if e in Carriers(x) then x.saved else []) {
      assert x.mc[e] == w.mc[e] && (e in x.slaves <==> e in w.slaves);
    }
  }

  lemma ActiveLeave(w: McView, k: nat, n: int)
    requires Conserved(w) && w.usesPrimary && k < |w.slaves| && w.active == w.slaves[k]
    requires n == NONE || n in Without(w.slaves, k)
    ensures Conserved(Release(w, k, n)) <==> if n >= 0 then InSync(w) else Droppable(w.own[w.active], w.saved, w.list)
  {
    hide Accounted, SameAddresses, Droppable;
    var d := w.active;
    LeaverIsGone(w.slaves, k);
    var u := ChangeActive(w, NONE);
    FailoverConservesIff(w, NONE);
    var x := u.(slaves := Without(w.slaves, k));
    assert WellFormed(x) && (Conserved(x) <==> Conserved(u));
    assert Release(w, k, n) == ChangeActive(x, n);
    if n >= 0 {
      if InSync(w) {
        InSyncIsDroppable(w, w.own[d]);
        FailoverConservesIff(x, n);
      } else {
        var y := ChangeActive(x, n);
        CarrierMade(w.mc[n], w.own[n], w.saved, w.list);
        assert y.mc[n] == AddEach(w.mc[n], w.list) && n in Carriers(y);
      }
    }
  }

  lemma LeaverIsGone(s: seq<nat>, k: nat)
    requires k < |s| && NoDuplicates(s)
    ensures NoDuplicates(Without(s, k))
    ensures forall d :: d in Without(s, k) <==> d in s && d != s[k]
  {
    var r := Without(s, k);
    forall d ensures d in r <==> d in s && d != s[k] {
      if d in s && d != s[k] {
        var i :| 0 <= i < |s| && s[i] == d;
        assert r[if i < k then i else i - 1] == d;
      }
      if d in r {
        var i :| 0 <= i < |r| && r[i] == d;
        assert s[if i < k then i else i + 1] == d;
      }
    }
  }

  // -------------------------------- list changes -------------------------------------

  /** The entries of `s` that are not in `t`, in order. */
  function Minus(s: seq<Addr>, t: seq<Addr>): (r: seq<Addr>) {
    if s == [] then [] else
      Minus(s[..|s| - 1], t) + if s[|s| - 1] in t then [] else [s[|s| - 1]]
  }

  lemma {:induction false} MinusHolds(s: seq<Addr>, t: seq<Addr>)
    requires NoDuplicates(s)
    ensures NoDuplicates(Minus(s, t))
    ensures forall a :: a in Minus(s, t) <==> a in s && a !in t
  {
    if s != [] {
      var n := |s| - 1;
      MinusHolds(s[..n], t);
      assert s == s[..n] + [s[n]] && s[n] !in s[..n];
    }
  }

  function Reversed(s: seq<Addr>): (r: seq<Addr>) {
    if s == [] then [] else [s[|s| - 1]] + Reversed(s[..|s| - 1])
  }

  lemma {:induction false} ReversedHolds(s: seq<Addr>)
    requires NoDuplicates(s)
    ensures NoDuplicates(Reversed(s)) && SameAddresses(s, Reversed(s))
  {
    if s != [] {
      var n := |s| - 1;
      ReversedHolds(s[..n]);
      assert s == s[..n] + [s[n]] && s[n] !in s[..n];
    }
  }

  lemma {:induction false} ReversedAt(s: seq<Addr>, k: nat)
    requires k < |s|
    ensures |Reversed(s)| == |s| && Reversed(s)[k] == s[|s| - 1 - k]
  {
    if |s| > 1 {
      ReversedAt(s[..|s| - 1], if k > 0 then k - 1 else 0);
    }
  }

  /** One device's list after an upload. */
  function Uploaded(l: AddrSeq, saved: seq<Addr>, list: seq<Addr>): AddrSeq {
    DeleteEach(AddEach(l, Minus(list, saved)), Minus(saved, list))
  }

  /** The bond device's list becomes `list`.  Only while the device is up does the core
      tell the driver, bond_set_multicast_list, which uploads the difference. */
  function ChangeList(w: McView, list: seq<Addr>, up: bool): McView {
    if !up then w.(list := list)
    else
      w.(list := list, saved := Reversed(list),
         mc := map d | d in w.mc :: if d in Carriers(w) then Uploaded(w.mc[d], w.saved, list) else w.mc[d])
  }

  lemma UploadedAccounts(l: AddrSeq, o: Owners, saved: seq<Addr>, list: seq<Addr>)
    requires Accounted(l, o, saved) && NoDuplicates(saved) && NoDuplicates(list)
    ensures Accounted(Uploaded(l, saved, list), o, Reversed(list))
  {
    var plus, minus := Minus(list, saved), Minus(saved, list);
    MinusHolds(list, saved);
    MinusHolds(saved, list);
    AddEachAccounts(l, o, saved, plus);
    DeleteEachAccounts(AddEach(l, plus), o, saved + plus, minus, list);
    ReversedHolds(list);
    AccountedByAddress(Uploaded(l, saved, list), o, list, Reversed(list));
  }

  lemma ChangeListAccounts(w: McView, list: seq<Addr>, d: nat)
    requires Conserved(w) && NoDuplicates(list) && d in w.mc
    ensures var x := ChangeList(w, list, true);
      d in x.mc && Accounted(x.mc[d], w.own[d], if d in Carriers(x) then x.saved else [])
  {
    hide Accounted, Uploaded;
    if d in Carriers(w) {
      UploadedAccounts(w.mc[d], w.own[d], w.saved, list);
    }
  }

  /** References are conserved by every list change; and while the device is up, also from
      a list that had changed unseen, the copy is in step again afterwards. */
  lemma ChangeListConserves(w: McView, list: seq<Addr>, up: bool)
    requires Conserved(w) && NoDuplicates(list)
    ensures var x := ChangeList(w, list, up);
      Conserved(x) && (InSync(x) <==> up || SameAddresses(list, w.saved))
  {
    hide Accounted, SameAddresses, Uploaded;
    ReversedHolds(list);
    if up {
      forall d | d in w.mc { ChangeListAccounts(w, list, d); }
    }
  }

  // ----------------------------------- whole runs ------------------------------------

  datatype Event =
    | Failover(n: int)
    | Join(d: nat, n: int)
    | Leave(k: nat, n: int)
    | NewList(list: seq<Addr>, up: bool)
    | OthersAdd(d: nat, a: Addr, glbl: bool)
    | OthersDelete(d: nat, a: Addr, glbl: bool)
  {
    ghost predicate Possible(w: McView) {
      match this
      case Failover(n) => n == NONE || n in w.slaves
      case Join(d, n) => d in w.mc && d !in w.slaves && (n == NONE || n in w.slaves + [d])
      case Leave(k, n) => k < |w.slaves| && (n == NONE || n in Without(w.slaves, k))
      case NewList(list, _) => NoDuplicates(list)
      case OthersAdd(d, _, _) => d in w.mc && d in w.own
      case OthersDelete(d, a, glbl) => d in w.mc && d in w.own && w.own[d].Has(a, glbl)
    }

    /** References move right: always, while the saved copy is in step with the list. */
    ghost predicate Safe(w: McView)
      requires WellFormed(w) && Possible(w)
    {
      match this
      case Failover(n) => SafeSwitch(w, n)
      case Join(_, n) => SafeJoin(w, n)
      case Leave(k, n) => SafeLeave(w, k, n)
      case _ => true
    }
  }

  ghost function Step(w: McView, e: Event): McView
    requires e.Possible(w)
  {
    match e
    case Failover(n) => ChangeActive(w, n)
    case Join(d, n) => Enslave(w, d, n)
    case Leave(k, n) => Release(w, k, n)
    case NewList(list, up) => ChangeList(w, list, up)
    case OthersAdd(d, a, glbl) =>
      w.(mc := w.mc[d := Add(w.mc[d], a, glbl, true).0], own := w.own[d := w.own[d].Gain(a, glbl)])
    case OthersDelete(d, a, glbl) =>
      w.(mc := w.mc[d := Delete(w.mc[d], a, glbl).0], own := w.own[d := w.own[d].Lose(a, glbl)])
  }

  lemma OthersAccounted(l: AddrSeq, o: Owners, up: seq<Addr>, a: Addr, glbl: bool)
    requires Accounted(l, o, up)
    ensures Accounted(Add(l, a, glbl, true).0, o.Gain(a, glbl), up)
    ensures o.Has(a, glbl) ==> Accounted(Delete(l, a, glbl).0, o.Lose(a, glbl), up)
  {
    AddEffect(l, a, glbl, true);
    if o.Has(a, glbl) {
      OthersDeleteAccounted(l, o, up, a, glbl);
    }
    hide Add, Delete, Users, Global, Synced;
  }

  lemma OthersDeleteAccounted(l: AddrSeq, o: Owners, up: seq<Addr>, a: Addr, glbl: bool)
    requires Accounted(l, o, up) && o.Has(a, glbl)
    ensures Accounted(Delete(l, a, glbl).0, o.Lose(a, glbl), up)
  {
    PresentIfUsed(l, a);
    hide Delete, Users, Global, Synced;
    DeleteEffect(l, a, glbl);
  }

  lemma OthersConserve(w: McView, e: Event)
    requires Conserved(w) && e.Possible(w) && (e.OthersAdd? || e.OthersDelete?)
    ensures Conserved(Step(w, e))
  {
    hide Add, Delete, Accounted;
    OthersAccounted(w.mc[e.d], w.own[e.d], if e.d in Carriers(w) then w.saved else [], e.a, e.glbl);
  }

  /** Whatever becomes of the references, the operations do to slaves and active slave what they are
      for, and to nothing else. */
  lemma StepTells(w: McView, e: Event)
    requires WellFormed(w) && e.Possible(w)
    ensures var x := Step(w, e);
      && x.usesPrimary == w.usesPrimary && (e.NewList? || (x.list == w.list && x.saved == w.saved))
      && match e
         case Failover(n) => x.active == n && x.slaves == w.slaves
         case Join(d, n) => x.active == n && x.slaves == w.slaves + [d]
         case Leave(k, n) =>
           x.active == (if w.active == w.slaves[k] then n else w.active) && x.slaves == Without(w.slaves, k)
         case NewList(list, _) => x.list == list && x.active == w.active && x.slaves == w.slaves
         case _ => x.active == w.active && x.slaves == w.slaves
  {
    hide AddEach, DeleteEach, Uploaded, Reversed, Minus, Add, Delete;
  }

  lemma StepConservesIff(w: McView, e: Event)
    requires Conserved(w) && e.Possible(w)
    ensures Conserved(Step(w, e)) <==> e.Safe(w)
  {
    hide ChangeActive, Enslave, Release, ChangeList, Accounted, SafeSwitch, SafeJoin, SafeLeave;
    match e {
      case Failover(n) => FailoverConservesIff(w, n);
      case Join(d, n) => EnslaveConservesIff(w, d, n);
      case Leave(k, n) => ReleaseConservesIff(w, k, n);
      case NewList(list, up) => ChangeListConserves(w, list, up);
      case _ => OthersConserve(w, e);
    }
  }

  /** In step, everything is safe. */
  lemma InSyncIsSafe(w: McView, e: Event)
    requires WellFormed(w) && InSync(w) && e.Possible(w)
    ensures e.Safe(w)
  {
  }

  ghost predicate Plays(w: McView, es: seq<Event>)
    decreases |es|
  {
    es != [] ==> es[0].Possible(w) && Plays(Step(w, es[0]), es[1..])
  }

  ghost function Run(w: McView, es: seq<Event>): McView
    requires Plays(w, es)
    decreases |es|
  {
    if es == [] then w else Run(Step(w, es[0]), es[1..])
  }

  /** Conserved before the run, after it and everywhere in between. */
  ghost predicate ConservedThroughout(w: McView, es: seq<Event>)
    requires Plays(w, es)
    decreases |es|
  {
    Conserved(w) && (es != [] ==> ConservedThroughout(Step(w, es[0]), es[1..]))
  }

  ghost predicate SafeThroughout(w: McView, es: seq<Event>)
    requires Plays(w, es)
    decreases |es|
  {
    es != [] ==> WellFormed(w) && es[0].Safe(w) && SafeThroughout(Step(w, es[0]), es[1..])
  }

  /** Conservation over every run: the active slave (or, in the trunk modes, every slave) holds one
      reference per uploaded address for the bond, and no other device any, throughout exactly if
      every event is safe when it comes. */
  lemma {:induction false} RunConservesIff(w: McView, es: seq<Event>)
    requires Conserved(w) && Plays(w, es)
    ensures ConservedThroughout(w, es) <==> SafeThroughout(w, es)
    ensures SafeThroughout(w, es) ==> Conserved(Run(w, es))
    decreases |es|
  {
    hide Step, WellFormed, Accounted, SameAddresses;
    if es != [] {
      StepConservesIff(w, es[0]);
      if es[0].Safe(w) {
        RunConservesIff(Step(w, es[0]), es[1..]);
      } else {
        NotThroughout(Step(w, es[0]), es[1..]);
      }
    }
  }

  lemma NotThroughout(w: McView, es: seq<Event>)
    requires Plays(w, es) && !Conserved(w)
    ensures !ConservedThroughout(w, es)
  {
  }
}
