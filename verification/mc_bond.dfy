/** The driver's multicast loops, proved to be the transitions of module Multicast. */
module McBond {
  import opened Lists
  import opened AddrState
  import opened AddrMirror
  import opened Multicast

  /** `s` added to, or deleted from, the list of every device in `on`. */
  function AddOn(mc: map<nat, AddrSeq>, on: seq<nat>, s: seq<Addr>): (r: map<nat, AddrSeq>)
    ensures r.Keys == mc.Keys
    ensures forall d :: d in mc && d !in on ==> r[d] == mc[d]
  {
    map d | d in mc :: if d in on then AddEach(mc[d], s) else mc[d]
  }

  function DeleteOn(mc: map<nat, AddrSeq>, on: seq<nat>, s: seq<Addr>): (r: map<nat, AddrSeq>)
    ensures r.Keys == mc.Keys
    ensures forall d :: d in mc && d !in on ==> r[d] == mc[d]
  {
    map d | d in mc :: if d in on then DeleteEach(mc[d], s) else mc[d]
  }

  lemma OnSnoc(mc: map<nat, AddrSeq>, on: seq<nat>, s: seq<Addr>, a: Addr)
    ensures AddOn(mc, on, s + [a]) == AddOn(AddOn(mc, on, s), on, [a])
    ensures DeleteOn(mc, on, s + [a]) == DeleteOn(DeleteOn(mc, on, s), on, [a])
  {
    forall l: AddrSeq
      ensures AddEach(l, s + [a]) == AddEach(AddEach(l, s), [a])
      ensures DeleteEach(l, s + [a]) == DeleteEach(DeleteEach(l, s), [a])
    {
      assert (s + [a])[..|s|] == s;
    }
    hide AddEach, DeleteEach;
  }

  lemma OnNothing(mc: map<nat, AddrSeq>, on: seq<nat>)
    ensures AddOn(mc, on, []) == mc && DeleteOn(mc, on, []) == mc
  {
  }

  /** One more device. */
  lemma OneMore(mc: map<nat, AddrSeq>, on: seq<nat>, d: nat, a: Addr)
    requires d in mc && d !in on
    ensures AddOn(mc, on, [a])[d := Add(mc[d], a, false, true).0] == AddOn(mc, on + [d], [a])
    ensures DeleteOn(mc, on, [a])[d := Delete(mc[d], a, false).0] == DeleteOn(mc, on + [d], [a])
  {
    assert AddEach(mc[d], [a]) == Add(mc[d], a, false, true).0 && DeleteEach(mc[d], [a]) == Delete(mc[d], a, false).0;
  }

  lemma PrefixSnoc(s: seq<nat>, i: nat)
    requires NoDuplicates(s) && i < |s|
    ensures s[..i + 1] == s[..i] + [s[i]] && s[i] !in s[..i]
  {
  }

  lemma NoDevice(mc: map<nat, AddrSeq>, a: Addr)
    ensures AddOn(mc, [], [a]) == mc && DeleteOn(mc, [], [a]) == mc
  {
  }

  class Bond {
    const usesPrimary: bool
    var slaves: seq<nat>
    var active: int
    var list: seq<Addr>       // bond->dev->mc_list
    var saved: seq<Addr>      // bond->mc_list
    var mc: map<nat, AddrSeq> // the devices' lists
    ghost var own: map<nat, Owners>

    ghost function View(): McView
      reads this
    {
      McView(usesPrimary, slaves, active, list, saved, mc, own)
    }

    ghost predicate Valid()
      reads this
    {
      && NoDuplicates(slaves)
      && (forall d :: d in slaves ==> d in mc)
      && (active == NONE || active in slaves)
    }

    constructor (usesPrimary: bool, devices: map<nat, AddrSeq>, ghost own: map<nat, Owners>)
      ensures View() == McView(usesPrimary, [], NONE, [], [], devices, own) && Valid()
    {
      this.usesPrimary := usesPrimary;
      slaves, active, list, saved, mc := [], NONE, [], [], devices;
      this.own := own;
    }

    /** dev_mc_add of a whole list to one device. */
    method Upload(d: nat, s: seq<Addr>)
      requires d in mc
      modifies `mc
      ensures mc == old(mc)[d := AddEach(old(mc)[d], s)]
    {
      var i := 0;
      while i < |s|
        invariant 0 <= i <= |s|
        invariant d in mc && mc == old(mc)[d := AddEach(old(mc)[d], s[..i])]
      {
        assert s[..i + 1][..i] == s[..i];
        mc := mc[d := Add(mc[d], s[i], false, true).0];
        i := i + 1;
      }
      assert s[..|s|] == s;
    }

    /** dev_mc_delete of a whole list from one device. */
    method Flush(d: nat, s: seq<Addr>)
      requires d in mc
      modifies `mc
      ensures mc == old(mc)[d := DeleteEach(old(mc)[d], s)]
    {
      var i := 0;
      while i < |s|
        invariant 0 <= i <= |s|
        invariant d in mc && mc == old(mc)[d := DeleteEach(old(mc)[d], s[..i])]
      {
        assert s[..i + 1][..i] == s[..i];
        mc := mc[d := Delete(mc[d], s[i], false).0];
        i := i + 1;
      }
      assert s[..|s|] == s;
    }

    /** bond_change_active_slave, with bond_mc_swap. */
    method ChangeActiveSlave(n: int)
      requires Valid() && (n == NONE || n in slaves)
      modifies `mc, `active
      ensures Valid() && View() == ChangeActive(old(View()), n)
    {
      var oldActive := active;
      if oldActive == n {
        return;
      }
      if usesPrimary {
        if oldActive >= 0 {
          Flush(oldActive, list);
        }
        if n >= 0 {
          Upload(n, list);
        }
      }
      active := n;
    }

    method EnslaveDevice(d: nat, n: int)
      requires Valid() && d in mc && d !in slaves && (n == NONE || n in slaves + [d])
      modifies this
      ensures Valid() && View() == Enslave(old(View()), d, n)
    {
      if !usesPrimary {
        Upload(d, list);
      }
      slaves := slaves + [d];
      ChangeActiveSlave(n);
    }

    method ReleaseDevice(k: nat, n: int)
      requires Valid() && k < |slaves| && (n == NONE || n in Without(slaves, k))
      modifies this
      ensures Valid() && View() == Release(old(View()), k, n)
    {
      var d := slaves[k];
      var oldcurrent := active;
      if oldcurrent == d {
        ChangeActiveSlave(NONE);
      }
      LeaverIsGone(slaves, k);
      slaves := Without(slaves, k);
      if !usesPrimary {
        Flush(d, list);
      }
      if oldcurrent == d {
        ChangeActiveSlave(n);
      }
    }

    // --------------------------- bond_set_multicast_list ------------------------------

    /** bond_mc_add: the address goes to every carrier. */
    method McAdd(a: Addr)
      requires Valid()
      modifies `mc
      ensures mc == AddOn(old(mc), Carriers(View()), [a])
    {
      hide Add, AddOn, Delete, DeleteOn;
      NoDevice(mc, a);
      if usesPrimary {
        if active >= 0 {
          OneMore(mc, [], active, a);
          assert [] + [active as nat] == Carriers(View());
          mc := mc[active := Add(mc[active], a, false, true).0];
        }
      } else {
        ghost var before := mc;
        var i := 0;
        while i < |slaves|
          invariant 0 <= i <= |slaves|
          invariant mc == AddOn(before, slaves[..i], [a])
        {
          PrefixSnoc(slaves, i);
          OneMore(before, slaves[..i], slaves[i], a);
          mc := mc[slaves[i] := Add(mc[slaves[i]], a, false, true).0];
          i := i + 1;
        }
        assert slaves[..|slaves|] == slaves;
      }
    }

    /** bond_mc_delete: the address goes from every carrier. */
    method McDelete(a: Addr)
      requires Valid()
      modifies `mc
      ensures mc == DeleteOn(old(mc), Carriers(View()), [a])
    {
      hide Add, AddOn, Delete, DeleteOn;
      NoDevice(mc, a);
      if usesPrimary {
        if active >= 0 {
          OneMore(mc, [], active, a);
          assert [] + [active as nat] == Carriers(View());
          mc := mc[active := Delete(mc[active], a, false).0];
        }
      } else {
        ghost var before := mc;
        var i := 0;
        while i < |slaves|
          invariant 0 <= i <= |slaves|
          invariant mc == DeleteOn(before, slaves[..i], [a])
        {
          PrefixSnoc(slaves, i);
          OneMore(before, slaves[..i], slaves[i], a);
          mc := mc[slaves[i] := Delete(mc[slaves[i]], a, false).0];
          i := i + 1;
        }
        assert slaves[..|slaves|] == slaves;
      }
    }

    /** bond_mc_list_copy, which reverses. */
    method McListCopy()
      modifies `saved
      ensures saved == Reversed(list)
    {
      saved := [];
      var i := 0;
      while i < |list|
        invariant 0 <= i <= |list| && saved == Reversed(list[..i])
      {
        assert list[..i + 1][..i] == list[..i];
        saved := [list[i]] + saved;
        i := i + 1;
      }
      assert list[..|list|] == list;
    }

    method AddNew()
      requires Valid()
      modifies `mc
      ensures mc == AddOn(old(mc), Carriers(View()), Minus(list, saved))
    {
      hide AddOn, DeleteOn;
      ghost var on := Carriers(View());
      OnNothing(mc, on);
      var i := 0;
      while i < |list|
        invariant 0 <= i <= |list| && on == Carriers(View())
        invariant mc == AddOn(old(mc), on, Minus(list[..i], saved))
      {
        assert list[..i + 1][..i] == list[..i];
        assert Minus(list[..i + 1], saved) == Minus(list[..i], saved) + if list[i] in saved then [] else [list[i]];
        assert Minus(list[..i], saved) + [] == Minus(list[..i], saved);
        if list[i] !in saved {
          OnSnoc(old(mc), on, Minus(list[..i], saved), list[i]);
          McAdd(list[i]);
        }
        i := i + 1;
      }
      assert list[..|list|] == list;
    }

    method DeleteGone()
      requires Valid()
      modifies `mc
      ensures mc == DeleteOn(old(mc), Carriers(View()), Minus(saved, list))
    {
      hide AddOn, DeleteOn;
      ghost var on := Carriers(View());
      OnNothing(mc, on);
      var i := 0;
      while i < |saved|
        invariant 0 <= i <= |saved| && on == Carriers(View())
        invariant mc == DeleteOn(old(mc), on, Minus(saved[..i], list))
      {
        assert saved[..i + 1][..i] == saved[..i];
        assert Minus(saved[..i + 1], list) == Minus(saved[..i], list) + if saved[i] in list then [] else [saved[i]];
        assert Minus(saved[..i], list) + [] == Minus(saved[..i], list);
        if saved[i] !in list {
          OnSnoc(old(mc), on, Minus(saved[..i], list), saved[i]);
          McDelete(saved[i]);
        }
        i := i + 1;
      }
      assert saved[..|saved|] == saved;
    }

    /** The list of the bond device changes; the driver hears of it if the device is up. */
    method SetMulticastList(newList: seq<Addr>, up: bool)
      requires Valid()
      modifies `mc, `list, `saved
      ensures Valid() && View() == ChangeList(old(View()), newList, up)
    {
      hide AddOn, DeleteOn, Minus, Uploaded, Reversed;
      UploadOn(View(), newList);
      list := newList;
      if up {
        AddNew();
        DeleteGone();
        McListCopy();
      }
    }
  }

  lemma UploadOn(w: McView, list: seq<Addr>)
    ensures DeleteOn(AddOn(w.mc, Carriers(w), Minus(list, w.saved)), Carriers(w), Minus(w.saved, list)) ==
            ChangeList(w, list, true).mc
  {
    hide AddEach, DeleteEach, Minus;
  }
}
