/** Walking the ring, and the MTU change that walks it. */
module BondMtu {
  import opened Errno
  import opened BondState
  import opened BondRing

  /** bond_for_each_slave_from: from any start, every slave once, in ring order. */
  method SlavesFrom(b: Bonding, start: Slave, ghost p: nat) returns (visited: seq<Slave>)
    requires b.Valid() && p < |b.ring| && start == b.ring[p]
    ensures visited == b.ring[p..] + b.ring[..p]
    ensures forall s :: s in b.ring ==> multiset(visited)[s] == 1
  {
    visited := [];
    ghost var turned := b.ring[p..] + b.ring[..p];
    var pos, i := start, 0;
    while i < b.cnt
      invariant 0 <= i <= |b.ring|
      invariant pos == b.ring[if i < |b.ring| then Cyclic(p, i, |b.ring|) else p]
      invariant visited == turned[..i]
    {
      assert turned[i] == b.ring[Cyclic(p, i, |b.ring|)];
      visited := visited + [pos];
      pos := pos.next;
      i := i + 1;
    }
    assert visited == turned;
    forall s | s in b.ring ensures multiset(visited)[s] == 1 {
      OccursOnceTurned(b.ring, p, s);
    }
  }

  lemma OccursOnceTurned<T>(r: seq<T>, p: nat, s: T)
    requires p <= |r| && s in r && forall i, j :: 0 <= i < j < |r| ==> r[i] != r[j]
    ensures multiset(r[p..] + r[..p])[s] == 1
  {
    assert r == r[..p] + r[p..];
    OccursOnce(r, s);
  }

  lemma {:induction false} OccursOnce<T>(r: seq<T>, s: T)
    requires s in r && forall i, j :: 0 <= i < j < |r| ==> r[i] != r[j]
    ensures multiset(r)[s] == 1
  {
    var rest := r[..|r| - 1];
    assert r == rest + [r[|r| - 1]];
    if s == r[|r| - 1] {
      assert s !in rest;
      assert multiset(rest)[s] == 0;
    } else {
      OccursOnce(rest, s);
    }
  }

  /** dev_set_mtu's answer; `driver` is what the device's own method would answer. */
  function SetMtuResult(mtu: int, newMtu: int, driver: int): int {
    if newMtu == mtu then 0 else if newMtu < 0 then -EINVAL else driver
  }

  method DevSetMtu(s: Slave, newMtu: int, driver: int) returns (err: int)
    modifies s`mtu
    ensures err == SetMtuResult(old(s.mtu), newMtu, driver)
    ensures newMtu == old(s.mtu) ==> err == 0
    ensures newMtu != old(s.mtu) ==> err == if newMtu < 0 then -EINVAL else driver
    ensures s.mtu == if err == 0 then newMtu else old(s.mtu)
  {
    if newMtu == s.mtu {
      return 0;
    }
    if newMtu < 0 {
      return -EINVAL;
    }
    err := driver;
    if err == 0 {
      s.mtu := newMtu;
    }
  }

  /** bond_change_mtu.  `drivers` and `undos` are the drivers' answers to the change and to
      its undoing; `failed` is the position of the slave that refused. */
  method ChangeMtu(b: Bonding, newMtu: int, drivers: seq<int>, undos: seq<int>) returns (res: int, ghost failed: int)
    requires b.Valid() && |drivers| == |undos| == |b.ring|
    modifies b`mtu, b.ring`mtu
    ensures b.Valid() && b.view == old(b.view)
    ensures res == 0 ==>
      failed == NULL && b.mtu == newMtu && forall i :: 0 <= i < |b.ring| ==> b.ring[i].mtu == newMtu
    ensures res != 0 ==>
      && b.mtu == old(b.mtu)
      && 0 <= failed < |b.ring|
      && res == SetMtuResult(old(b.ring[failed].mtu), newMtu, drivers[failed])
      && (forall i :: 0 <= i < failed ==> SetMtuResult(old(b.ring[i].mtu), newMtu, drivers[i]) == 0)
      && (forall i :: failed < i < |b.ring| ==> b.ring[i].mtu == old(b.ring[i].mtu))
    // when the tail refuses, nothing is undone
    ensures res != 0 && failed == |b.ring| - 1 ==>
      && (forall i :: 0 <= i < failed ==> b.ring[i].mtu == newMtu)
      && b.ring[failed].mtu == old(b.ring[failed].mtu)
    ensures res != 0 && failed < |b.ring| - 1 ==>
      && (forall i :: 0 <= i < failed ==>
            b.ring[i].mtu == if SetMtuResult(newMtu, b.mtu, undos[i]) == 0 then b.mtu else newMtu)
      && (b.ring[failed].mtu == b.mtu || b.ring[failed].mtu == old(b.ring[failed].mtu))
    // so, if all slaves had the bond's MTU and undoing succeeds, the change is undone
    // exactly when the slave that refused is not the tail, or is the only slave
    ensures
      (&& res != 0
       && (forall i :: 0 <= i < |b.ring| ==> old(b.ring[i].mtu) == old(b.mtu))
       && (forall i :: 0 <= i < |b.ring| ==> SetMtuResult(newMtu, b.mtu, undos[i]) == 0))
      ==>
      ((forall i :: 0 <= i < |b.ring| ==> b.ring[i].mtu == old(b.ring[i].mtu))
       <==> failed < |b.ring| - 1 || |b.ring| == 1)
  {
    hide Bonding.RingValid, Bonding.Shown;
    var stopAt;
    res, stopAt, failed := SetEach(b, newMtu, drivers);
    if res != 0 {
      Unwind(b, stopAt, failed, undos);
      ghost var n := |b.ring|;
      if forall j :: 0 <= j < n ==> old(b.ring[j].mtu) == old(b.mtu) {
        assert newMtu != old(b.mtu);
        assert failed == n - 1 && n > 1 ==> b.ring[0].mtu == newMtu;
      }
      return;
    }
    b.mtu := newMtu;
  }

  /** The walk that changes the slaves' MTU, up to the first that refuses. */
  method SetEach(b: Bonding, newMtu: int, drivers: seq<int>) returns (res: int, stopAt: Slave?, ghost failed: int)
    requires b.Valid() && |drivers| == |b.ring|
    modifies b.ring`mtu
    ensures b.Valid()
    ensures res == 0 ==> failed == NULL && forall i :: 0 <= i < |b.ring| ==> b.ring[i].mtu == newMtu
    ensures res != 0 ==> 0 <= failed < |b.ring| && stopAt == b.ring[failed]
    ensures res != 0 ==>
      && res == SetMtuResult(old(b.ring[failed].mtu), newMtu, drivers[failed])
      && (forall i :: 0 <= i < failed ==> SetMtuResult(old(b.ring[i].mtu), newMtu, drivers[i]) == 0)
      && (forall i :: 0 <= i < |b.ring| ==> b.ring[i].mtu == if i < failed then newMtu else old(b.ring[i].mtu))
  {
    hide Linked, Bonding.Shown;
    res, stopAt, failed := 0, null, NULL;
    var slave := b.first;
    var i := 0;
    ghost var n := |b.ring|;
    while i < b.cnt
      invariant 0 <= i <= n
      invariant i < n ==> slave == b.ring[i]
      invariant forall j :: 0 <= j < n ==> b.ring[j].mtu == if j < i then newMtu else old(b.ring[j].mtu)
      invariant forall j :: 0 <= j < i ==> SetMtuResult(old(b.ring[j].mtu), newMtu, drivers[j]) == 0
    {
      res := DevSetMtu(slave, newMtu, drivers[i]);
      if res != 0 {
        stopAt, failed := slave, i;
        return;
      }
      NextInRing(b, i);
      slave := slave.next;
      i := i + 1;
    }
  }

  lemma NextInRing(b: Bonding, i: nat)
    requires b.RingValid() && i < |b.ring|
    ensures b.ring[i].next == b.ring[After(i, |b.ring|)]
  {
  }

  /** The unwinding: bond_for_each_slave_from_to, from the head to the slave that refused.
      The walk stops before `stopAt.next`, so it never starts when that is the head. */
  method Unwind(b: Bonding, stopAt: Slave, ghost k: nat, undos: seq<int>)
    requires b.Valid() && k < |b.ring| && stopAt == b.ring[k] && |undos| == |b.ring|
    modifies b.ring`mtu
    ensures b.Valid()
    ensures forall i :: 0 <= i < |b.ring| ==>
      b.ring[i].mtu == if k < |b.ring| - 1 && i <= k && SetMtuResult(old(b.ring[i].mtu), b.mtu, undos[i]) == 0
                       then b.mtu else old(b.ring[i].mtu)
  {
    hide Linked, Bonding.Shown;
    ghost var n := |b.ring|;
    var slave := b.first;
    var i := 0;
    NextInRing(b, k);
    while i < b.cnt && slave != stopAt.next
      invariant 0 <= i <= n
      invariant if k < n - 1 then i <= k + 1 else i == 0
      invariant i < n ==> slave == b.ring[i]
      invariant forall j :: 0 <= j < n ==>
        b.ring[j].mtu == if j < i && SetMtuResult(old(b.ring[j].mtu), b.mtu, undos[j]) == 0
                         then b.mtu else old(b.ring[j].mtu)
    {
      var tmpRes := DevSetMtu(slave, b.mtu, undos[i]);
      NextInRing(b, i);
      slave := slave.next;
      i := i + 1;
    }
  }
}
