/** Runs over any number of namespaces: whatever is registered, unregistered, renamed and moved,
    in whatever order and with whatever answers from drivers and notifiers, each namespace's
    list and its two indexes keep agreeing. */
module TableRuns {
  import opened Lists
  import opened DevNames
  import opened DevTables

  datatype Op =
    | Register(dev: Device, init: int, link: int, kobject: int, veto: int)
    | Unregister(dev: Device)
    | Rename(dev: Device, name: string, page: bool, veto1: int, veto2: int)
    | Move(dev: Device, to: Net, pat: Option<string>, page: bool)

  ghost function Arrays(nets: set<Net>): set<object> {
    (set n | n in nets :: n.names) + (set n | n in nets :: n.indexes)
  }

  ghost predicate AllApart(nets: set<Net>) {
    forall m, n :: m in nets && n in nets && m != n ==> m.Apart(n)
  }

  /** Every namespace is in order, and a device is listed where it says it is, if registered. */
  ghost predicate InOrder(nets: set<Net>, all: set<Device>)
    reads nets, Arrays(nets), all
  {
    && (forall n :: n in nets ==> n.devs <= all && n.Valid())
    && (forall d :: d in all ==> d.net in nets && (d.regState == Registered ==> d in d.net.devs))
  }

  lemma ListedOnce(nets: set<Net>, all: set<Device>, d: Device)
    requires InOrder(nets, all) && d in all
    ensures forall n :: n in nets && d in n.devs ==> n == d.net && d.regState == Registered
  {
    hide Net.Valid;
    forall n | n in nets && d in n.devs ensures n == d.net && d.regState == Registered {
      n.ListedSays(d);
    }
  }

  lemma Small(some: set<Device>, all: set<Device>)
    requires some <= all && |all| < INT_MAX
    ensures |some| < INT_MAX
  {
    SubsetIsSmaller(some, all);
  }

  method PlayRegister(d: Device, init: int, link: int, kobject: int, veto: int,
                      ghost nets: set<Net>, ghost all: set<Device>, counter: IndexCounter)
    requires AllApart(nets) && InOrder(nets, all) && counter.Valid() && |all| < INT_MAX && d in all
    modifies nets, Arrays(nets), all, counter
    ensures InOrder(nets, all) && counter.Valid()
  {
    hide Net.Valid, Net.Infos, Net.Snapshot, Held;
    if d.regState == Uninitialized {
      var net := d.net;
      ListedOnce(nets, all, d);
      Small(net.devs, all);
      RegisterAt(net, d, init, link, kobject, veto, counter);
      forall n | n in nets ensures n.devs <= all && n.Valid() {
        if n != net {
          assert n.Apart(net);
        }
      }
      forall e | e in all ensures e.net in nets && (e.regState == Registered ==> e in e.net.devs) {
        if e != d {
          assert e.net == old(e.net) && e.regState == old(e.regState);
        }
      }
    }
  }

  method RegisterAt(net: Net, d: Device, init: int, link: int, kobject: int, veto: int, counter: IndexCounter)
    requires net.Valid() && counter.Valid() && |net.devs| < INT_MAX && d.net == net && d.regState == Uninitialized
    modifies net`base, net`devs, net.names, net.indexes, counter, d
    ensures net.Valid() && counter.Valid() && d.net == net
    ensures old(net.devs) <= net.devs <= old(net.devs) + {d} && (d.regState == Registered ==> d in net.devs)
  {
    var _ := net.RegisterNetdevice(d, counter, init, link, kobject, veto);
  }

  method PlayUnregister(d: Device, ghost nets: set<Net>, ghost all: set<Device>)
    requires AllApart(nets) && InOrder(nets, all) && d in all
    modifies nets, Arrays(nets), all
    ensures InOrder(nets, all)
  {
    hide Net.Valid, Net.Infos, Net.Snapshot, Unlisted, InRange;
    if d.regState == Registered {
      ListedOnce(nets, all, d);
      d.net.RollbackRegistered(d);
    }
  }

  method PlayRename(d: Device, name: string, page: bool, veto1: int, veto2: int,
                    ghost nets: set<Net>, ghost all: set<Device>)
    requires AllApart(nets) && InOrder(nets, all) && d in all
    modifies nets, Arrays(nets), all
    ensures InOrder(nets, all)
  {
    hide Net.Valid, Net.Picks;
    if d.regState == Registered {
      ListedOnce(nets, all, d);
      var _, _, _, _ := d.net.ChangeName(d, name, page, veto1, veto2);
    }
  }

  method PlayMove(d: Device, to: Net, pat: Option<string>, page: bool,
                  ghost nets: set<Net>, ghost all: set<Device>, counter: IndexCounter)
    requires AllApart(nets) && InOrder(nets, all) && counter.Valid() && |all| < INT_MAX && d in all && to in nets
    modifies nets, Arrays(nets), all, counter
    ensures InOrder(nets, all) && counter.Valid()
  {
    hide Net.Valid, Net.Infos, Net.Snapshot, Net.Settles, Held;
    ListedOnce(nets, all, d);
    Small(to.devs, all);
    var from := d.net;
    var ret, _, _ := from.ChangeNetNamespace(d, to, pat, page, counter);
    forall n | n in nets ensures n.devs <= all && n.Valid() {
      if n != from && n != to {
        assert n.Apart(from) && n.Apart(to);
      }
    }
    assert d.net == if ret == 0 then to else from;
  }

  /** A call the kernel's own checks would stop on is not made. */
  method Play(ops: seq<Op>, ghost nets: set<Net>, ghost all: set<Device>, counter: IndexCounter)
    requires AllApart(nets) && InOrder(nets, all) && counter.Valid() && |all| < INT_MAX
    requires forall op :: op in ops ==> op.dev in all && (op.Move? ==> op.to in nets)
    modifies nets, Arrays(nets), all, counter
    ensures InOrder(nets, all) && counter.Valid()
    ensures forall n :: n in nets ==> Agrees(n)
  {
    hide InOrder, AllApart;
    for k := 0 to |ops|
      invariant InOrder(nets, all) && counter.Valid()
    {
      match ops[k] {
        case Register(d, init, link, kobject, veto) => PlayRegister(d, init, link, kobject, veto, nets, all, counter);
        case Unregister(d) => PlayUnregister(d, nets, all);
        case Rename(d, name, page, veto1, veto2) => PlayRename(d, name, page, veto1, veto2, nets, all);
        case Move(d, to, pat, page) => PlayMove(d, to, pat, page, nets, all, counter);
      }
    }
    forall n | n in nets ensures Agrees(n) {
      OrderIsAgreement(n, nets, all);
    }
  }

  /** What a reader of the tables can rely on: the devices a scan of the list meets say they are
      here, no two of them share a name or a number, and the bucket a name or a number hashes to
      holds exactly the devices of the list that hash there. */
  ghost predicate Agreement(t: Tables, net: Net, hash: string -> nat) {
    && |t.names| == |t.indexes| == NETDEV_HASHENTRIES
    && (forall i :: 0 <= i < |t.base| ==> t.base[i] in t.info && t.info[t.base[i]].net == net)
    && (forall i, j :: 0 <= i < j < |t.base| ==>
          && t.info[t.base[i]].name != t.info[t.base[j]].name
          && t.info[t.base[i]].ifindex != t.info[t.base[j]].ifindex)
    && (forall d :: d in t.base ==>
          d in t.names[NameSlotOf(hash, t.info[d].name)] && d in t.indexes[IndexSlotOf(t.info[d].ifindex)])
    && (forall b :: 0 <= b < NETDEV_HASHENTRIES ==> BucketOf(t, hash, b))
  }

  ghost predicate BucketOf(t: Tables, hash: string -> nat, b: nat)
    requires |t.names| == |t.indexes| == NETDEV_HASHENTRIES && b < NETDEV_HASHENTRIES
  {
    && (forall d :: d in t.names[b] ==> d in t.base && d in t.info && NameSlotOf(hash, t.info[d].name) == b)
    && (forall d :: d in t.indexes[b] ==> d in t.base && d in t.info && IndexSlotOf(t.info[d].ifindex) == b)
  }

  lemma SoundIsAgreement(t: Tables, net: Net, hash: string -> nat)
    requires Sound(t, net, hash)
    ensures Agreement(t, net, hash)
  {
    hide Chained, Keyed, NoDuplicates;
    BaseIsInfo(t, net, hash);
    NameBucket(t, net, hash, "");
    IndexBucket(t, net, hash, 0);
    forall d | d in t.base ensures t.info[d].net == net { SoundTells(t, net, hash, d); }
    ScanIsUnique(t, net, hash);
    forall d | d in t.base
      ensures d in t.names[NameSlotOf(hash, t.info[d].name)] && d in t.indexes[IndexSlotOf(t.info[d].ifindex)]
    {
      NameBucket(t, net, hash, t.info[d].name);
      IndexBucket(t, net, hash, t.info[d].ifindex);
    }
    forall b | 0 <= b < NETDEV_HASHENTRIES ensures BucketOf(t, hash, b) {
      BucketIsExact(t, net, hash, b);
    }
  }

  lemma ScanIsUnique(t: Tables, net: Net, hash: string -> nat)
    requires Sound(t, net, hash)
    ensures forall d :: d in t.base ==> d in t.info
    ensures forall i, j :: 0 <= i < j < |t.base| ==>
      t.info[t.base[i]].name != t.info[t.base[j]].name && t.info[t.base[i]].ifindex != t.info[t.base[j]].ifindex
  {
    hide Chained;
    BaseIsInfo(t, net, hash);
  }

  lemma BucketIsExact(t: Tables, net: Net, hash: string -> nat, b: nat)
    requires Sound(t, net, hash) && b < NETDEV_HASHENTRIES
    ensures |t.names| == |t.indexes| == NETDEV_HASHENTRIES && BucketOf(t, hash, b)
  {
    hide NameSlotOf, IndexSlotOf, NoDuplicates;
    BaseIsInfo(t, net, hash);
    var nameSlot, indexSlot := NameSlots(t.info), IndexSlots(t.info);
    forall d | d in t.names[b] ensures d in t.info && NameSlotOf(hash, t.info[d].name) == b {
      assert nameSlot[d] == b;
    }
    forall d | d in t.indexes[b] ensures d in t.info && IndexSlotOf(t.info[d].ifindex) == b {
      assert indexSlot[d] == b;
    }
  }

  ghost predicate Agrees(n: Net)
    reads n, n.names, n.indexes, n.devs
  {
    n.Valid() && Agreement(n.Snapshot(), n, n.hash)
  }

  lemma OrderIsAgreement(n: Net, nets: set<Net>, all: set<Device>)
    requires InOrder(nets, all) && n in nets
    ensures Agrees(n)
  {
    hide Agreement, Sound;
    SoundIsAgreement(n.Snapshot(), n, n.hash);
  }
}
