/** The tables of network devices: one list and two hash indexes, by name and by interface
    number, for each network namespace, kept in step by registering, renaming, moving and
    unregistering devices. */
module DevTables {
  import opened Errno
  import opened Lists
  import opened DevNames

  const NETDEV_HASHENTRIES := 256
  const INT_MAX := 0x7FFF_FFFF

  datatype RegState = Uninitialized | Registered | Unregistering | Unregistered

  class Device {
    var name: string
    var ifindex: int
    var iflink: int
    var net: Net
    var regState: RegState
    var isUp: bool
    var netnsLocal: bool
    // the buckets its two hash nodes are chained in
    var nameSlot: nat
    var indexSlot: nat

    constructor (net: Net, name: string, netnsLocal: bool)
      ensures this.net == net && this.name == name && this.netnsLocal == netnsLocal
      ensures regState == Uninitialized && !isUp
    {
      this.net, this.name, this.netnsLocal := net, name, netnsLocal;
      regState, isUp := Uninitialized, false;
      ifindex, iflink, nameSlot, indexSlot := 0, -1, 0, 0;
    }

    ghost function View(): Info
      reads `name, `ifindex, `net, `regState, `nameSlot, `indexSlot
    {
      Info(name, ifindex, net, regState, nameSlot, indexSlot)
    }
  }

  function RemoveElement<T(==)>(s: seq<T>, x: T): (r: seq<T>) {
    if s == [] then [] else if s[0] == x then s[1..] else [s[0]] + RemoveElement(s[1..], x)
  }

  lemma {:induction false} RemoveElementHolds<T>(s: seq<T>, x: T)
    requires NoDuplicates(s)
    ensures NoDuplicates(RemoveElement(s, x))
    ensures forall y :: y in RemoveElement(s, x) <==> y in s && y != x
    ensures |RemoveElement(s, x)| == |s| - if x in s then 1 else 0
  {
    if s != [] {
      var rest := s[1..];
      RemoveElementHolds(rest, x);
      assert s == [s[0]] + rest;
      assert s[0] !in rest by {
        assert forall i :: 0 <= i < |rest| ==> rest[i] == s[i + 1];
      }
    }
  }

  lemma {:induction false} RemoveLast<T>(s: seq<T>, x: T)
    requires x !in s
    ensures RemoveElement(s + [x], x) == s
  {
    if s != [] {
      RemoveLast(s[1..], x);
      assert (s + [x])[1..] == s[1..] + [x];
    }
  }

  /** What the tables depend on, device by device. */
  datatype Info = Info(name: string, ifindex: int, net: Net, regState: RegState, nameSlot: nat, indexSlot: nat)

  type Heads = seq<seq<Device>>

  function NameSlotOf(hash: string -> nat, name: string): (b: nat)
    ensures b < NETDEV_HASHENTRIES
  {
    hash(name) % NETDEV_HASHENTRIES
  }

  function IndexSlotOf(ifindex: int): (b: nat)
    ensures b < NETDEV_HASHENTRIES
  {
    ifindex % NETDEV_HASHENTRIES
  }

  ghost function NameSlots(info: map<Device, Info>): (m: map<Device, nat>)
    ensures m.Keys == info.Keys
  {
    map d | d in info :: info[d].nameSlot
  }

  ghost function IndexSlots(info: map<Device, Info>): (m: map<Device, nat>)
    ensures m.Keys == info.Keys
  {
    map d | d in info :: info[d].indexSlot
  }

  /** Every device is in exactly one bucket, the one `slot` tells, and once. */
  ghost predicate Chained(heads: Heads, slot: map<Device, nat>) {
    && |heads| == NETDEV_HASHENTRIES
    && (forall d :: d in slot ==> slot[d] < |heads| && d in heads[slot[d]])
    && (forall b :: 0 <= b < |heads| ==> NoDuplicates(heads[b]))
    && (forall b, d :: 0 <= b < |heads| && d in heads[b] ==> d in slot && slot[d] == b)
  }

  /** Each device is where its name and its number hash to, and those are unique. */
  ghost predicate Keyed(info: map<Device, Info>, net: Net, hash: string -> nat) {
    && (forall d :: d in info ==>
          && info[d].net == net && info[d].regState == Registered && info[d].ifindex > 0
          && info[d].nameSlot == NameSlotOf(hash, info[d].name)
          && info[d].indexSlot == IndexSlotOf(info[d].ifindex))
    && (forall d, e :: d in info && e in info && d != e ==>
          info[d].name != info[e].name && info[d].ifindex != info[e].ifindex)
  }

  lemma AddChains(heads: Heads, slot: map<Device, nat>, d: Device, b: nat)
    requires Chained(heads, slot) && d !in slot && b < |heads|
    ensures Chained(heads[b := [d] + heads[b]], slot[d := b])
  {
    var after, now := heads[b := [d] + heads[b]], slot[d := b];
    assert forall c, e :: 0 <= c < |after| && e in after[c] ==> (c == b && e == d) || e in heads[c];
    assert forall c :: 0 <= c < |after| ==> NoDuplicates(after[c]);
    forall e | e in now ensures e in after[now[e]] {
      if e != d {
        assert e in heads[slot[e]];
      }
    }
  }

  /** `shrunk` is the bucket of `d` without `d`. */
  lemma DelChains(heads: Heads, slot: map<Device, nat>, d: Device, shrunk: seq<Device>)
    requires Chained(heads, slot) && d in slot
    requires NoDuplicates(shrunk)
    requires forall e :: e in shrunk <==> e in heads[slot[d]] && e != d
    ensures Chained(heads[slot[d] := shrunk], slot - {d})
  {
    hide NoDuplicates;
    var b := slot[d];
    var after := heads[b := shrunk];
    forall c, e | 0 <= c < |after| && e in after[c] ensures e in heads[c] && e != d {
      if c != b {
        assert d !in heads[c];
      }
    }
    forall e | e in slot - {d} ensures e in after[slot[e]] {
      assert e in heads[slot[e]];
    }
  }

  /** What the list and the buckets hold, and what each listed device says. */
  datatype Tables = Tables(base: seq<Device>, names: Heads, indexes: Heads, info: map<Device, Info>)

  /** The list and the buckets hold the same devices, each once, where they belong. */
  ghost predicate Sound(t: Tables, net: Net, hash: string -> nat) {
    && NoDuplicates(t.base) && t.info.Keys == (set d | d in t.base)
    && Chained(t.names, NameSlots(t.info)) && Chained(t.indexes, IndexSlots(t.info))
    && Keyed(t.info, net, hash)
  }

  /** `d`, which says `i`, is listed. */
  ghost function Listed(t: Tables, d: Device, i: Info): Tables
    requires i.nameSlot < |t.names| && i.indexSlot < |t.indexes|
  {
    Tables(t.base + [d], t.names[i.nameSlot := [d] + t.names[i.nameSlot]],
           t.indexes[i.indexSlot := [d] + t.indexes[i.indexSlot]], t.info[d := i])
  }

  ghost predicate InRange(t: Tables, d: Device) {
    d in t.info && t.info[d].nameSlot < |t.names| && t.info[d].indexSlot < |t.indexes|
  }

  ghost function Unlisted(t: Tables, d: Device): Tables
    requires InRange(t, d)
  {
    var i := t.info[d];
    Tables(RemoveElement(t.base, d), t.names[i.nameSlot := RemoveElement(t.names[i.nameSlot], d)],
           t.indexes[i.indexSlot := RemoveElement(t.indexes[i.indexSlot], d)], t.info - {d})
  }

  /** `d` leaves its name bucket and goes to the front of another. */
  ghost function Renamed(t: Tables, d: Device, name: string, slot: nat): Tables
    requires InRange(t, d) && slot < |t.names|
  {
    var i := t.info[d];
    var without := t.names[i.nameSlot := RemoveElement(t.names[i.nameSlot], d)];
    t.(names := without[slot := [d] + without[slot]], info := t.info[d := i.(name := name, nameSlot := slot)])
  }

  /** No listed device but `d` has this name. */
  ghost predicate NameFree(info: map<Device, Info>, d: Device, name: string) {
    forall e :: e in info && e != d ==> info[e].name != name
  }

  lemma MembersWithout(base: seq<Device>, rest: seq<Device>, d: Device)
    requires forall y :: y in rest <==> y in base && y != d
    ensures (set e | e in rest) == (set e | e in base) - {d}
  {
  }

  /** A lookup needs only the bucket the name hashes to. */
  lemma NameBucket(t: Tables, net: Net, hash: string -> nat, name: string)
    requires Sound(t, net, hash)
    ensures |t.names| == NETDEV_HASHENTRIES
    ensures forall e :: e in t.names[NameSlotOf(hash, name)] ==> e in t.base
    ensures forall e :: e in t.base ==> e in t.info
    ensures forall e :: e in t.base && t.info[e].name == name ==> e in t.names[NameSlotOf(hash, name)]
    ensures forall d, e :: d in t.base && e in t.base && t.info[d].name == name == t.info[e].name ==> d == e
  {
    var slot := NameSlots(t.info);
    forall e | e in t.base && t.info[e].name == name ensures e in t.names[NameSlotOf(hash, name)] {
      assert slot[e] == NameSlotOf(hash, name);
    }
    forall e | e in t.names[NameSlotOf(hash, name)] ensures e in t.base {
      assert e in slot;
    }
  }

  lemma IndexBucket(t: Tables, net: Net, hash: string -> nat, ifindex: int)
    requires Sound(t, net, hash)
    ensures |t.indexes| == NETDEV_HASHENTRIES
    ensures forall e :: e in t.indexes[IndexSlotOf(ifindex)] ==> e in t.base
    ensures forall e :: e in t.base ==> e in t.info
    ensures forall e :: e in t.base && t.info[e].ifindex == ifindex ==> e in t.indexes[IndexSlotOf(ifindex)]
    ensures forall d, e :: d in t.base && e in t.base && t.info[d].ifindex == ifindex == t.info[e].ifindex ==> d == e
  {
    var slot := IndexSlots(t.info);
    forall e | e in t.base && t.info[e].ifindex == ifindex ensures e in t.indexes[IndexSlotOf(ifindex)] {
      assert slot[e] == IndexSlotOf(ifindex);
    }
    forall e | e in t.indexes[IndexSlotOf(ifindex)] ensures e in t.base {
      assert e in slot;
    }
  }

  lemma ListedIsSound(t: Tables, net: Net, hash: string -> nat, d: Device, i: Info)
    requires Sound(t, net, hash) && d !in t.info
    requires i.net == net && i.regState == Registered && i.ifindex > 0
    requires i.nameSlot == NameSlotOf(hash, i.name) && i.indexSlot == IndexSlotOf(i.ifindex)
    requires NameFree(t.info, d, i.name) && forall e :: e in t.info ==> t.info[e].ifindex != i.ifindex
    ensures |t.names| == |t.indexes| == NETDEV_HASHENTRIES && Sound(Listed(t, d, i), net, hash)
  {
    assert |t.names| == |t.indexes| == NETDEV_HASHENTRIES;
    hide NoDuplicates, Chained, Keyed, NameSlots, IndexSlots;
    NoDuplicatesSnoc(t.base, d);
    SlotsAdd(t.info, d, i);
    AddChains(t.names, NameSlots(t.info), d, i.nameSlot);
    AddChains(t.indexes, IndexSlots(t.info), d, i.indexSlot);
    KeyedAdd(t.info, net, hash, d, i);
  }

  lemma UnlistedIsSound(t: Tables, net: Net, hash: string -> nat, d: Device)
    requires Sound(t, net, hash) && d in t.info
    ensures InRange(t, d) && Sound(Unlisted(t, d), net, hash)
  {
    SoundTells(t, net, hash, d);
    hide RemoveElement, NoDuplicates, Chained, Keyed;
    var i := t.info[d];
    RemoveElementHolds(t.names[i.nameSlot], d);
    RemoveElementHolds(t.indexes[i.indexSlot], d);
    DelChains(t.names, NameSlots(t.info), d, RemoveElement(t.names[i.nameSlot], d));
    DelChains(t.indexes, IndexSlots(t.info), d, RemoveElement(t.indexes[i.indexSlot], d));
    SlotsRemove(t.info, d);
    KeyedRemove(t.info, net, hash, d);
    RemoveElementHolds(t.base, d);
    MembersWithout(t.base, RemoveElement(t.base, d), d);
  }

  lemma RenamedIsSound(t: Tables, net: Net, hash: string -> nat, d: Device, name: string)
    requires Sound(t, net, hash) && d in t.info && NameFree(t.info, d, name)
    ensures InRange(t, d) && |t.names| == NETDEV_HASHENTRIES
    ensures Sound(Renamed(t, d, name, NameSlotOf(hash, name)), net, hash)
  {
    SoundTells(t, net, hash, d);
    var i, slot := t.info[d], NameSlotOf(hash, name);
    var now := t.info[d := i.(name := name, nameSlot := slot)];
    KeyedAdd(t.info, net, hash, d, now[d]);
    hide RemoveElement, NoDuplicates, Chained, Keyed;
    RemoveElementHolds(t.names[i.nameSlot], d);
    var shrunk := RemoveElement(t.names[i.nameSlot], d);
    DelChains(t.names, NameSlots(t.info), d, shrunk);
    AddChains(t.names[i.nameSlot := shrunk], NameSlots(t.info) - {d}, d, slot);
    SlotsRename(t.info, d, name, slot);
  }

  lemma SoundTells(t: Tables, net: Net, hash: string -> nat, d: Device)
    requires Sound(t, net, hash) && d in t.info
    ensures |t.names| == |t.indexes| == NETDEV_HASHENTRIES && InRange(t, d) && d in t.base
    ensures t.info[d].net == net && t.info[d].regState == Registered && t.info[d].ifindex > 0
    ensures t.info[d].nameSlot == NameSlotOf(hash, t.info[d].name)
    ensures NoDuplicates(t.names[t.info[d].nameSlot]) && NoDuplicates(t.indexes[t.info[d].indexSlot])
    ensures NameFree(t.info, d, t.info[d].name)
  {
    assert NameSlots(t.info)[d] == t.info[d].nameSlot && IndexSlots(t.info)[d] == t.info[d].indexSlot;
  }

  /** Listing and unlisting again changes nothing at all. */
  lemma UnlistedUndoesListed(t: Tables, d: Device, i: Info)
    requires d !in t.info && d !in t.base && i.nameSlot < |t.names| && i.indexSlot < |t.indexes|
    ensures Unlisted(Listed(t, d, i), d) == t
  {
    RemoveLast(t.base, d);
    assert ([d] + t.names[i.nameSlot])[1..] == t.names[i.nameSlot];
    assert ([d] + t.indexes[i.indexSlot])[1..] == t.indexes[i.indexSlot];
    assert t.info[d := i] - {d} == t.info;
  }

  /** The counter the interface numbers come from, one for all namespaces. */
  class IndexCounter {
    var last: int

    constructor ()
      ensures last == 0
    {
      last := 0;
    }

    ghost predicate Valid()
      reads this
    {
      0 <= last <= INT_MAX
    }
  }

  /** ++ifindex in 32 bits, forced back to 1 when it is not positive. */
  function NextIndex(i: int): (n: int)
    requires 0 <= i <= INT_MAX
    ensures 0 < n <= INT_MAX && n == if i == INT_MAX then 1 else i + 1
  {
    var wrapped := if i + 1 > INT_MAX then i + 1 - 0x1_0000_0000 else i + 1;
    if wrapped <= 0 then 1 else wrapped
  }

  /** The numbers passed over on the way up, and around, from `from` to `to`. */
  predicate Between(from: int, i: int, to: int) {
    if from < to then from < i < to else from < i || i < to
  }

  /** All the numbers up to `n`. */
  function Indexes(n: int): (all: set<int>)
    ensures forall i :: i in all <==> 0 < i <= n
  {
    if n <= 0 then {} else Indexes(n - 1) + {n}
  }

  /** And `to` itself. */
  function Tried(from: int, to: int): set<int> {
    set i | i in Indexes(INT_MAX) && (i == to || Between(from, i, to))
  }

  lemma TriedGrows(from: int, last: int)
    requires 0 <= from <= INT_MAX && 0 < last <= INT_MAX
    requires Tried(from, last) != Indexes(INT_MAX)
    ensures NextIndex(last) !in Tried(from, last)
    ensures Tried(from, NextIndex(last)) == Tried(from, last) + {NextIndex(last)}
    ensures forall i :: 0 < i <= INT_MAX && Between(from, i, NextIndex(last)) ==> i in Tried(from, last)
  {
    hide Indexes;
    if NextIndex(last) in Tried(from, last) {
      BackAtTheStart(from, last);
    }
  }

  lemma BackAtTheStart(from: int, last: int)
    requires 0 <= from <= INT_MAX && 0 < last <= INT_MAX
    requires NextIndex(last) in Tried(from, last)
    ensures Tried(from, last) == Indexes(INT_MAX)
  {
    hide Indexes;
  }

  lemma TriedStarts(from: int)
    requires 0 <= from <= INT_MAX
    ensures Tried(from, NextIndex(from)) == {NextIndex(from)}
    ensures forall i :: 0 < i <= INT_MAX ==> !Between(from, i, NextIndex(from))
  {
    hide Indexes;
  }

  /** The numbers in use. */
  ghost function Held(info: map<Device, Info>): set<int> {
    set d | d in info :: info[d].ifindex
  }

  lemma BaseIsInfo(t: Tables, net: Net, hash: string -> nat)
    requires Sound(t, net, hash)
    ensures forall d :: d in t.info <==> d in t.base
  {
  }

  lemma IsHeld(info: map<Device, Info>, d: Device)
    requires d in info
    ensures info[d].ifindex in Held(info)
  {
  }

  lemma {:induction false} HeldIsSmall(info: map<Device, Info>)
    ensures |Held(info)| <= |info|
    decreases |info|
  {
    if info != map[] {
      var d :| d in info;
      var rest := info - {d};
      assert info == rest[d := info[d]] && |rest| == |info| - 1;
      HeldIsSmall(rest);
      assert Held(info) <= Held(rest) + {info[d].ifindex};
      SubsetIsSmaller(Held(info), Held(rest) + {info[d].ifindex});
    }
  }

  lemma {:induction false} SubsetIsSmaller<T>(a: set<T>, b: set<T>)
    requires a <= b
    ensures |a| <= |b|
    decreases a
  {
    if x :| x in a {
      SubsetIsSmaller(a - {x}, b - {x});
    }
  }

  lemma {:induction false} RangeSize(n: nat)
    ensures |Indexes(n)| == n
  {
    if n > 0 {
      RangeSize(n - 1);
    }
  }

  /** When fewer numbers are in use than there are, going around ends before it comes back
      to the first number tried. */
  lemma NotAllTried(info: map<Device, Info>, tried: set<int>)
    requires |info| < INT_MAX && tried <= Held(info)
    ensures tried != Indexes(INT_MAX) && |tried| <= |Held(info)|
  {
    HeldIsSmall(info);
    SubsetIsSmaller(tried, Held(info));
    RangeSize(INT_MAX);
  }

  predicate ValidName(name: string) {
    && 0 < |name| < IFNAMSIZ && name != "." && name != ".."
    && (forall i :: 0 <= i < |name| ==> name[i] != '/' && !IsSpace(name[i]))
  }

  /** A name is refused exactly if it is empty or does not fit the buffer, is one of the two dot
      names, or has a slash or white space in it. */
  lemma NameIsRefusedIff(name: string)
    ensures !ValidName(name) <==>
      || name in {"", ".", ".."} || |name| >= 16
      || exists c :: c in name && c in {'/', ' ', '\t', '\n', '\r', 11 as char, 12 as char}
  {
    if i :| 0 <= i < |name| && (name[i] == '/' || IsSpace(name[i])) {
      assert name[i] in name;
    }
  }

  /** The names on the list, in its order. */
  ghost function NamesOf(t: Tables): (names: seq<string>)
    requires forall d :: d in t.base ==> d in t.info
  {
    seq(|t.base|, i requires 0 <= i < |t.base| => t.info[t.base[i]].name)
  }

  class Net {
    var base: seq<Device>                 // dev_base_head
    ghost var devs: set<Device>           // its members
    const names: array<seq<Device>>       // dev_name_head
    const indexes: array<seq<Device>>     // dev_index_head
    const hash: string -> nat             // full_name_hash

    ghost predicate Sized()
    {
      names.Length == indexes.Length == NETDEV_HASHENTRIES && names != indexes
    }

    ghost function Infos(): (m: map<Device, Info>)
      reads `devs, devs`name, devs`ifindex, devs`net, devs`regState, devs`nameSlot, devs`indexSlot
      ensures m.Keys == devs
    {
      map d | d in devs :: d.View()
    }

    ghost function Snapshot(): Tables
      reads `base, `devs, names, indexes
      reads devs`name, devs`ifindex, devs`net, devs`regState, devs`nameSlot, devs`indexSlot
    {
      Tables(base, names[..], indexes[..], Infos())
    }

    ghost predicate Valid()
      reads `base, `devs, names, indexes
      reads devs`name, devs`ifindex, devs`net, devs`regState, devs`nameSlot, devs`indexSlot
    {
      Sized() && Sound(Snapshot(), this, hash)
    }

    constructor (hash: string -> nat)
      ensures Valid() && base == [] && devs == {} && this.hash == hash
      ensures fresh(names) && fresh(indexes)
    {
      base, devs := [], {};
      names := new seq<Device>[NETDEV_HASHENTRIES](_ => []);
      indexes := new seq<Device>[NETDEV_HASHENTRIES](_ => []);
      this.hash := hash;
    }

    lemma Members()
      requires Valid()
      ensures forall d :: d in devs <==> d in base
    {
      BaseIsInfo(Snapshot(), this, hash);
    }

    lemma ListedSays(d: Device)
      requires Valid() && d in devs
      ensures d.regState == Registered && d.net == this && d.ifindex > 0 && NameFree(Infos(), d, d.name)
    {
      hide Sound;
      SoundTells(Snapshot(), this, hash, d);
      assert Infos()[d] == d.View();
    }

    /** __dev_get_by_name: exactly what a scan of the device list would find. */
    method GetByName(name: string) returns (dev: Device?)
      requires Valid()
      ensures dev == null <==> forall d :: d in base ==> d.name != name
      ensures dev != null ==> dev in base && dev in devs && dev.name == name
      ensures forall d :: d in base && d.name == name ==> d == dev
    {
      hide Sound;
      NameBucket(Snapshot(), this, hash, name);
      var bucket := names[NameSlotOf(hash, name)];
      var i := 0;
      while i < |bucket|
        invariant 0 <= i <= |bucket|
        invariant forall j :: 0 <= j < i ==> bucket[j].name != name
      {
        if bucket[i].name == name {
          return bucket[i];
        }
        i := i + 1;
      }
      return null;
    }

    /** __dev_get_by_index. */
    method GetByIndex(ifindex: int) returns (dev: Device?)
      requires Valid()
      ensures dev == null <==> forall d :: d in base ==> d.ifindex != ifindex
      ensures dev == null <==> ifindex !in Held(Infos())
      ensures dev != null ==> dev in base && dev in devs && dev.ifindex == ifindex
      ensures forall d :: d in base && d.ifindex == ifindex ==> d == dev
    {
      hide Sound;
      Members();
      IndexBucket(Snapshot(), this, hash, ifindex);
      var bucket := indexes[IndexSlotOf(ifindex)];
      var i := 0;
      while i < |bucket|
        invariant 0 <= i <= |bucket|
        invariant forall j :: 0 <= j < i ==> bucket[j].ifindex != ifindex
      {
        if bucket[i].ifindex == ifindex {
          IsHeld(Infos(), bucket[i]);
          return bucket[i];
        }
        i := i + 1;
      }
      return null;
    }

    // ------------------------------ listing and unlisting -----------------------------

    /** hlist_add_head. */
    static method AddHead(heads: array<seq<Device>>, b: nat, d: Device)
      requires b < heads.Length
      modifies heads
      ensures heads[..] == old(heads[..])[b := [d] + old(heads[..])[b]]
    {
      heads[b] := [d] + heads[b];
    }

    /** hlist_del from the bucket the node is in. */
    static method Del(heads: array<seq<Device>>, b: nat, d: Device)
      requires b < heads.Length
      modifies heads
      ensures heads[..] == old(heads[..])[b := RemoveElement(old(heads[..])[b], d)]
    {
      heads[b] := RemoveElement(heads[b], d);
    }

    /** list_netdevice. */
    method ListNetdevice(d: Device)
      requires Valid() && d !in devs && d.net == this && d.regState == Registered && d.ifindex > 0
      requires forall e :: e in devs ==> e.name != d.name && e.ifindex != d.ifindex
      modifies `base, `devs, names, indexes, d`nameSlot, d`indexSlot
      ensures Valid() && d.nameSlot < NETDEV_HASHENTRIES && d.indexSlot < NETDEV_HASHENTRIES
      ensures |old(names[..])| == |old(indexes[..])| == NETDEV_HASHENTRIES
      ensures base == old(base) + [d]
      ensures InRange(Snapshot(), d) && Unlisted(Snapshot(), d) == old(Snapshot())
      ensures devs == old(devs) + {d} && Snapshot() == Listed(old(Snapshot()), d, d.View())
    {
      hide RemoveElement, Sound;
      base := base + [d];
      d.nameSlot := NameSlotOf(hash, d.name);
      AddHead(names, d.nameSlot, d);
      d.indexSlot := IndexSlotOf(d.ifindex);
      AddHead(indexes, d.indexSlot, d);
      devs := devs + {d};
      assert Infos() == old(Infos())[d := d.View()];
      ListedIsSound(old(Snapshot()), this, hash, d, d.View());
      BaseIsInfo(old(Snapshot()), this, hash);
      UnlistedUndoesListed(old(Snapshot()), d, d.View());
    }

    /** unlist_netdevice. */
    method UnlistNetdevice(d: Device)
      requires Valid() && d in devs
      modifies `base, `devs, names, indexes
      ensures Valid() && InRange(old(Snapshot()), d)
      ensures devs == old(devs) - {d} && Snapshot() == Unlisted(old(Snapshot()), d)
    {
      hide RemoveElement, Sound;
      UnlistedIsSound(Snapshot(), this, hash, d);
      base := RemoveElement(base, d);
      Del(names, d.nameSlot, d);
      Del(indexes, d.indexSlot, d);
      devs := devs - {d};
      assert Infos() == old(Infos()) - {d};
    }

    /** One turn of dev_new_index. */
    method TryIndex(counter: IndexCounter) returns (free: bool)
      requires Valid() && counter.Valid()
      modifies counter
      ensures counter.last == NextIndex(old(counter.last)) && Infos() == old(Infos())
      ensures free <==> counter.last !in Held(Infos())
      ensures free ==> forall d :: d in base ==> d.ifindex != counter.last
    {
      hide Sound, NextIndex, Held;
      counter.last := NextIndex(counter.last);
      var d := GetByIndex(counter.last);
      free := d == null;
    }

    /** dev_new_index: the first number, counting up from the last one given and around past
        INT_MAX to 1, that no listed device has. */
    method NewIndex(counter: IndexCounter) returns (ifindex: int)
      requires Valid() && counter.Valid() && |devs| < INT_MAX
      modifies counter
      ensures counter.Valid() && counter.last == ifindex && 0 < ifindex <= INT_MAX
      ensures ifindex !in Held(Infos()) && forall d :: d in base ==> d.ifindex != ifindex
      ensures forall i :: 0 < i <= INT_MAX && Between(old(counter.last), i, ifindex) ==> i in Held(Infos())
    {
      hide Held, Tried, Between, NextIndex, Indexes, Infos, Valid;
      ghost var start := counter.last;
      ghost var tried: set<int> := {};
      ghost var info := Infos();
      while true
        invariant Valid() && counter.Valid() && info == Infos()
        invariant tried <= Held(info)
        invariant tried == {} ==> counter.last == start
        invariant tried != {} ==> counter.last > 0 && tried == Tried(start, counter.last)
        decreases |Held(info)| - |tried|
      {
        NotAllTried(info, tried);
        if tried == {} { TriedStarts(start); } else { TriedGrows(start, counter.last); }
        var free := TryIndex(counter);
        if free {
          return counter.last;
        }
        tried := tried + {counter.last};
        SubsetIsSmaller(tried, Held(info));
      }
    }

    // ------------------------------------- renaming -----------------------------------

    /** `d` says another name than `was`, the one its name node is still filed under. */
    ghost predicate Pending(d: Device, was: string)
      reads this, names, indexes, devs, d
    {
      && Sized() && d in devs
      && Sound(Snapshot().(info := Infos()[d := d.View().(name := was)]), this, hash)
      && NameFree(Infos(), d, d.name)
    }

    method SetName(d: Device, name: string)
      requires Valid() && d in devs && NameFree(Infos(), d, name)
      modifies d`name
      ensures Pending(d, old(d.name)) && d.name == name
    {
      hide Sound;
      d.name := name;
      assert Infos()[d := d.View().(name := old(d.name))] == old(Infos());
    }

    /** The node moves to the bucket of the name the device says now. */
    method Rehash(d: Device, ghost was: string)
      requires Pending(d, was)
      modifies names, d`nameSlot
      ensures Valid()
    {
      hide RemoveElement, Sound;
      ghost var t := Snapshot().(info := Infos()[d := d.View().(name := was)]);
      RenamedIsSound(t, this, hash, d, d.name);
      Del(names, d.nameSlot, d);
      d.nameSlot := NameSlotOf(hash, d.name);
      AddHead(names, d.nameSlot, d);
      assert Snapshot() == Renamed(t, d, d.name, NameSlotOf(hash, d.name));
    }

    /** __dev_alloc_name over the names on the list. */
    method AllocDevName(format: string, page: bool) returns (unit: int, buf: string)
      requires Valid()
      ensures Allocates(NamesOf(Snapshot()), format, page, unit, buf)
      ensures unit >= 0 ==> forall e :: e in base ==> e.name != buf
    {
      hide Sound, Allocates;
      var listed: seq<string> := [];
      BaseIsInfo(Snapshot(), this, hash);
      for i := 0 to |base|
        invariant |listed| == i && forall j :: 0 <= j < i ==> listed[j] == base[j].name
      {
        listed := listed + [base[i].name];
      }
      assert listed == NamesOf(Snapshot());
      unit, buf := AllocName(listed, format, page);
      if unit >= 0 {
        AllocatedIsNew(listed, format, page, unit, buf);
        forall e | e in base ensures e.name != buf {
          var j :| 0 <= j < |base| && base[j] == e;
          assert listed[j] == e.name;
        }
      }
    }

    /** What a wanted name comes to: a format the unit and the name the allocator gives it, any
        other name itself, unless a listed device has it. */
    ghost predicate Picks(wanted: string, page: bool, unit: int, name: string)
      requires Valid()
      reads this, names, indexes, devs
    {
      if '%' in wanted then Allocates(NamesOf(Snapshot()), wanted, page, unit, name)
      else name == wanted && unit == if (exists e :: e in devs && e.name == wanted) then -EEXIST else 0
    }

    /** dev_change_name.  `veto1` and `veto2` are the notifier chain's answers to the rename and,
        if there is one, to the rollback.  `target` is the name wanted and `unit` what getting it
        from a pattern returned. */
    method ChangeName(d: Device, newname: string, page: bool, veto1: int, veto2: int)
      returns (ret: int, ghost unit: int, ghost target: string, ghost passes: nat)
      requires Valid() && d in devs
      modifies names, d`name, d`nameSlot
      ensures Valid() && passes <= 2
      ensures d.isUp ==> ret == -EBUSY && passes == 0
      ensures !d.isUp && !ValidName(newname) ==> ret == -EINVAL && passes == 0
      ensures !d.isUp && ValidName(newname) ==>
        if newname == old(d.name) then ret == 0 && passes == 0
        else old(Picks(newname, page, unit, target)) && (passes == 0 <==> unit < 0) && (passes == 0 ==> ret == unit)
      ensures passes == 0 ==> d.name == old(d.name)
      ensures passes > 0 && (veto1 == 0 || unit > 0) ==> ret == unit && d.name == target
      ensures passes > 0 && veto1 != 0 && unit == 0 ==> ret == veto1 && d.name == old(d.name)
    {
      hide Valid, Infos, Picks, ValidName;
      unit, target, passes := 0, newname, 0;
      if d.isUp {
        return -EBUSY, unit, target, passes;
      }
      if !ValidName(newname) {
        return -EINVAL, unit, target, passes;
      }
      if newname == d.name {
        return 0, unit, target, passes;
      }
      var err, name := WantedName(newname, page);
      unit, target := err, name;
      if err < 0 {
        return err, unit, target, passes;
      }
      ret, passes := CommitName(d, name, err, veto1, veto2);
    }

    /** The name itself, or one from the pattern it is. */
    method WantedName(newname: string, page: bool) returns (err: int, name: string)
      requires Valid()
      ensures Picks(newname, page, err, name)
      ensures err >= 0 ==> forall e :: e in devs ==> e.name != name
    {
      hide Sound, Allocates;
      Members();
      err, name := 0, newname;
      if '%' in newname {
        err, name := AllocDevName(newname, page);
      } else {
        var taken := GetByName(newname);
        if taken != null {
          err := -EEXIST;
        }
      }
    }

    /** The second half, from the label `rollback` on. */
    method CommitName(d: Device, name: string, unit: int, veto1: int, veto2: int) returns (err: int, passes: nat)
      requires Valid() && d in devs && forall e :: e in devs ==> e.name != name
      modifies names, d`name, d`nameSlot
      ensures Valid() && 0 < passes <= 2
      ensures veto1 == 0 || unit != 0 ==> err == unit && d.name == name
      ensures veto1 != 0 && unit == 0 ==> err == veto1 && d.name == old(d.name)
    {
      hide Sound;
      ListedSays(d);
      var oldname := d.name;
      err, passes := unit, 0;
      ghost var was := d.name;
      SetName(d, name);
      var again := true;
      while again
        invariant passes <= 2 && (passes == 0 ==> again && err == unit && d.name == name && oldname == was)
        invariant again ==> Pending(d, was)
        invariant !again ==> Valid() && passes > 0
        invariant NameFree(Infos(), d, oldname)
        invariant passes > 0 && (veto1 == 0 || unit != 0) ==> !again && err == unit && d.name == name
        invariant passes > 0 && veto1 != 0 && unit == 0 ==>
          err == veto1 && d.name == oldname && (again <==> passes == 1)
        decreases 2 - passes
      {
        Rehash(d, was);
        was := d.name;
        passes := passes + 1;
        var veto := if passes == 1 then veto1 else veto2;
        again := false;
        if veto != 0 && err == 0 {
          err := veto;
          again := true;
          SetName(d, oldname);
        }
      }
    }

    // --------------------------- registering and unregistering -------------------------

    /** register_netdevice.  What the driver's init, the kobject layer and the notifier chain
        answer comes in, and what init leaves in iflink: -1 if it, or its absence, leaves it. */
    method RegisterNetdevice(d: Device, counter: IndexCounter, init: int, link: int, kobject: int, veto: int)
      returns (ret: int)
      requires Valid() && counter.Valid() && |devs| < INT_MAX
      requires d.net == this && d.regState == Uninitialized
      modifies `base, `devs, names, indexes, counter, d
      ensures Valid() && counter.Valid() && d.name == old(d.name) && d.net == this
      ensures ret ==
        if init != 0 then (if init > 0 then -EIO else init)
        else if !ValidName(d.name) then -EINVAL
        else if (exists e :: e in old(devs) && e.name == d.name) then -EEXIST
        else if kobject != 0 then kobject
        else veto
      ensures ret == 0 ==> base == old(base) + [d] && devs == old(devs) + {d} && d.regState == Registered
      ensures ret == 0 ==> d.ifindex !in old(Held(Infos())) && d.iflink == if link == -1 then d.ifindex else link
      ensures ret != 0 ==>
        devs == old(devs) && Snapshot() == old(Snapshot()) && d.regState in {Uninitialized, Unregistered}
    {
      hide RemoveElement, Valid, Infos, Held, Unlisted, Listed, Snapshot, InRange;
      ghost var held := Held(Infos());
      Members();
      if d in devs { ListedSays(d); }
      ret := Admit(d, counter, init, link, kobject, held);
      if ret != 0 {
        return;
      }
      Announce(d, veto);
      ret := veto;
    }

    /** The device is listed, and taken off again if the notifier chain vetoes it. */
    method Announce(d: Device, veto: int)
      requires Valid() && d !in devs && d.net == this && d.regState == Registered && d.ifindex > 0
      requires forall e :: e in devs ==> e.name != d.name && e.ifindex != d.ifindex
      modifies `base, `devs, names, indexes, d`nameSlot, d`indexSlot, d`regState, d`isUp
      ensures Valid()
      ensures veto == 0 ==> base == old(base) + [d] && devs == old(devs) + {d} && d.regState == Registered
      ensures veto != 0 ==> devs == old(devs) && Snapshot() == old(Snapshot()) && d.regState == Unregistered
    {
      hide RemoveElement, Valid, Infos, Unlisted, Listed, Snapshot, InRange;
      ListNetdevice(d);
      if veto != 0 {
        RollbackRegistered(d);
        d.regState := Unregistered;
      }
    }

    /** The part of registering before the device is listed. */
    method Admit(d: Device, counter: IndexCounter, init: int, link: int, kobject: int, ghost held: set<int>)
      returns (ret: int)
      requires Valid() && counter.Valid() && |devs| < INT_MAX && d !in devs && held == Held(Infos())
      requires d.net == this && d.regState == Uninitialized
      modifies counter, d`iflink, d`ifindex, d`regState
      ensures Valid() && counter.Valid() && Snapshot() == old(Snapshot())
      ensures ret ==
        if init != 0 then (if init > 0 then -EIO else init)
        else if !ValidName(d.name) then -EINVAL
        else if (exists e :: e in devs && e.name == d.name) then -EEXIST
        else kobject
      ensures d.regState == if ret == 0 then Registered else Uninitialized
      ensures ret == 0 ==> d.ifindex > 0 && d.iflink == if link == -1 then d.ifindex else link
      ensures ret == 0 ==> d.ifindex !in held && forall e :: e in devs ==> e.ifindex != d.ifindex
    {
      hide RemoveElement, Valid, Infos, Held, Snapshot, ValidName, Between;
      Members();
      d.iflink := link;
      if init != 0 {
        return if init > 0 then -EIO else init;
      }
      if !ValidName(d.name) {
        return -EINVAL;
      }
      NumberDevice(d, counter, held);
      var taken := GetByName(d.name);
      ret := if taken != null then -EEXIST else kobject;
      if ret == 0 {
        d.regState := Registered;
      }
    }

    /** A new device gets a number, and that as its iflink unless it has one. */
    method NumberDevice(d: Device, counter: IndexCounter, ghost held: set<int>)
      requires Valid() && counter.Valid() && |devs| < INT_MAX && d !in devs && held == Held(Infos())
      modifies counter, d`iflink, d`ifindex
      ensures Valid() && counter.Valid() && Snapshot() == old(Snapshot()) && Infos() == old(Infos())
      ensures d.ifindex > 0 && d.iflink == if old(d.iflink) == -1 then d.ifindex else old(d.iflink)
      ensures d.ifindex !in held && forall e :: e in devs ==> e.ifindex != d.ifindex
    {
      hide Valid, Infos, Held, Snapshot, Between;
      Members();
      d.ifindex := NewIndex(counter);
      if d.iflink == -1 {
        d.iflink := d.ifindex;
      }
    }

    /** rollback_registered. */
    method RollbackRegistered(d: Device)
      requires Valid() && (d in devs || d.regState == Uninitialized)
      modifies `base, `devs, names, indexes, d`regState, d`isUp
      ensures Valid()
      ensures old(d.regState) == Uninitialized ==> Snapshot() == old(Snapshot()) && d.regState == Uninitialized
      ensures old(d.regState) != Uninitialized ==>
        && InRange(old(Snapshot()), d) && Snapshot() == Unlisted(old(Snapshot()), d) && devs == old(devs) - {d}
        && d.regState == Unregistering && !d.isUp
    {
      hide RemoveElement, Valid, Infos, Unlisted;
      if d.regState == Uninitialized {
        return;
      }
      d.isUp := false;
      UnlistNetdevice(d);
      d.regState := Unregistering;
    }

    // ---------------------------- moving between namespaces ----------------------------

    ghost predicate Apart(other: Net) {
      this != other && {names, indexes} !! {other.names, other.indexes}
    }

    /** dev_change_net_namespace.  `name` is the name it settles on, and `unit` what getting one
        from the pattern returned. */
    method ChangeNetNamespace(d: Device, net: Net, pat: Option<string>, page: bool, counter: IndexCounter)
      returns (ret: int, ghost unit: int, ghost name: string)
      requires Valid() && net.Valid() && counter.Valid() && |net.devs| < INT_MAX && (net == this || Apart(net))
      requires d.net == this && (d.regState == Registered ==> d in devs)
      modifies `base, `devs, names, indexes, net`base, net`devs, net.names, net.indexes, counter, d
      ensures Valid() && net.Valid() && counter.Valid()
      ensures ret != 0 || net == this ==> devs == old(devs) && net.devs == old(net.devs)
      ensures ret != 0 || net == this ==>
        Snapshot() == old(Snapshot()) && net.Snapshot() == old(net.Snapshot()) && d.View() == old(d.View())
      ensures old(d.netnsLocal || d.regState != Registered) ==> ret == -EINVAL
      ensures old(!d.netnsLocal && d.regState == Registered) ==>
        if net == this then ret == 0 else old(net.Settles(d.name, pat, page, ret, unit, name))
      ensures ret == 0 && net != this ==>
        && devs == old(devs) - {d} && net.devs == old(net.devs) + {d} && d.net == net && d.name == name
        && d.ifindex !in old(Held(net.Infos()))
        && (old(d.ifindex) !in old(Held(net.Infos())) ==> d.ifindex == old(d.ifindex))
        && d.iflink == (if old(d.iflink == d.ifindex) then d.ifindex else old(d.iflink))
        && !d.isUp
    {
      hide RemoveElement, Valid, Infos, Held, Unlisted, Snapshot, InRange, Settles;
      unit, name := 0, d.name;
      if d.netnsLocal || d.regState != Registered {
        return -EINVAL, unit, name;
      }
      if d.net == net {
        return 0, unit, name;
      }
      ListedSays(d);
      if d in net.devs { net.ListedSays(d); }
      var destname;
      ret, destname, unit := net.DestName(d.name, pat, page);
      name := destname;
      if ret != 0 {
        return;
      }
      MoveTo(net, d, destname, counter, Held(net.Infos()));
    }

    /** The move itself. */
    method MoveTo(net: Net, d: Device, name: string, counter: IndexCounter, ghost held: set<int>)
      requires Valid() && net.Valid() && counter.Valid() && |net.devs| < INT_MAX && Apart(net)
      requires d in devs && d !in net.devs && d.regState == Registered && d.ifindex > 0
      requires held == Held(net.Infos()) && forall e :: e in net.devs ==> e.name != name
      modifies `base, `devs, names, indexes, net`base, net`devs, net.names, net.indexes, counter, d
      ensures Valid() && net.Valid() && counter.Valid()
      ensures devs == old(devs) - {d} && net.devs == old(net.devs) + {d} && d.net == net && d.name == name
      ensures d.ifindex !in held && (old(d.ifindex) !in held ==> d.ifindex == old(d.ifindex))
      ensures d.iflink == (if old(d.iflink == d.ifindex) then d.ifindex else old(d.iflink))
      ensures !d.isUp
    {
      hide RemoveElement, Valid, Infos, Held, Snapshot;
      Leave(net, d);
      Enter(net, d, name, counter, held);
    }

    /** The far half, which this namespace does not notice. */
    method Enter(net: Net, d: Device, name: string, counter: IndexCounter, ghost held: set<int>)
      requires Valid() && net.Valid() && counter.Valid() && |net.devs| < INT_MAX && Apart(net)
      requires d !in devs && d !in net.devs && d.regState == Registered && d.ifindex > 0
      requires held == Held(net.Infos()) && forall e :: e in net.devs ==> e.name != name
      modifies net`base, net`devs, net.names, net.indexes, counter
      modifies d`net, d`name, d`ifindex, d`iflink, d`nameSlot, d`indexSlot
      ensures Valid() && net.Valid() && counter.Valid()
      ensures net.devs == old(net.devs) + {d} && d.net == net && d.name == name
      ensures d.ifindex !in held && (old(d.ifindex) !in held ==> d.ifindex == old(d.ifindex))
      ensures d.iflink == if old(d.iflink == d.ifindex) then d.ifindex else old(d.iflink)
    {
      hide Valid, Infos, Held;
      net.Adopt(d, name, counter, held);
    }

    /** The near half of the move, which `net` does not notice. */
    method Leave(net: Net, d: Device)
      requires Valid() && net.Valid() && Apart(net) && d in devs && d !in net.devs
      modifies `base, `devs, names, indexes, d`isUp
      ensures !d.isUp && Valid() && net.Valid() && devs == old(devs) - {d} && net.Infos() == old(net.Infos())
    {
      hide RemoveElement, Valid, Infos, Unlisted, Snapshot, InRange;
      d.isUp := false;
      UnlistNetdevice(d);
    }

    /** Whether a device called `own` can come here, and what it will be called. */
    ghost predicate Settles(own: string, pat: Option<string>, page: bool, ret: int, unit: int, name: string)
      requires Valid()
      reads this, names, indexes, devs
    {
      if forall e :: e in devs ==> e.name != own then ret == 0 && name == own
      else if pat == None || !ValidName(pat.value) then ret == -EEXIST
      else Picks(pat.value, page, unit, name) && ret == if unit >= 0 then 0 else -EEXIST
    }

    method DestName(own: string, pat: Option<string>, page: bool) returns (ret: int, name: string, ghost unit: int)
      requires Valid()
      ensures Settles(own, pat, page, ret, unit, name)
      ensures ret == 0 ==> forall e :: e in devs ==> e.name != name
    {
      hide Sound, Allocates;
      Members();
      name, unit := own, 0;
      var taken := GetByName(name);
      if taken == null {
        return 0, name, unit;
      }
      if pat == None || !ValidName(pat.value) {
        return -EEXIST, name, unit;
      }
      if '%' in pat.value {
        var i, buf := AllocDevName(pat.value, page);
        name, unit := buf, i;
        if i < 0 {
          return -EEXIST, name, unit;
        }
      } else {
        name := pat.value;
      }
      taken := GetByName(name);
      ret := 0;
      if taken != null {
        ret, unit := -EEXIST, -EEXIST;
      }
    }

    /** The far half of the move: `d`, on no list, enters this namespace. */
    method Adopt(d: Device, name: string, counter: IndexCounter, ghost held: set<int>)
      requires Valid() && counter.Valid() && |devs| < INT_MAX && held == Held(Infos())
      requires d !in devs && d.regState == Registered && d.ifindex > 0
      requires forall e :: e in devs ==> e.name != name
      modifies `base, `devs, names, indexes, counter
      modifies d`net, d`name, d`ifindex, d`iflink, d`nameSlot, d`indexSlot
      ensures Valid() && counter.Valid() && devs == old(devs) + {d} && base == old(base) + [d]
      ensures d.net == this && d.name == name
      ensures old(d.ifindex) !in held ==> d.ifindex == old(d.ifindex)
      ensures d.ifindex !in held
      ensures d.iflink == if old(d.iflink == d.ifindex) then d.ifindex else old(d.iflink)
    {
      hide RemoveElement, Valid, Infos, Held, Listed, Snapshot, InRange;
      Claim(d, name);
      SettleIndex(d, counter, held);
      Enlist(d);
    }

    method Enlist(d: Device)
      requires Valid() && d !in devs && d.net == this && d.regState == Registered && d.ifindex > 0
      requires forall e :: e in devs ==> e.name != d.name && e.ifindex != d.ifindex
      modifies `base, `devs, names, indexes, d`nameSlot, d`indexSlot
      ensures Valid() && base == old(base) + [d] && devs == old(devs) + {d}
    {
      ListNetdevice(d);
    }

    method Claim(d: Device, name: string)
      requires Valid() && d !in devs
      modifies d`net, d`name
      ensures Valid() && Infos() == old(Infos()) && d.net == this && d.name == name
    {
      hide Valid, Infos;
      d.net := this;
      d.name := name;
    }

    /** The number stays unless it is taken here. */
    method SettleIndex(d: Device, counter: IndexCounter, ghost held: set<int>)
      requires Valid() && counter.Valid() && |devs| < INT_MAX && d !in devs && d.ifindex > 0 && held == Held(Infos())
      modifies counter, d`ifindex, d`iflink
      ensures Valid() && counter.Valid() && Snapshot() == old(Snapshot()) && Infos() == old(Infos())
      ensures old(d.ifindex) !in held ==> d.ifindex == old(d.ifindex)
      ensures d.ifindex > 0 && d.ifindex !in held && forall e :: e in devs ==> e.ifindex != d.ifindex
      ensures d.iflink == if old(d.iflink == d.ifindex) then d.ifindex else old(d.iflink)
    {
      hide Valid, Infos, Held, Snapshot;
      Members();
      var clash := GetByIndex(d.ifindex);
      if clash != null {
        var iflink := d.iflink == d.ifindex;
        d.ifindex := NewIndex(counter);
        if iflink {
          d.iflink := d.ifindex;
        }
      }
    }
  }

  lemma SlotsAdd(info: map<Device, Info>, d: Device, i: Info)
    ensures NameSlots(info[d := i]) == NameSlots(info)[d := i.nameSlot]
    ensures IndexSlots(info[d := i]) == IndexSlots(info)[d := i.indexSlot]
  {
  }

  lemma SlotsRename(info: map<Device, Info>, d: Device, name: string, slot: nat)
    requires d in info
    ensures var now := info[d := info[d].(name := name, nameSlot := slot)];
      && now.Keys == info.Keys && IndexSlots(now) == IndexSlots(info)
      && NameSlots(now) == (NameSlots(info) - {d})[d := slot]
  {
  }

  lemma SlotsRemove(info: map<Device, Info>, d: Device)
    ensures NameSlots(info - {d}) == NameSlots(info) - {d}
    ensures IndexSlots(info - {d}) == IndexSlots(info) - {d}
  {
  }

  lemma KeyedRemove(info: map<Device, Info>, net: Net, hash: string -> nat, d: Device)
    requires Keyed(info, net, hash)
    ensures Keyed(info - {d}, net, hash)
  {
  }

  lemma KeyedAdd(info: map<Device, Info>, net: Net, hash: string -> nat, d: Device, i: Info)
    requires Keyed(info, net, hash)
    requires i.net == net && i.regState == Registered && i.ifindex > 0
    requires i.nameSlot == NameSlotOf(hash, i.name) && i.indexSlot == IndexSlotOf(i.ifindex)
    requires forall e :: e in info && e != d ==> info[e].name != i.name && info[e].ifindex != i.ifindex
    ensures Keyed(info[d := i], net, hash)
  {
  }

  lemma NoDuplicatesSnoc<T>(s: seq<T>, x: T)
    requires NoDuplicates(s) && x !in s
    ensures NoDuplicates(s + [x])
  {
  }
}
