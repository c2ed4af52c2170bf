/** The address lists on the heap: singly linked, edited through a pointer to the link
    that leads to an entry.  Each operation is proved to be that of module AddrState. */
module AddrList {
  import opened Errno
  import opened Lists
  import opened AddrState

  class AddrNode {
    const addr: Addr
    var next: AddrNode?
    var users: int
    var global: bool
    var synced: bool

    constructor (addr: Addr, glbl: bool)
      ensures this.addr == addr && users == 1 && global == glbl && !synced && next == null
    {
      this.addr := addr;
      next, users, global, synced := null, 1, glbl, false;
    }

    ghost function View(): Entry
      reads this
    {
      Entry(addr, users, global, synced)
    }
  }

  class AddrList {
    var head: AddrNode?
    var count: int
    ghost var nodes: seq<AddrNode>
    ghost var view: AddrSeq

    ghost predicate Valid()
      reads this, nodes
    {
      && head == (if nodes == [] then null else nodes[0])
      && (forall i {:trigger nodes[i].next} :: 0 <= i < |nodes| ==>
            nodes[i].next == if i + 1 < |nodes| then nodes[i + 1] else null)
      && (forall i, j :: 0 <= i < j < |nodes| ==> nodes[i] != nodes[j])
      && count == |nodes| == |view|
      && (forall i :: 0 <= i < |nodes| ==> view[i] == nodes[i].View())
    }

    constructor ()
      ensures Valid() && view == [] && nodes == []
    {
      head, count := null, 0;
      nodes, view := [], [];
    }

    /** The walk to the entry for `a`: `prev` is the entry before it, null at the head. */
    method Walk(a: Addr) returns (prev: AddrNode?, da: AddrNode?, ghost k: int)
      requires Valid()
      ensures k == Find(view, a) && (da == null <==> k < 0)
      ensures k >= 0 ==> da == nodes[k] && prev == if k == 0 then null else nodes[k - 1]
    {
      prev, da := null, head;
      k := 0;
      while da != null && da.addr != a
        invariant 0 <= k <= |nodes|
        invariant da == if k < |nodes| then nodes[k] else null
        invariant prev == if k == 0 then null else nodes[k - 1]
        invariant forall i :: 0 <= i < k ==> view[i].addr != a
        decreases |nodes| - k
      {
        prev, da := da, da.next;
        k := k + 1;
      }
      FindFirst(view, a, k);
      if da == null {
        k := -1;
      }
    }

    /** Unlinks the entry at `k` through the link that leads to it. */
    method Unlink(prev: AddrNode?, da: AddrNode, ghost k: nat)
      requires Valid() && k < |nodes| && da == nodes[k] && prev == if k == 0 then null else nodes[k - 1]
      modifies `head, `count, `nodes, `view, nodes`next
      ensures Valid() && view == Without(old(view), k) && nodes == Without(old(nodes), k)
    {
      if prev == null {
        head := da.next;
      } else {
        prev.next := da.next;
      }
      count := count - 1;
      nodes, view := Without(nodes, k), Without(view, k);
    }

    method SetUsers(da: AddrNode, ghost k: nat, users: int, glbl: bool, synced: bool)
      requires Valid() && k < |nodes| && da == nodes[k]
      modifies `view, da`users, da`global, da`synced
      ensures Valid() && view == old(view)[k := Entry(da.addr, users, glbl, synced)]
    {
      da.users, da.global, da.synced := users, glbl, synced;
      view := view[k := da.View()];
    }

    /** __dev_addr_delete. */
    method Delete(a: Addr, glbl: bool) returns (err: int)
      requires Valid()
      modifies `head, `count, `nodes, `view, nodes
      ensures Valid() && (view, err) == AddrState.Delete(old(view), a, glbl)
      ensures nodes == if |view| < |old(view)| then Without(old(nodes), Find(old(view), a)) else old(nodes)
    {
      var prev, da, k := Walk(a);
      if da == null {
        return -ENOENT;
      }
      if glbl {
        var oldGlbl := da.global;
        if !oldGlbl {
          SetUsers(da, k, da.users, false, da.synced);
          assert view == old(view);
          return -ENOENT;
        }
        SetUsers(da, k, da.users, false, da.synced);
      }
      ghost var l := view;
      SetUsers(da, k, da.users - 1, da.global, da.synced);
      if da.users != 0 {
        return 0;
      }
      Unlink(prev, da, k);
      assert view == Without(l, k);
      return 0;
    }

    /** __dev_addr_add; `mem` tells whether an allocation would succeed. */
    method Add(a: Addr, glbl: bool, mem: bool) returns (err: int, grew: bool)
      requires Valid()
      modifies `head, `count, `nodes, `view, nodes
      ensures Valid() && (view, err) == AddrState.Add(old(view), a, glbl, mem)
      ensures grew == (Find(old(view), a) < 0 && mem)
      ensures if grew then |nodes| == |old(nodes)| + 1 && fresh(nodes[0]) && nodes[1..] == old(nodes)
              else nodes == old(nodes)
    {
      var prev, da, k := Walk(a);
      if da != null {
        OneMore(da, k, glbl);
        return 0, false;
      }
      if !mem {
        return -ENOMEM, false;
      }
      PutFirst(a, glbl);
      return 0, true;
    }

    /** One more user for an entry that is there; a second global one does not count. */
    method OneMore(da: AddrNode, ghost k: nat, glbl: bool)
      requires Valid() && k < |nodes| && da == nodes[k]
      modifies `view, da`users, da`global, da`synced
      ensures Valid() && var l := old(view);
        view == if glbl && l[k].global then l
                else l[k := l[k].(users := l[k].users + 1, global := l[k].global || glbl)]
    {
      if glbl {
        var oldGlbl := da.global;
        if oldGlbl {
          SetUsers(da, k, da.users, true, da.synced);
          assert view == old(view);
          return;
        }
        SetUsers(da, k, da.users, true, da.synced);
      }
      SetUsers(da, k, da.users + 1, da.global, da.synced);
      assert view == old(view)[k := da.View()];
    }

    /** A new entry, at the head. */
    method PutFirst(a: Addr, glbl: bool)
      requires Valid()
      modifies `head, `count, `nodes, `view
      ensures Valid() && view == [Entry(a, 1, glbl, false)] + old(view)
      ensures |nodes| == |old(nodes)| + 1 && fresh(nodes[0]) && nodes[1..] == old(nodes)
    {
      var da := new AddrNode(a, glbl);
      da.next := head;
      head := da;
      count := count + 1;
      nodes, view := [da] + nodes, [da.View()] + view;
    }
  }

  lemma FindFirst(l: AddrSeq, a: Addr, k: nat)
    requires k <= |l| && (k < |l| ==> l[k].addr == a)
    requires forall i :: 0 <= i < k ==> l[i].addr != a
    ensures Find(l, a) == if k < |l| then k else -1
  {
  }

  ghost predicate Apart(to: AddrList, from: AddrList)
    reads to, from
  {
    to != from && forall i, j :: 0 <= i < |to.nodes| && 0 <= j < |from.nodes| ==> to.nodes[i] != from.nodes[j]
  }

  ghost predicate Among(r: seq<AddrNode>, s: seq<AddrNode>) {
    forall j :: 0 <= j < |r| ==> r[j] in s
  }

  /** Mirrors the entry `da` of `from` in `to`. */
  method MirrorEntry(to: AddrList, from: AddrList, da: AddrNode, ghost k: nat, mem: bool) returns (err: int, grew: bool)
    requires to.Valid() && from.Valid() && Apart(to, from) && k < |from.nodes| && da == from.nodes[k]
    modifies to, to.nodes, from`view, da
    ensures to.Valid() && from.Valid() && Apart(to, from)
    ensures (to.view, err) == Add(old(to.view), da.addr, false, mem)
    ensures grew == (Find(old(to.view), da.addr) < 0 && mem)
    ensures from.nodes == old(from.nodes)
    ensures var e := old(from.view)[k];
      from.view == if err < 0 then old(from.view) else old(from.view)[k := e.(users := e.users + 1, synced := true)]
    ensures forall j :: 0 <= j < |to.nodes| ==> to.nodes[j] in old(to.nodes) || fresh(to.nodes[j])
  {
    hide Add, Find;
    err, grew := to.Add(da.addr, false, mem);
    if err >= 0 {
      from.SetUsers(da, k, da.users + 1, da.global, true);
    }
  }

  /** Takes the mirror of the entry `da` back and drops the user it was. */
  method UnmirrorEntry(to: AddrList, from: AddrList, da: AddrNode, ghost k: nat)
    requires to.Valid() && from.Valid() && Apart(to, from) && k < |from.nodes| && da == from.nodes[k]
    requires Unique(from.view)
    modifies to, to.nodes, from, from.nodes
    ensures to.Valid() && from.Valid() && Apart(to, from)
    ensures to.view == Delete(old(to.view), da.addr, false).0
    ensures from.view == DropUser(old(from.view), k)
    ensures from.nodes == if |from.view| < |old(from.view)| then Without(old(from.nodes), k) else old(from.nodes)
    ensures Among(to.nodes, old(to.nodes))
  {
    DeleteAt(from.view, k);
    hide Delete, DropUser, Find, Without;
    DeleteBeside(to, from, da.addr);
    DeleteBeside(from, to, da.addr);
  }

  /** A delete in one list leaves another alone. */
  method DeleteBeside(l: AddrList, other: AddrList, a: Addr)
    requires l.Valid() && other.Valid() && Apart(l, other)
    modifies l, l.nodes
    ensures l.Valid() && other.Valid() && Apart(l, other)
    ensures l.view == Delete(old(l.view), a, false).0
    ensures l.nodes == if |l.view| < |old(l.view)| then Without(old(l.nodes), Find(old(l.view), a)) else old(l.nodes)
    ensures Among(l.nodes, old(l.nodes))
  {
    hide Delete, Find;
    var ignored := l.Delete(a, false);
    hide Without;
  }

  lemma DeleteAt(l: AddrSeq, k: nat)
    requires k < |l| && Unique(l)
    ensures Delete(l, l[k].addr, false) == (DropUser(l, k), 0) && Find(l, l[k].addr) == k
  {
    FindAt(l, k);
  }

  method ClearSynced(from: AddrList, da: AddrNode, ghost k: nat)
    requires from.Valid() && k < |from.nodes| && da == from.nodes[k] && Unique(from.view)
    modifies from`view, da`users, da`global, da`synced
    ensures from.Valid() && Unique(from.view) && from.view == old(from.view)[k := old(from.view)[k].(synced := false)]
  {
    from.SetUsers(da, k, da.users, da.global, false);
  }

  lemma DropKeepsUnique(l: AddrSeq, k: nat)
    requires Unique(l) && k < |l|
    ensures Unique(DropUser(l, k))
    ensures l[k].users == 1 ==> DropUser(l, k) == Without(l, k)
    ensures forall e: Entry :: e.addr == l[k].addr ==> Unique(l[k := e])
  {
  }

  lemma AddError(l: AddrSeq, a: Addr, mem: bool)
    ensures var err := Add(l, a, false, mem).1;
      err <= 0 && (err < 0 <==> Find(l, a) < 0 && !mem)
  {
  }

  /** One turn of __dev_addr_sync at the entry `da`: where it leads, and what is left to do. */
  method SyncStep(to: AddrList, from: AddrList, da: AddrNode, ghost i: nat, mem: nat)
    returns (err: int, next: AddrNode?, ghost j: nat, left: nat)
    requires to.Valid() && from.Valid() && Apart(to, from) && Unique(from.view)
    requires i < |from.nodes| && da == from.nodes[i]
    modifies to, from, to.nodes, from.nodes
    ensures to.Valid() && from.Valid() && Apart(to, from) && Unique(from.view)
    ensures j <= |from.nodes| && next == (if j < |from.nodes| then from.nodes[j] else null)
    ensures err <= 0 && |from.nodes| - j < |old(from.nodes)| - i
    ensures var before := SyncFrom(Pair(old(to.view), old(from.view), mem, 0), i);
      if err < 0 then before == Pair(to.view, from.view, mem, err)
      else before == SyncFrom(Pair(to.view, from.view, left, 0), j)
    ensures Among(from.nodes, old(from.nodes))
    ensures forall k :: 0 <= k < |to.nodes| ==> to.nodes[k] in old(to.nodes) || fresh(to.nodes[k])
  {
    hide Add, Delete, DropUser, Find, Without;
    err, next, j, left := 0, da.next, i + 1, mem;
    assert from.view[i] == da.View();
    DropKeepsUnique(from.view, i);
    if !da.synced {
      AddError(to.view, da.addr, mem > 0);
      var grew;
      err, grew := MirrorEntry(to, from, da, i, mem > 0);
      if err >= 0 && grew {
        left := mem - 1;
      }
    } else if da.users == 1 {
      UnmirrorEntry(to, from, da, i);
      j := i;
    }
  }

  /** __dev_addr_sync; the first `room` allocations succeed. */
  method Sync(to: AddrList, from: AddrList, room: nat) returns (err: int)
    requires to.Valid() && from.Valid() && Apart(to, from) && Unique(from.view)
    modifies to, from, to.nodes, from.nodes
    ensures to.Valid() && from.Valid() && Apart(to, from)
    ensures var r := AddrState.Sync(old(to.view), old(from.view), room);
      to.view == r.to && from.view == r.from && err == r.err
  {
    err := 0;
    var mem := room;
    var da := from.head;
    ghost var i, answer := 0, AddrState.Sync(to.view, from.view, room);
    SyncEnds(Pair(to.view, from.view, room, 0));
    Shape(from);
    hide AddrList.Valid, Add, Delete, DropUser, Find, Without, SyncFrom;
    while da != null
      invariant to.Valid() && from.Valid() && Apart(to, from) && Unique(from.view)
      invariant 0 <= i <= |from.nodes| && da == if i < |from.nodes| then from.nodes[i] else null
      invariant err == 0 && mem >= 0 && SyncFrom(Pair(to.view, from.view, mem, 0), i) == answer
      invariant Among(from.nodes, old(from.nodes))
      invariant forall j :: 0 <= j < |to.nodes| ==> to.nodes[j] in old(to.nodes) || fresh(to.nodes[j])
      decreases |from.nodes| - i
    {
      err, da, i, mem := SyncStep(to, from, da, i, mem);
      if err < 0 {
        return;
      }
    }
    Shape(from);
    SyncEnds(Pair(to.view, from.view, mem, 0));
  }

  lemma Shape(l: AddrList)
    requires l.Valid()
    ensures |l.nodes| == |l.view| && l.head == if l.nodes == [] then null else l.nodes[0]
  {
  }

  lemma SyncEnds(p: Pair)
    ensures SyncFrom(p, |p.from|) == p.(err := 0) && AddrState.Sync(p.to, p.from, p.mem) == SyncFrom(p.(err := 0), 0)
  {
  }

  method UnsyncEntry(to: AddrList, from: AddrList, da: AddrNode, ghost k: nat)
    requires to.Valid() && from.Valid() && Apart(to, from) && k < |from.nodes| && da == from.nodes[k]
    requires Unique(from.view)
    modifies to, to.nodes, from, from.nodes
    ensures to.Valid() && from.Valid() && Apart(to, from) && Unique(from.view)
    ensures to.view == Delete(old(to.view), da.addr, false).0
    ensures from.view == DropUser(old(from.view)[k := old(from.view)[k].(synced := false)], k)
    ensures from.nodes == if |from.view| < |old(from.view)| then Without(old(from.nodes), k) else old(from.nodes)
    ensures Among(to.nodes, old(to.nodes))
  {
    hide Delete, DropUser, Find, Without;
    ClearSynced(from, da, k);
    DropKeepsUnique(from.view, k);
    UnmirrorEntry(to, from, da, k);
  }

  /** __dev_addr_unsync. */
  method Unsync(to: AddrList, from: AddrList)
    requires to.Valid() && from.Valid() && Apart(to, from) && Unique(from.view)
    modifies to, from, to.nodes, from.nodes
    ensures to.Valid() && from.Valid() && Apart(to, from)
    ensures (to.view, from.view) == AddrState.Unsync(old(to.view), old(from.view))
  {
    var da := from.head;
    ghost var i, answer := 0, AddrState.Unsync(to.view, from.view);
    Shape(from);
    UnsyncEnds(to.view, from.view);
    hide AddrList.Valid, Delete, DropUser, Find, Without, UnsyncFrom;
    while da != null
      invariant to.Valid() && from.Valid() && Apart(to, from) && Unique(from.view)
      invariant 0 <= i <= |from.nodes| == |from.view| && da == if i < |from.nodes| then from.nodes[i] else null
      invariant UnsyncFrom(to.view, from.view, i) == answer
      invariant Among(from.nodes, old(from.nodes))
      invariant Among(to.nodes, old(to.nodes))
      decreases |from.nodes| - i
    {
      da, i := UnsyncStep(to, from, da, i);
      Shape(from);
    }
    UnsyncEnds(to.view, from.view);
  }

  method UnsyncStep(to: AddrList, from: AddrList, da: AddrNode, ghost i: nat) returns (next: AddrNode?, ghost j: nat)
    requires to.Valid() && from.Valid() && Apart(to, from) && Unique(from.view)
    requires i < |from.nodes| == |from.view| && da == from.nodes[i]
    modifies to, from, to.nodes, from.nodes
    ensures to.Valid() && from.Valid() && Apart(to, from) && Unique(from.view)
    ensures j <= |from.nodes| == |from.view| && next == (if j < |from.nodes| then from.nodes[j] else null)
    ensures |from.nodes| - j < |old(from.nodes)| - i
    ensures UnsyncFrom(to.view, from.view, j) == UnsyncFrom(old(to.view), old(from.view), i)
    ensures Among(from.nodes, old(from.nodes)) && Among(to.nodes, old(to.nodes))
  {
    hide Delete, DropUser, Find, Without;
    next, j := da.next, i + 1;
    assert from.view[i] == da.View();
    ghost var n := |from.view|;
    if da.synced {
      UnsyncEntry(to, from, da, i);
      j := if |from.view| < n then i else i + 1;
    }
  }

  lemma UnsyncEnds(to: AddrSeq, from: AddrSeq)
    ensures UnsyncFrom(to, from, |from|) == (to, from) && AddrState.Unsync(to, from) == UnsyncFrom(to, from, 0)
  {
  }
}
