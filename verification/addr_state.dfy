/** The reference-counted address lists of a network device, as values: one entry an
    address, newest first, with the users it has and whether it is mirrored elsewhere. */
module AddrState {
  import opened Errno
  import opened Lists

  newtype byte = x: int | 0 <= x < 256
  type Addr = seq<byte>

  // struct dev_addr_list; `global` is da_gusers
  datatype Entry = Entry(addr: Addr, users: int, global: bool, synced: bool)
  type AddrSeq = seq<Entry>

  /** The position of the first entry for `a`, -1 if there is none. */
  function Find(l: AddrSeq, a: Addr): (k: int)
    ensures -1 <= k < |l|
    ensures k >= 0 ==> l[k].addr == a
    ensures forall i {:trigger l[i]} :: 0 <= i < |l| && (k < 0 || i < k) ==> l[i].addr != a
  {
    if l == [] then -1
    else if l[0].addr == a then 0
    else
      var k := Find(l[1..], a);
      assert forall i {:trigger l[i]} :: 0 < i < |l| ==> l[i] == l[1..][i - 1];
      if k < 0 then -1 else k + 1
  }

  /** Drops one user of the entry at `k`, and with the last one the entry. */
  function DropUser(l: AddrSeq, k: nat): (r: AddrSeq)
    requires k < |l|
  {
    if l[k].users - 1 != 0 then l[k := l[k].(users := l[k].users - 1)] else Without(l, k)
  }

  /** __dev_addr_delete: the list afterwards and the error. */
  function Delete(l: AddrSeq, a: Addr, glbl: bool): (r: (AddrSeq, int)) {
    var k := Find(l, a);
    if k < 0 then (l, -ENOENT)
    else if glbl then
      if !l[k].global then (l, -ENOENT) else (DropUser(l[k := l[k].(global := false)], k), 0)
    else (DropUser(l, k), 0)
  }

  /** __dev_addr_add; `mem` tells whether an allocation would succeed. */
  function Add(l: AddrSeq, a: Addr, glbl: bool, mem: bool): (r: (AddrSeq, int)) {
    var k := Find(l, a);
    if k >= 0 then
      if glbl && l[k].global then (l, 0)
      else (l[k := l[k].(users := l[k].users + 1, global := l[k].global || glbl)], 0)
    else if !mem then (l, -ENOMEM)
    else ([Entry(a, 1, glbl, false)] + l, 0)
  }

  /** Two lists during a sync, with the number of allocations still to succeed. */
  datatype Pair = Pair(to: AddrSeq, from: AddrSeq, mem: nat, err: int)

  /** __dev_addr_sync from the `i`-th entry of the source on. */
  function SyncFrom(p: Pair, i: nat): (r: Pair)
    requires i <= |p.from|
    decreases |p.from| - i
  {
    if i == |p.from| then p.(err := 0)
    else
      var da := p.from[i];
      if !da.synced then
        var (to, err) := Add(p.to, da.addr, false, p.mem > 0);
        if err < 0 then p.(to := to, err := err)
        else
          var mem := if Find(p.to, da.addr) >= 0 then p.mem else p.mem - 1;
          SyncFrom(Pair(to, p.from[i := da.(synced := true, users := da.users + 1)], mem, 0), i + 1)
      else if da.users == 1 then
        SyncFrom(p.(to := Delete(p.to, da.addr, false).0, from := Without(p.from, i)), i)
      else SyncFrom(p, i + 1)
  }

  function Sync(to: AddrSeq, from: AddrSeq, mem: nat): Pair {
    SyncFrom(Pair(to, from, mem, 0), 0)
  }

  /** __dev_addr_unsync from the `i`-th entry of the source on. */
  function UnsyncFrom(to: AddrSeq, from: AddrSeq, i: nat): (r: (AddrSeq, AddrSeq))
    requires i <= |from|
    decreases |from| - i
  {
    if i == |from| then (to, from)
    else
      var da := from[i];
      if da.synced then
        var to' := Delete(to, da.addr, false).0;
        var from' := DropUser(from[i := da.(synced := false)], i);
        UnsyncFrom(to', from', if |from'| < |from| then i else i + 1)
      else UnsyncFrom(to, from, i + 1)
  }

  function Unsync(to: AddrSeq, from: AddrSeq): (AddrSeq, AddrSeq) {
    UnsyncFrom(to, from, 0)
  }

  // ------------------------------ what lists look like -------------------------------

  ghost predicate Unique(l: AddrSeq) {
    forall i, j :: 0 <= i < |l| && 0 <= j < |l| && l[i].addr == l[j].addr ==> i == j
  }

  /** One entry an address, and no entry without a user. */
  ghost predicate Sane(l: AddrSeq) {
    Unique(l) && forall i :: 0 <= i < |l| ==> l[i].users >= 1
  }

  function Users(l: AddrSeq, a: Addr): int {
    var k := Find(l, a); if k < 0 then 0 else l[k].users
  }

  predicate Synced(l: AddrSeq, a: Addr) {
    var k := Find(l, a); k >= 0 && l[k].synced
  }

  predicate Global(l: AddrSeq, a: Addr) {
    var k := Find(l, a); k >= 0 && l[k].global
  }

  lemma FindAt(l: AddrSeq, k: nat)
    requires k < |l| && Unique(l)
    ensures Find(l, l[k].addr) == k
  {
  }
}
