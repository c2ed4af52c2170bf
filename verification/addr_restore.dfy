/** Syncing a list that mirrors nothing yet and then unsyncing it leaves no trace. */
module AddrRestore {
  import opened Lists
  import opened AddrState

  function PlainAdd(l: AddrSeq, a: Addr): AddrSeq {
    Add(l, a, false, true).0
  }

  function PlainDelete(l: AddrSeq, a: Addr): AddrSeq {
    Delete(l, a, false).0
  }

  function AddAll(l: AddrSeq, s: AddrSeq): AddrSeq
    decreases |s|
  {
    if s == [] then l else AddAll(PlainAdd(l, s[0].addr), s[1..])
  }

  function DeleteAll(l: AddrSeq, s: AddrSeq): AddrSeq
    decreases |s|
  {
    if s == [] then l else DeleteAll(PlainDelete(l, s[0].addr), s[1..])
  }

  lemma FindIsThere(l: AddrSeq, a: Addr, k: nat)
    requires k < |l| && l[k].addr == a && forall i :: 0 <= i < k ==> l[i].addr != a
    ensures Find(l, a) == k
  {
  }

  lemma FindIsNot(l: AddrSeq, a: Addr)
    requires forall i :: 0 <= i < |l| ==> l[i].addr != a
    ensures Find(l, a) == -1
  {
  }

  /** Deleting what was just added undoes it exactly. */
  lemma DeleteUndoesAdd(l: AddrSeq, a: Addr)
    requires Sane(l)
    ensures PlainDelete(PlainAdd(l, a), a) == l
  {
    var k, m := Find(l, a), PlainAdd(l, a);
    if k >= 0 {
      FindIsThere(m, a, k);
      assert PlainDelete(m, a) == l[k := l[k].(users := l[k].users + 1)][k := l[k]] == l;
    } else {
      FindIsThere(m, a, 0);
      assert Without(m, 0) == l;
    }
  }

  lemma AddKeepsSane(l: AddrSeq, a: Addr)
    requires Sane(l)
    ensures Sane(PlainAdd(l, a))
  {
    var m := PlainAdd(l, a);
    forall i, j | 0 <= i < |m| && 0 <= j < |m| && m[i].addr == m[j].addr ensures i == j {
    }
  }

  /** Adding one address and deleting another can be done in either order. */
  lemma DeleteAddCommute(l: AddrSeq, a: Addr, b: Addr)
    requires Sane(l) && a != b
    ensures PlainDelete(PlainAdd(l, b), a) == PlainAdd(PlainDelete(l, a), b)
  {
    if Find(l, a) < 0 {
      FindIsNot(PlainAdd(l, b), a);
    } else if Find(l, b) >= 0 {
      CommuteBothThere(l, a, b, Find(l, a), Find(l, b));
    } else {
      CommuteNew(l, a, b, Find(l, a));
    }
  }

  lemma CommuteBothThere(l: AddrSeq, a: Addr, b: Addr, k: nat, j: nat)
    requires Sane(l) && a != b && k == Find(l, a) && j == Find(l, b)
    ensures PlainDelete(PlainAdd(l, b), a) == PlainAdd(PlainDelete(l, a), b)
  {
    var d, e := PlainDelete(l, a), l[j].(users := l[j].users + 1);
    var j' := if l[k].users == 1 && j > k then j - 1 else j;
    FindIsThere(l[j := e], a, k);
    FindIsThere(d, b, j');
    hide Find, Without;
    UpdatesCommute(l, k, j, d, e);
  }

  lemma UpdatesCommute(l: AddrSeq, k: nat, j: nat, d: AddrSeq, e: Entry)
    requires k < |l| && j < |l| && k != j && d == DropUser(l, k)
    ensures DropUser(l[j := e], k) == d[(if l[k].users == 1 && j > k then j - 1 else j) := e]
  {
  }

  lemma CommuteNew(l: AddrSeq, a: Addr, b: Addr, k: nat)
    requires Sane(l) && a != b && k == Find(l, a) && Find(l, b) < 0
    ensures PlainDelete(PlainAdd(l, b), a) == PlainAdd(PlainDelete(l, a), b)
  {
    var m, d, e := PlainAdd(l, b), PlainDelete(l, a), Entry(b, 1, false, false);
    FindIsThere(m, a, k + 1);
    FindIsNot(d, b);
    if l[k].users == 1 {
      assert Without([e] + l, k + 1) == [e] + Without(l, k);
    } else {
      assert ([e] + l)[k + 1 := d[k]] == [e] + l[k := d[k]];
    }
  }

  lemma {:induction false} DeletePastAddAll(l: AddrSeq, s: AddrSeq, a: Addr)
    requires Sane(l) && forall i :: 0 <= i < |s| ==> s[i].addr != a
    ensures PlainDelete(AddAll(l, s), a) == AddAll(PlainDelete(l, a), s)
    decreases |s|
  {
    hide PlainAdd, PlainDelete;
    if s != [] {
      AddKeepsSane(l, s[0].addr);
      DeletePastAddAll(PlainAdd(l, s[0].addr), s[1..], a);
      DeleteAddCommute(l, a, s[0].addr);
    }
  }

  lemma {:induction false} DeleteAllUndoesAddAll(l: AddrSeq, s: AddrSeq)
    requires Sane(l) && Unique(s)
    ensures DeleteAll(AddAll(l, s), s) == l
    decreases |s|
  {
    hide PlainAdd, PlainDelete;
    if s != [] {
      var a, rest := s[0].addr, s[1..];
      AddKeepsSane(l, a);
      DeletePastAddAll(PlainAdd(l, a), rest, a);
      DeleteUndoesAdd(l, a);
      DeleteAllUndoesAddAll(l, rest);
    }
  }

  /** `s` with every entry mirrored. */
  function Mirrored(s: AddrSeq): AddrSeq {
    seq(|s|, i requires 0 <= i < |s| => Mirror(s[i]))
  }

  function Mirror(e: Entry): Entry {
    e.(synced := true, users := e.users + 1)
  }

  lemma MirroredNil(s: AddrSeq)
    ensures s[..|s|] + Mirrored(s[|s|..]) == s
  {
  }

  lemma MirroredStep(s: AddrSeq, i: nat)
    requires i < |s|
    ensures s[i := Mirror(s[i])][..i + 1] + Mirrored(s[i + 1..]) == s[..i] + Mirrored(s[i..])
  {
  }

  lemma SyncStep(p: Pair, i: nat) returns (q: Pair)
    requires i < |p.from| && !p.from[i].synced && SyncFrom(p, i).err == 0
    ensures q.to == PlainAdd(p.to, p.from[i].addr) && q.from == p.from[i := Mirror(p.from[i])]
    ensures SyncFrom(p, i) == SyncFrom(q, i + 1)
  {
    var da := p.from[i];
    var mem := if Find(p.to, da.addr) >= 0 then p.mem else p.mem - 1;
    q := Pair(PlainAdd(p.to, da.addr), p.from[i := Mirror(da)], mem, 0);
  }

  lemma {:induction false} SyncMirrors(p: Pair, i: nat)
    requires i <= |p.from| && SyncFrom(p, i).err == 0
    requires forall j :: i <= j < |p.from| ==> !p.from[j].synced
    ensures SyncFrom(p, i).to == AddAll(p.to, p.from[i..])
    ensures SyncFrom(p, i).from == p.from[..i] + Mirrored(p.from[i..])
    decreases |p.from| - i
  {
    hide Mirrored;
    if i == |p.from| {
      MirroredNil(p.from);
    } else {
      var q := SyncStep(p, i);
      hide SyncFrom, PlainAdd;
      SyncMirrors(q, i + 1);
      assert p.from[i..][1..] == p.from[i + 1..] == q.from[i + 1..];
      MirroredStep(p.from, i);
    }
  }

  lemma {:induction false} UnsyncRestores(to: AddrSeq, s: AddrSeq, i: nat)
    requires i <= |s| && forall j :: 0 <= j < |s| ==> !s[j].synced && s[j].users >= 1
    ensures UnsyncFrom(to, s[..i] + Mirrored(s[i..]), i) == (DeleteAll(to, s[i..]), s)
    decreases |s| - i
  {
    var from := s[..i] + Mirrored(s[i..]);
    if i == |s| {
      assert from == s;
    } else {
      var da := from[i];
      assert da == s[i].(synced := true, users := s[i].users + 1);
      var from' := DropUser(from[i := da.(synced := false)], i);
      assert from' == s[..i + 1] + Mirrored(s[i + 1..]);
      assert s[i..][1..] == s[i + 1..];
      UnsyncRestores(PlainDelete(to, da.addr), s, i + 1);
    }
  }

  /** A successful sync of a source that mirrors nothing, followed by an unsync, restores
      both lists exactly: the same entries in the same order with the same users. */
  lemma SyncThenUnsyncRestores(to: AddrSeq, from: AddrSeq, mem: nat)
    requires Sane(to) && Sane(from) && forall i :: 0 <= i < |from| ==> !from[i].synced
    requires Sync(to, from, mem).err == 0
    ensures var r := Sync(to, from, mem); Unsync(r.to, r.from) == (to, from)
  {
    SyncMirrors(Pair(to, from, mem, 0), 0);
    assert from[..0] + Mirrored(from[0..]) == Sync(to, from, mem).from && from[0..] == from;
    UnsyncRestores(Sync(to, from, mem).to, from, 0);
    DeleteAllUndoesAddAll(to, from);
  }
}
