/** Mirroring the address lists of several source devices into one destination, over any
    interleaving of adds, deletes, syncs and unsyncs: every reference is accounted for. */
module AddrMirror {
  import opened Errno
  import opened Lists
  import opened AddrState

  /** The outside users of the addresses of one list: how many plain ones, and whether a
      global one. */
  datatype Owners = Owners(plain: Addr -> nat, global: Addr -> bool) {
    ghost function Held(a: Addr): nat {
      plain(a) + if global(a) then 1 else 0
    }

    ghost function Gain(a: Addr, glbl: bool): Owners {
      if glbl then Owners(plain, b => b == a || global(b))
      else Owners(b => PlusOneIf(plain(b), b == a), global)
    }

    ghost function Lose(a: Addr, glbl: bool): Owners {
      if glbl then Owners(plain, b => b != a && global(b))
      else Owners(b => MinusOneIf(plain(b), b == a), global)
    }

    /** A user gives back only what it has. */
    ghost predicate Has(a: Addr, glbl: bool) {
      if glbl then global(a) else plain(a) > 0
    }
  }

  function PlusOneIf(n: nat, c: bool): nat {
    if c then n + 1 else n
  }

  function MinusOneIf(n: nat, c: bool): nat {
    if c && n > 0 then n - 1 else n
  }

  datatype Web = Web(dest: AddrSeq, own: Owners, sources: seq<AddrSeq>, owners: seq<Owners>)

  /** How many of the sources hold `a` as mirrored. */
  function Mirrors(sources: seq<AddrSeq>, a: Addr): (n: nat) {
    if sources == [] then 0
    else Mirrors(sources[..|sources| - 1], a) + if Synced(sources[|sources| - 1], a) then 1 else 0
  }

  ghost predicate SourceOk(l: AddrSeq, o: Owners) {
    && Sane(l)
    && (forall a :: Users(l, a) == o.Held(a) + if Synced(l, a) then 1 else 0)
    && (forall a :: Global(l, a) == o.global(a))
  }

  /** Every user count is explained: in a source, by the outside users and the mirroring;
      in the destination, by its own users and the sources that mirror the address. */
  ghost predicate Balanced(w: Web) {
    && |w.sources| == |w.owners|
    && (forall s :: 0 <= s < |w.sources| ==> SourceOk(w.sources[s], w.owners[s]))
    && Sane(w.dest)
    && (forall a :: Users(w.dest, a) == w.own.Held(a) + Mirrors(w.sources, a))
    && (forall a :: Global(w.dest, a) == w.own.global(a))
  }

  // ---------------------- adds and deletes by what they count ------------------------

  lemma FoundAt(l: AddrSeq, a: Addr, k: int)
    requires Unique(l) && -1 <= k < |l|
    requires if k < 0 then forall i :: 0 <= i < |l| ==> l[i].addr != a else l[k].addr == a
    ensures Find(l, a) == k
  {
  }

  lemma UpdateEffect(l: AddrSeq, k: nat, e: Entry)
    requires Sane(l) && k < |l| && e.addr == l[k].addr && e.users >= 1
    ensures Sane(l[k := e])
    ensures forall b :: Find(l[k := e], b) == Find(l, b)
  {
    var m := l[k := e];
    forall b ensures Find(m, b) == Find(l, b) {
      FoundAt(m, b, Find(l, b));
    }
  }

  lemma WithoutEffect(l: AddrSeq, k: nat)
    requires Sane(l) && k < |l|
    ensures Sane(Without(l, k))
    ensures forall b :: Find(Without(l, k), b) == AfterRemoval(Find(l, b), k)
  {
    SaneWithout(l, k);
    hide Find, Sane, Unique, Without, AfterRemoval;
    forall b ensures Find(Without(l, k), b) == AfterRemoval(Find(l, b), k) {
      WithoutFinds(l, k, b, Find(l, b));
    }
  }

  lemma SaneWithout(l: AddrSeq, k: nat)
    requires Sane(l) && k < |l|
    ensures Sane(Without(l, k)) && Unique(l)
  {
    hide Without;
  }

  lemma WithoutFinds(l: AddrSeq, k: nat, b: Addr, j: int)
    requires k < |l| && Unique(l) && Unique(Without(l, k)) && j == Find(l, b)
    ensures Find(Without(l, k), b) == AfterRemoval(j, k)
  {
    hide Find, Without;
    FoundAt(Without(l, k), b, AfterRemoval(j, k));
  }

  /** Where the entry at `j` is once the one at `k` is gone. */
  function AfterRemoval(j: int, k: int): int {
    if j == k then -1 else if j > k then j - 1 else j
  }

  lemma DropUserEffect(l: AddrSeq, k: nat)
    requires Sane(l) && k < |l|
    ensures var m, a := DropUser(l, k), l[k].addr;
      && Sane(m)
      && (forall b :: Users(m, b) == Users(l, b) - if b == a then 1 else 0)
      && (forall b :: Global(m, b) <==> Global(l, b) && !(b == a && l[k].users == 1))
      && (forall b :: Synced(m, b) <==> Synced(l, b) && !(b == a && l[k].users == 1))
  {
    FindAt(l, k);
    if l[k].users == 1 {
      WithoutEffect(l, k);
    } else {
      UpdateEffect(l, k, l[k].(users := l[k].users - 1));
    }
    hide Find, Sane, Unique, Users, Global, Synced, AfterRemoval, Without;
    var m, a := DropUser(l, k), l[k].addr;
    assert Sane(m);
    forall b
      ensures Users(m, b) == Users(l, b) - if b == a then 1 else 0
      ensures Global(m, b) <==> Global(l, b) && !(b == a && l[k].users == 1)
      ensures Synced(m, b) <==> Synced(l, b) && !(b == a && l[k].users == 1)
    {
      DropUserAt(l, k, b, Find(l, b));
    }
  }

  /** The same for one address, found at `j`. */
  lemma DropUserAt(l: AddrSeq, k: nat, b: Addr, j: int)
    requires k < |l| && Find(l, b) == j && (j == k <==> b == l[k].addr)
    requires Find(DropUser(l, k), b) == if l[k].users == 1 then AfterRemoval(j, k) else j
    ensures Users(DropUser(l, k), b) == Users(l, b) - if b == l[k].addr then 1 else 0
    ensures Global(DropUser(l, k), b) <==> Global(l, b) && !(b == l[k].addr && l[k].users == 1)
    ensures Synced(DropUser(l, k), b) <==> Synced(l, b) && !(b == l[k].addr && l[k].users == 1)
  {
    hide Find;
  }

  lemma AddEffect(l: AddrSeq, a: Addr, glbl: bool, mem: bool)
    requires Sane(l)
    ensures var (m, err) := Add(l, a, glbl, mem);
      && Sane(m)
      && (err == 0 <==> mem || Find(l, a) >= 0)
      && (err != 0 ==> err == -ENOMEM && m == l)
      && (err == 0 ==>
            && (forall b :: Users(m, b) == Users(l, b) + if b == a && !(glbl && Global(l, a)) then 1 else 0)
            && (forall b :: Global(m, b) <==> Global(l, b) || (glbl && b == a))
            && (forall b :: Synced(m, b) == Synced(l, b)))
  {
    var k := Find(l, a);
    if k >= 0 {
      AddOldEffect(l, a, glbl, k);
    } else if mem {
      AddNewEffect(l, a, glbl);
    }
    hide Find, Sane, Users, Global, Synced;
  }

  lemma AddOldEffect(l: AddrSeq, a: Addr, glbl: bool, k: nat)
    requires Sane(l) && k == Find(l, a)
    ensures var m := Add(l, a, glbl, true).0;
      && Sane(m)
      && (forall b :: Users(m, b) == Users(l, b) + if b == a && !(glbl && Global(l, a)) then 1 else 0)
      && (forall b :: Global(m, b) <==> Global(l, b) || (glbl && b == a))
      && (forall b :: Synced(m, b) == Synced(l, b))
  {
    UpdateEffect(l, k, l[k].(users := l[k].users + 1, global := l[k].global || glbl));
    hide Find, Sane, Users, Global, Synced;
    var m := Add(l, a, glbl, true).0;
    forall b
      ensures Users(m, b) == Users(l, b) + if b == a && !(glbl && Global(l, a)) then 1 else 0
      ensures Global(m, b) <==> Global(l, b) || (glbl && b == a)
      ensures Synced(m, b) == Synced(l, b)
    {
      AddAt(l, a, glbl, b, Find(l, b));
    }
  }

  lemma AddNewEffect(l: AddrSeq, a: Addr, glbl: bool)
    requires Sane(l) && Find(l, a) < 0
    ensures var m := Add(l, a, glbl, true).0;
      && Sane(m)
      && (forall b :: Users(m, b) == Users(l, b) + if b == a then 1 else 0)
      && (forall b :: Global(m, b) <==> Global(l, b) || (glbl && b == a))
      && (forall b :: Synced(m, b) == Synced(l, b))
  {
    ConsEffect(l, Entry(a, 1, glbl, false));
    hide Find, Sane, Users, Global, Synced;
    var m := Add(l, a, glbl, true).0;
    forall b
      ensures Users(m, b) == Users(l, b) + if b == a then 1 else 0
      ensures Global(m, b) <==> Global(l, b) || (glbl && b == a)
      ensures Synced(m, b) == Synced(l, b)
    {
      AddAt(l, a, glbl, b, Find(l, b));
    }
  }

  /** The same for one address, found at `j`. */
  lemma AddAt(l: AddrSeq, a: Addr, glbl: bool, b: Addr, j: int)
    requires Find(l, b) == j && (b == a ==> j == Find(l, a)) && (Find(l, a) >= 0 && j == Find(l, a) ==> b == a)
    requires var m := Add(l, a, glbl, true).0;
      Find(m, b) == if Find(l, a) >= 0 then j else if b == a then 0 else if j < 0 then -1 else j + 1
    ensures var m := Add(l, a, glbl, true).0;
      && Users(m, b) == Users(l, b) + (if b == a && !(glbl && Global(l, a)) then 1 else 0)
      && (Global(m, b) <==> Global(l, b) || (glbl && b == a))
      && Synced(m, b) == Synced(l, b)
  {
    hide Find;
  }

  lemma ConsEffect(l: AddrSeq, e: Entry)
    requires Sane(l) && Find(l, e.addr) < 0 && e.users >= 1
    ensures Sane([e] + l)
    ensures forall b :: Find([e] + l, b) == if b == e.addr then 0 else if Find(l, b) < 0 then -1 else Find(l, b) + 1
  {
    var m := [e] + l;
    assert forall i :: 0 < i < |m| ==> m[i] == l[i - 1];
    forall b ensures Find(m, b) == if b == e.addr then 0 else if Find(l, b) < 0 then -1 else Find(l, b) + 1 {
      FoundAt(m, b, if b == e.addr then 0 else if Find(l, b) < 0 then -1 else Find(l, b) + 1);
    }
  }

  lemma DeleteEffect(l: AddrSeq, a: Addr, glbl: bool)
    requires Sane(l)
    ensures var (m, err) := Delete(l, a, glbl);
      && Sane(m)
      && (err == 0 <==> if glbl then Global(l, a) else Find(l, a) >= 0)
      && (err != 0 ==> err == -ENOENT && m == l)
      && (err == 0 ==>
            && (forall b :: Users(m, b) == Users(l, b) - if b == a then 1 else 0)
            && (forall b :: Global(m, b) <==> Global(l, b) && !(b == a && (glbl || Users(l, a) == 1)))
            && (forall b :: Synced(m, b) <==> Synced(l, b) && !(b == a && Users(l, a) == 1)))
  {
    var k := Find(l, a);
    if k >= 0 {
      var l' := if glbl then l[k := l[k].(global := false)] else l;
      UpdateEffect(l, k, l'[k]);
      assert l[k := l'[k]] == l';
      DropUserEffect(l', k);
    }
  }

  lemma {:induction false} MirrorsUpdate(sources: seq<AddrSeq>, s: nat, l: AddrSeq, a: Addr)
    requires s < |sources|
    ensures Mirrors(sources[s := l], a) ==
      Mirrors(sources, a) - (if Synced(sources[s], a) then 1 else 0) + (if Synced(l, a) then 1 else 0)
  {
    var n := |sources| - 1;
    if s == n {
      assert sources[s := l][..n] == sources[..n];
    } else {
      assert sources[s := l][..n] == sources[..n][s := l];
      MirrorsUpdate(sources[..n], s, l, a);
    }
  }

  lemma MirrorsUpdateAll(sources: seq<AddrSeq>, s: nat, l: AddrSeq)
    requires s < |sources|
    ensures forall a ::
      (Mirrors(sources[s := l], a) ==
       Mirrors(sources, a) - (if Synced(sources[s], a) then 1 else 0) + (if Synced(l, a) then 1 else 0))
  {
    forall a {
      MirrorsUpdate(sources, s, l, a);
    }
  }

  // ------------------------------------- events --------------------------------------

  datatype Event =
    | AddDest(a: Addr, glbl: bool, mem: bool)
    | DeleteDest(a: Addr, glbl: bool)
    | AddSource(s: nat, a: Addr, glbl: bool, mem: bool)
    | DeleteSource(s: nat, a: Addr, glbl: bool)
    | SyncSource(s: nat, room: nat)    // `room` allocations succeed
    | UnsyncSource(s: nat)
  {
    /** Sources exist, and deletes are matched: only a user that holds the address deletes. */
    ghost predicate Possible(w: Web) {
      match this
      case AddDest(_, _, _) => true
      case DeleteDest(a, glbl) => w.own.Has(a, glbl)
      case AddSource(s, _, _, _) => s < |w.sources| == |w.owners|
      case DeleteSource(s, a, glbl) => s < |w.sources| == |w.owners| && w.owners[s].Has(a, glbl)
      case SyncSource(s, _) => s < |w.sources|
      case UnsyncSource(s) => s < |w.sources|
    }
  }

  ghost function Step(w: Web, e: Event): Web
    requires e.Possible(w)
  {
    match e
    case AddDest(a, glbl, mem) =>
      var (l, err) := Add(w.dest, a, glbl, mem);
      w.(dest := l, own := if err == 0 then w.own.Gain(a, glbl) else w.own)
    case DeleteDest(a, glbl) =>
      w.(dest := Delete(w.dest, a, glbl).0, own := w.own.Lose(a, glbl))
    case AddSource(s, a, glbl, mem) =>
      var (l, err) := Add(w.sources[s], a, glbl, mem);
      w.(sources := w.sources[s := l],
         owners := if err == 0 then w.owners[s := w.owners[s].Gain(a, glbl)] else w.owners)
    case DeleteSource(s, a, glbl) =>
      w.(sources := w.sources[s := Delete(w.sources[s], a, glbl).0], owners := w.owners[s := w.owners[s].Lose(a, glbl)])
    case SyncSource(s, room) =>
      var r := Sync(w.dest, w.sources[s], room);
      w.(dest := r.to, sources := w.sources[s := r.from])
    case UnsyncSource(s) =>
      var (to, from) := Unsync(w.dest, w.sources[s]);
      w.(dest := to, sources := w.sources[s := from])
  }

  lemma DestStepBalances(w: Web, e: Event)
    requires Balanced(w) && e.Possible(w) && (e.AddDest? || e.DeleteDest?)
    ensures Balanced(Step(w, e))
  {
    hide Add, Delete, Users, Global, Synced;
    match e {
      case AddDest(a, glbl, mem) => AddEffect(w.dest, a, glbl, mem);
      case DeleteDest(a, glbl) => PresentIfUsed(w.dest, a); DeleteEffect(w.dest, a, glbl);
    }
  }

  lemma PresentIfUsed(l: AddrSeq, a: Addr)
    requires Sane(l)
    ensures Find(l, a) >= 0 <==> Users(l, a) > 0
    ensures Users(l, a) >= 0
  {
  }

  /** A source and its owners change together, its mirrored addresses not at all. */
  lemma SourceChangeBalances(w: Web, s: nat, l: AddrSeq, o: Owners)
    requires Balanced(w) && s < |w.sources| && SourceOk(l, o)
    requires forall a :: Synced(l, a) == Synced(w.sources[s], a)
    ensures Balanced(w.(sources := w.sources[s := l], owners := w.owners[s := o]))
  {
    MirrorsUpdateAll(w.sources, s, l);
  }

  lemma SourceStepBalances(w: Web, e: Event)
    requires Balanced(w) && e.Possible(w) && (e.AddSource? || e.DeleteSource?)
    ensures Balanced(Step(w, e))
  {
    hide Add, Delete, Users, Global, Synced;
    var l, o := w.sources[e.s], w.owners[e.s];
    match e {
      case AddSource(s, a, glbl, mem) =>
        AddEffect(l, a, glbl, mem);
        var (m, err) := Add(l, a, glbl, mem);
        SourceChangeBalances(w, s, m, if err == 0 then o.Gain(a, glbl) else o);
        assert w.owners[s := o] == w.owners;
      case DeleteSource(s, a, glbl) =>
        PresentIfUsed(l, a);
        DeleteEffect(l, a, glbl);
        SyncedIsUsed(l, a);
        SourceChangeBalances(w, s, Delete(l, a, glbl).0, o.Lose(a, glbl));
    }
  }

  lemma SyncedIsUsed(l: AddrSeq, a: Addr)
    ensures Synced(l, a) || Global(l, a) ==> Find(l, a) >= 0
  {
  }

  // --------------------------------- sync and unsync ---------------------------------

  /** The web while source `s` is being synced. */
  ghost function Midway(w: Web, s: nat, to: AddrSeq, from: AddrSeq): Web
    requires s < |w.sources|
  {
    w.(dest := to, sources := w.sources[s := from])
  }

  /** Destination and source both change at address `a`, by the same mirror. */
  lemma MidwayBalances(w: Web, s: nat, p: AddrSeq, q: AddrSeq, p': AddrSeq, q': AddrSeq)
    requires s < |w.sources| && Balanced(Midway(w, s, p, q))
    requires SourceOk(q', w.owners[s]) && Sane(p')
    requires forall b ::
      (Users(p', b) - Users(p, b) == (if Synced(q', b) then 1 else 0) - (if Synced(q, b) then 1 else 0))
    requires forall b :: Global(p', b) == Global(p, b)
    ensures Balanced(Midway(w, s, p', q'))
  {
    hide Users, Global, Synced;
    MirrorsUpdateAll(w.sources[s := q], s, q');
    assert w.sources[s := q][s := q'] == w.sources[s := q'];
  }

  /** The source's half of mirroring an entry. */
  lemma MirrorInSource(from: AddrSeq, o: Owners, i: nat)
    requires SourceOk(from, o) && i < |from| && !from[i].synced
    ensures var q := from[i := from[i].(synced := true, users := from[i].users + 1)];
      SourceOk(q, o) && forall b :: Synced(q, b) == (Synced(from, b) || b == from[i].addr)
    ensures !Synced(from, from[i].addr)
  {
    UpdateEffect(from, i, from[i].(synced := true, users := from[i].users + 1));
    FindAt(from, i);
    hide Find, Sane;
  }

  /** The source's half of taking a mirror back. */
  lemma UnmirrorInSource(from: AddrSeq, o: Owners, i: nat)
    requires SourceOk(from, o) && i < |from| && from[i].synced
    ensures var q := DropUser(from[i := from[i].(synced := false)], i);
      SourceOk(q, o) && forall b :: Synced(q, b) == (Synced(from, b) && b != from[i].addr)
    ensures Synced(from, from[i].addr)
  {
    var f1 := from[i := from[i].(synced := false)];
    UpdateEffect(from, i, f1[i]);
    FindAt(from, i);
    assert Users(from, from[i].addr) == from[i].users && Global(from, from[i].addr) == from[i].global;
    DropUserEffect(f1, i);
    hide Find, Sane, DropUser;
  }

  /** Mirroring an entry keeps the balance. */
  lemma MirrorBalances(w: Web, s: nat, to: AddrSeq, from: AddrSeq, i: nat, mem: bool)
    requires s < |w.sources| && i < |from| && Balanced(Midway(w, s, to, from)) && !from[i].synced
    requires Add(to, from[i].addr, false, mem).1 == 0
    ensures var da := from[i];
      Balanced(Midway(w, s, Add(to, da.addr, false, mem).0, from[i := da.(synced := true, users := da.users + 1)]))
  {
    hide Add, Users, Synced, Global;
    var da := from[i];
    assert Midway(w, s, to, from).sources[s] == from;
    MirrorInSource(from, w.owners[s], i);
    AddEffect(to, da.addr, false, mem);
    MidwayBalances(w, s, to, from, Add(to, da.addr, false, mem).0,
                   from[i := da.(synced := true, users := da.users + 1)]);
  }

  /** Taking a mirror back, from an entry that mirrors, keeps the balance. */
  lemma UnmirrorBalances(w: Web, s: nat, to: AddrSeq, from: AddrSeq, i: nat)
    requires s < |w.sources| && i < |from| && Balanced(Midway(w, s, to, from)) && from[i].synced
    ensures var da := from[i];
      Balanced(Midway(w, s, Delete(to, da.addr, false).0, DropUser(from[i := da.(synced := false)], i)))
  {
    hide Delete, DropUser, Users, Synced, Global;
    var da := from[i];
    assert Midway(w, s, to, from).sources[s] == from;
    MirroredIsHeld(w, s, to, from, i);
    UnmirrorInSource(from, w.owners[s], i);
    DeleteEffect(to, da.addr, false);
    MidwayBalances(w, s, to, from, Delete(to, da.addr, false).0, DropUser(from[i := da.(synced := false)], i));
  }

  lemma MirroredIsHeld(w: Web, s: nat, to: AddrSeq, from: AddrSeq, i: nat)
    requires s < |w.sources| && i < |from| && Balanced(Midway(w, s, to, from)) && from[i].synced
    ensures Find(to, from[i].addr) >= 0
    ensures Users(to, from[i].addr) == 1 ==> !Global(to, from[i].addr)
  {
    var a, m := from[i].addr, Midway(w, s, to, from);
    assert m.sources[s] == from;
    FindAt(from, i);
    assert Synced(m.sources[s], a);
    MirrorsUpdate(m.sources, s, [], a);
    PresentIfUsed(to, a);
  }

  lemma {:induction false} SyncBalances(w: Web, s: nat, p: Pair, i: nat)
    requires s < |w.sources| && i <= |p.from| && Balanced(Midway(w, s, p.to, p.from))
    requires forall j :: 0 <= j < i ==> p.from[j].synced && p.from[j].users >= 2
    ensures var r := SyncFrom(p, i);
      && Balanced(Midway(w, s, r.to, r.from))
      && (r.err == 0 ==> forall j :: 0 <= j < |r.from| ==> r.from[j].synced && r.from[j].users >= 2)
    decreases |p.from| - i
  {
    hide Balanced, Add, Delete;
    if i < |p.from| {
      var da := p.from[i];
      UsedEntry(w, s, p.to, p.from, i);
      if !da.synced {
        var (to, err) := Add(p.to, da.addr, false, p.mem > 0);
        AddResult(p.to, da.addr, p.mem > 0);
        if err == 0 {
          var mem := if Find(p.to, da.addr) >= 0 then p.mem else p.mem - 1;
          MirrorBalances(w, s, p.to, p.from, i, p.mem > 0);
          SyncBalances(w, s, Pair(to, p.from[i := da.(synced := true, users := da.users + 1)], mem, 0), i + 1);
        }
      } else if da.users == 1 {
        UnmirrorBalances(w, s, p.to, p.from, i);
        DropLast(p.from, i);
        SyncBalances(w, s, p.(to := Delete(p.to, da.addr, false).0, from := Without(p.from, i)), i);
      } else {
        SyncBalances(w, s, p, i + 1);
      }
    }
  }

  lemma UsedEntry(w: Web, s: nat, to: AddrSeq, from: AddrSeq, i: nat)
    requires s < |w.sources| && i < |from| && Balanced(Midway(w, s, to, from))
    ensures from[i].users >= 1
  {
    assert Sane(Midway(w, s, to, from).sources[s]);
  }

  lemma AddResult(l: AddrSeq, a: Addr, mem: bool)
    ensures var (m, err) := Add(l, a, false, mem);
      (err == 0 <==> mem || Find(l, a) >= 0) && err <= 0 && (err < 0 ==> m == l)
  {
  }

  lemma DropLast(l: AddrSeq, i: nat)
    requires i < |l| && l[i].users == 1
    ensures DropUser(l[i := l[i].(synced := false)], i) == Without(l, i)
  {
  }

  lemma {:induction false} UnsyncBalances(w: Web, s: nat, to: AddrSeq, from: AddrSeq, i: nat)
    requires s < |w.sources| && i <= |from| && Balanced(Midway(w, s, to, from))
    requires forall j :: 0 <= j < i ==> !from[j].synced
    ensures var r := UnsyncFrom(to, from, i);
      && Balanced(Midway(w, s, r.0, r.1))
      && forall j :: 0 <= j < |r.1| ==> !r.1[j].synced
    decreases |from| - i
  {
    hide Balanced, Delete;
    if i < |from| {
      var da := from[i];
      if da.synced {
        UnmirrorBalances(w, s, to, from, i);
        var from' := DropUser(from[i := da.(synced := false)], i);
        UnsyncBalances(w, s, Delete(to, da.addr, false).0, from', if |from'| < |from| then i else i + 1);
      } else {
        UnsyncBalances(w, s, to, from, i + 1);
      }
    }
  }

  // ----------------------------------- main results ----------------------------------

  lemma StepBalances(w: Web, e: Event)
    requires Balanced(w) && e.Possible(w)
    ensures Balanced(Step(w, e))
  {
    match e {
      case SyncSource(s, room) =>
        assert Midway(w, s, w.dest, w.sources[s]) == w;
        hide Balanced;
        SyncBalances(w, s, Pair(w.dest, w.sources[s], room, 0), 0);
      case UnsyncSource(s) =>
        assert Midway(w, s, w.dest, w.sources[s]) == w;
        hide Balanced;
        UnsyncBalances(w, s, w.dest, w.sources[s], 0);
      case AddDest(_, _, _) => DestStepBalances(w, e);
      case DeleteDest(_, _) => DestStepBalances(w, e);
      case _ => SourceStepBalances(w, e);
    }
  }

  ghost predicate Plays(w: Web, es: seq<Event>)
    decreases |es|
  {
    es != [] ==> es[0].Possible(w) && Plays(Step(w, es[0]), es[1..])
  }

  ghost function Run(w: Web, es: seq<Event>): Web
    requires Plays(w, es)
    decreases |es|
  {
    if es == [] then w else Run(Step(w, es[0]), es[1..])
  }

  /** The balance survives every interleaving of matched adds and deletes, syncs and
      unsyncs, including syncs that run out of memory half way. */
  lemma {:induction false} RunBalances(w: Web, es: seq<Event>)
    requires Balanced(w) && Plays(w, es)
    ensures Balanced(Run(w, es))
    decreases |es|
  {
    if es != [] {
      StepBalances(w, es[0]);
      RunBalances(Step(w, es[0]), es[1..]);
    }
  }

  /** After a successful sync the source holds exactly the addresses with a live outside
      user, and mirrors each of them. */
  lemma SyncIsExact(w: Web, s: nat, room: nat)
    requires Balanced(w) && s < |w.sources|
    requires Sync(w.dest, w.sources[s], room).err == 0
    ensures var l := Step(w, SyncSource(s, room)).sources[s];
      forall a :: (Find(l, a) >= 0 <==> w.owners[s].Held(a) > 0) && (Find(l, a) >= 0 ==> Synced(l, a))
  {
    var p := Pair(w.dest, w.sources[s], room, 0);
    assert Midway(w, s, w.dest, w.sources[s]) == w;
    SyncBalances(w, s, p, 0);
    var r := SyncFrom(p, 0);
    assert SourceOk(Midway(w, s, r.to, r.from).sources[s], w.owners[s]);
    forall a ensures (Find(r.from, a) >= 0 <==> w.owners[s].Held(a) > 0) {
      assert Users(r.from, a) == w.owners[s].Held(a) + if Synced(r.from, a) then 1 else 0;
    }
  }

  /** After an unsync the source mirrors nothing, and still holds exactly what is used. */
  lemma UnsyncIsExact(w: Web, s: nat)
    requires Balanced(w) && s < |w.sources|
    ensures var l := Step(w, UnsyncSource(s)).sources[s];
      forall a :: !Synced(l, a) && Users(l, a) == w.owners[s].Held(a)
  {
    assert Midway(w, s, w.dest, w.sources[s]) == w;
    UnsyncBalances(w, s, w.dest, w.sources[s], 0);
    var r := Unsync(w.dest, w.sources[s]);
    assert SourceOk(Midway(w, s, r.0, r.1).sources[s], w.owners[s]);
  }

  // -------------------------------- running out of memory ----------------------------

  /** The entries of `rest` for which a sync must allocate: not mirrored yet, and of an address the
      destination does not have. */
  function Missing(to: AddrSeq, rest: AddrSeq): nat {
    if rest == [] then 0
    else (if !rest[0].synced && Find(to, rest[0].addr) < 0 then 1 else 0) + Missing(to, rest[1..])
  }

  lemma {:induction false} MissingSame(to: AddrSeq, after: AddrSeq, rest: AddrSeq)
    requires forall j :: 0 <= j < |rest| ==> (Find(after, rest[j].addr) < 0 <==> Find(to, rest[j].addr) < 0)
    ensures Missing(after, rest) == Missing(to, rest)
  {
    hide Find;
    if rest != [] {
      assert forall j :: 0 <= j < |rest[1..]| ==> rest[1..][j] == rest[j + 1];
      MissingSame(to, after, rest[1..]);
    }
  }

  lemma PresentIff(l: AddrSeq, a: Addr)
    requires Sane(l)
    ensures Find(l, a) >= 0 <==> Users(l, a) > 0
  {
  }

  lemma OthersPresent(to: AddrSeq, a: Addr, b: Addr, mem: bool)
    requires Sane(to) && a != b
    ensures Find(Add(to, a, false, mem).0, b) < 0 <==> Find(to, b) < 0
    ensures Find(Delete(to, a, false).0, b) < 0 <==> Find(to, b) < 0
  {
    AddEffect(to, a, false, mem);
    DeleteEffect(to, a, false);
    hide Add, Delete, Users, Find, Synced, Global;
    PresentIff(to, b);
    PresentIff(Add(to, a, false, mem).0, b);
    PresentIff(Delete(to, a, false).0, b);
  }

  /** A sync fails exactly if it must allocate more often than allocations succeed. */
  lemma {:induction false} SyncFailsIff(p: Pair, i: nat)
    requires i <= |p.from| && Sane(p.to) && Unique(p.from)
    ensures SyncFrom(p, i).err == if Missing(p.to, p.from[i..]) > p.mem then -ENOMEM else 0
    decreases |p.from| - i
  {
    hide Find, Add, Delete;
    if i < |p.from| {
      var da, rest := p.from[i], p.from[i + 1..];
      assert p.from[i..] == [da] + rest;
      OthersStay(p, i);
      hide Unique, Sane;
      AddEffect(p.to, da.addr, false, p.mem > 0);
      DeleteEffect(p.to, da.addr, false);
      hide Users, Global, Synced;
      if !da.synced {
        var (to, err) := Add(p.to, da.addr, false, p.mem > 0);
        if err == 0 {
          var mem := if Find(p.to, da.addr) >= 0 then p.mem else p.mem - 1;
          var q := Pair(to, p.from[i := da.(synced := true, users := da.users + 1)], mem, 0);
          assert q.from[i + 1..] == rest;
          UniqueAfter(p.from, i, q.from[i]);
          SyncFailsIff(q, i + 1);
        }
      } else if da.users == 1 {
        var q := p.(to := Delete(p.to, da.addr, false).0, from := Without(p.from, i));
        assert q.from[i..] == rest;
        UniqueAfter(p.from, i, da);
        SyncFailsIff(q, i);
      } else {
        SyncFailsIff(p, i + 1);
      }
    }
  }

  lemma UniqueAfter(from: AddrSeq, i: nat, e: Entry)
    requires Unique(from) && i < |from| && e.addr == from[i].addr
    ensures Unique(from[i := e]) && Unique(Without(from, i))
  {
  }

  /** What a sync does for the `i`-th entry leaves what is missing for the later ones. */
  lemma OthersStay(p: Pair, i: nat)
    requires i < |p.from| && Sane(p.to) && Unique(p.from)
    ensures var a, rest := p.from[i].addr, p.from[i + 1..];
      && Missing(Add(p.to, a, false, p.mem > 0).0, rest) == Missing(p.to, rest)
      && Missing(Delete(p.to, a, false).0, rest) == Missing(p.to, rest)
  {
    hide Find, Add, Delete, Sane, Missing;
    var a, rest := p.from[i].addr, p.from[i + 1..];
    forall j | 0 <= j < |rest|
      ensures Find(Add(p.to, a, false, p.mem > 0).0, rest[j].addr) < 0 <==> Find(p.to, rest[j].addr) < 0
      ensures Find(Delete(p.to, a, false).0, rest[j].addr) < 0 <==> Find(p.to, rest[j].addr) < 0
    {
      assert rest[j] == p.from[i + 1 + j];
      OthersPresent(p.to, a, rest[j].addr, p.mem > 0);
    }
    MissingSame(p.to, Add(p.to, a, false, p.mem > 0).0, rest);
    MissingSame(p.to, Delete(p.to, a, false).0, rest);
  }
}
