/** The network stack's DMA client: channels come and go, and the online CPUs are spread
    over those that are registered. */
module Dma {
  import opened Lists

  type Channel = Option<nat>      // NULL, or a channel

  datatype Ack = DmaAck | DmaDup
  datatype State = Available | Removed | Suspended

  // ------------------------------- CPU masks in order --------------------------------

  /** The members of a mask from `i` up: what for_each_cpu_mask visits. */
  function Members(mask: seq<bool>, i: nat): (s: seq<nat>)
    requires i <= |mask|
    ensures forall k :: 0 <= k < |s| ==> s[k] < |mask|
    decreases |mask| - i
  {
    if i == |mask| then [] else if mask[i] then [i] + Members(mask, i + 1) else Members(mask, i + 1)
  }

  /** `s` is the members of the mask from `i` up, each once, in order. */
  ghost predicate InOrder(mask: seq<bool>, i: nat, s: seq<nat>) {
    && (forall k :: 0 <= k < |s| ==> i <= s[k] < |mask| && mask[s[k]])
    && (forall j, k :: 0 <= j < k < |s| ==> s[j] < s[k])
    && (forall m :: i <= m < |mask| && mask[m] ==> m in s)
  }

  lemma {:induction false} MembersAreInOrder(mask: seq<bool>, i: nat)
    requires i <= |mask|
    ensures InOrder(mask, i, Members(mask, i))
    decreases |mask| - i
  {
    if i < |mask| {
      MembersAreInOrder(mask, i + 1);
      PutInFront(mask, i, Members(mask, i + 1));
    }
  }

  lemma PutInFront(mask: seq<bool>, i: nat, rest: seq<nat>)
    requires i < |mask| && InOrder(mask, i + 1, rest)
    ensures InOrder(mask, i, if mask[i] then [i] + rest else rest)
  {
    if mask[i] {
      var s := [i] + rest;
      assert forall k :: 0 < k < |s| ==> s[k] == rest[k - 1];
      forall m | i <= m < |mask| && mask[m] ensures m in s {
        if m != i {
          var k :| 0 <= k < |rest| && rest[k] == m;
          assert s[k + 1] == m;
        } else {
          assert s[0] == m;
        }
      }
    }
  }

  lemma {:induction false} NoMembers(mask: seq<bool>, i: nat)
    requires i <= |mask| && forall k :: 0 <= k < |mask| ==> !mask[k]
    ensures Members(mask, i) == []
    decreases |mask| - i
  {
    if i < |mask| {
      NoMembers(mask, i + 1);
    }
  }

  /** What is left when the walk stands at `c`. */
  lemma MembersFrom(mask: seq<bool>, c: nat)
    requires c <= |mask| && (c < |mask| ==> mask[c])
    ensures Members(mask, c) == if c < |mask| then [c] + Members(mask, c + 1) else []
  {
  }

  /** first_cpu, when `i` is 0, and next_cpu: the least member from `i` up, or the size. */
  function NextCpu(mask: seq<bool>, i: nat): (c: nat)
    requires i <= |mask|
    ensures i <= c <= |mask|
    ensures c < |mask| ==> mask[c]
    ensures Members(mask, i) == Members(mask, c)
    decreases |mask| - i
  {
    if i == |mask| || mask[i] then i else NextCpu(mask, i + 1)
  }

  /** One step of a walk that has met `i` members and stands at `c`. */
  lemma SlotStep(mask: seq<bool>, i: nat, c: nat)
    requires c < |mask| && mask[c] && i <= |Members(mask, 0)| && Members(mask, c) == Members(mask, 0)[i..]
    ensures i < |Members(mask, 0)| && Members(mask, 0)[i] == c
    ensures Members(mask, NextCpu(mask, c + 1)) == Members(mask, 0)[i + 1..]
  {
    MembersFrom(mask, c);
    var next := NextCpu(mask, c + 1);
    MembersFrom(mask, next);
    hide Members, NextCpu;
    var all := Members(mask, 0);
    assert all[i..][0] == all[i] && all[i..][1..] == all[i + 1..];
  }

  // ------------------------------- how CPUs are spread -------------------------------

  function Share(q: nat, r: nat, i: nat): nat {
    q + if i < r then 1 else 0
  }

  function Repeat(c: Channel, n: nat): (s: seq<Channel>)
    ensures |s| == n && forall k :: 0 <= k < n ==> s[k] == c
  {
    seq(n, _ => c)
  }

  lemma RepeatSnoc(c: Channel, n: nat)
    ensures Repeat(c, n + 1) == Repeat(c, n) + [c]
  {
  }

  /** The channels of consecutive CPUs when the first `n` of `chans` have taken theirs. */
  function Spread(chans: seq<Channel>, n: nat, q: nat, r: nat): (s: seq<Channel>)
    requires n <= |chans|
  {
    if n == 0 then [] else Spread(chans, n - 1, q, r) + Repeat(chans[n - 1], Share(q, r, n - 1))
  }

  /** What the CPUs point to, in CPU order. */
  function Pointers(perCpu: seq<Channel>, cpus: seq<nat>): (s: seq<Channel>)
    requires forall k :: 0 <= k < |cpus| ==> cpus[k] < |perCpu|
    ensures |s| == |cpus|
    ensures forall k :: 0 <= k < |s| ==> s[k] == perCpu[cpus[k]]
  {
    seq(|cpus|, k requires 0 <= k < |cpus| && cpus[k] < |perCpu| => perCpu[cpus[k]])
  }

  lemma {:induction false} SpreadLength(chans: seq<Channel>, n: nat, q: nat, r: nat)
    requires n <= |chans|
    ensures |Spread(chans, n, q, r)| == n * q + if n < r then n else r
  {
    if n > 0 {
      SpreadLength(chans, n - 1, q, r);
      assert (n - 1) * q + q == n * q;
    }
  }

  /** All CPUs are used up when all channels have had their share. */
  lemma SpreadCovers(chans: seq<Channel>, cpus: nat)
    requires chans != []
    ensures |Spread(chans, |chans|, cpus / |chans|, cpus % |chans|)| == cpus
  {
    SpreadLength(chans, |chans|, cpus / |chans|, cpus % |chans|);
  }

  lemma {:induction false} SpreadPrefix(chans: seq<Channel>, n: nat, m: nat, q: nat, r: nat)
    requires n <= m <= |chans|
    ensures Spread(chans, n, q, r) <= Spread(chans, m, q, r)
    decreases m
  {
    if n < m {
      SpreadPrefix(chans, n, m - 1, q, r);
    }
  }

  lemma SpreadStep(chans: seq<Channel>, n: nat, q: nat, r: nat)
    ensures n <= |chans| ==> Spread(chans, 0, q, r) == []
    ensures n < |chans| ==> Spread(chans, n + 1, q, r) == Spread(chans, n, q, r) + Repeat(chans[n], Share(q, r, n))
  {
  }

  lemma {:induction false} SpreadCounts(chans: seq<Channel>, n: nat, q: nat, r: nat, c: Channel)
    requires n <= |chans| && NoDuplicates(chans)
    ensures forall i :: 0 <= i < n && chans[i] == c ==> multiset(Spread(chans, n, q, r))[c] == Share(q, r, i)
    ensures c !in chans[..n] ==> multiset(Spread(chans, n, q, r))[c] == 0
  {
    if n > 0 {
      SpreadCounts(chans, n - 1, q, r, c);
      RepeatCounts(chans[n - 1], Share(q, r, n - 1), c);
      if chans[n - 1] == c {
        assert c !in chans[..n - 1];
      } else {
        assert c in chans[..n - 1] ==> c in chans[..n];
      }
    }
  }

  lemma {:induction false} RepeatCounts(c: Channel, n: nat, d: Channel)
    ensures multiset(Repeat(c, n))[d] == if c == d then n else 0
  {
    if n > 0 {
      RepeatCounts(c, n - 1, d);
      assert Repeat(c, n) == Repeat(c, n - 1) + [c];
    }
  }

  class NetDma {
    const online: seq<bool>           // cpu_online_map
    const channels: array<Channel>
    const mask: array<bool>           // channel_mask
    const perCpu: array<Channel>      // per_cpu(softnet_data, cpu).net_dma

    ghost predicate Sized()
      reads this
    {
      && channels.Length == mask.Length == perCpu.Length == |online|
      && channels != perCpu
    }

    /** The channels in slot order. */
    ghost function Registered(): (s: seq<Channel>)
      requires Sized()
      reads this, channels, mask
    {
      Pointers(channels[..], Members(mask[..], 0))
    }

    ghost function OnlinePointers(): (s: seq<Channel>)
      requires Sized()
      reads this, perCpu
      ensures |s| == |Members(online, 0)|
    {
      Pointers(perCpu[..], Members(online, 0))
    }

    /** The mask is exactly the slots in use, and no channel holds two. */
    ghost predicate Slots()
      reads this, channels, mask
    {
      && Sized()
      && (forall i :: 0 <= i < |online| ==> (mask[i] <==> channels[i] != None))
      && (forall i, j :: 0 <= i < j < |online| && channels[i] != None ==> channels[i] != channels[j])
    }

    /** Every online CPU points to nothing if there is no channel; otherwise the CPUs are
        spread over the channels. */
    ghost predicate IsSpread()
      requires Sized()
      reads this, channels, mask, perCpu
    {
      var chans, m := Registered(), |Members(online, 0)|;
      if chans == [] then OnlinePointers() == Repeat(None, m)
      else OnlinePointers() == Spread(chans, |chans|, m / |chans|, m % |chans|)
    }

    ghost predicate Valid()
      reads this, channels, mask, perCpu
    {
      Slots() && IsSpread()
    }

    constructor (online: seq<bool>)
      ensures Valid() && this.online == online && Registered() == []
      ensures fresh(channels) && fresh(mask) && fresh(perCpu)
    {
      this.online := online;
      channels := new Channel[|online|](_ => None);
      mask := new bool[|online|](_ => false);
      perCpu := new Channel[|online|](_ => None);
      new;
      NoMembers(mask[..], 0);
    }

    /** Points the `t`-th online CPU to `chan`. */
    method PointCpu(chan: Channel, cpu: nat, ghost t: nat)
      requires Sized() && t < |Members(online, 0)| && cpu == Members(online, 0)[t]
      modifies perCpu
      ensures OnlinePointers()[..t + 1] == old(OnlinePointers())[..t] + [chan]
    {
      hide Members, Pointers;
      MembersAreInOrder(online, 0);
      ghost var cpus := Members(online, 0);
      perCpu[cpu] := chan;
      assert forall j :: 0 <= j < t ==> cpus[j] < cpus[t];
    }

    /** Points the next `n` online CPUs, from `cpu` on, to `chan`. */
    method Serve(chan: Channel, n: nat, cpu: nat, ghost t: nat) returns (next: nat)
      requires Sized() && cpu <= |online| && (cpu < |online| ==> online[cpu])
      requires t + n <= |Members(online, 0)| && Members(online, cpu) == Members(online, 0)[t..]
      modifies perCpu
      ensures next <= |online| && (next < |online| ==> online[next])
      ensures Members(online, next) == Members(online, 0)[t + n..]
      ensures OnlinePointers()[..t + n] == old(OnlinePointers())[..t] + Repeat(chan, n)
    {
      hide Members, NextCpu, Pointers, Repeat;
      next := cpu;
      ghost var cpus := Members(online, 0);
      var left, k := n, 0;
      while left > 0
        invariant left == n - k && 0 <= k <= n
        invariant next <= |online| && (next < |online| ==> online[next])
        invariant Members(online, next) == cpus[t + k..]
        invariant OnlinePointers()[..t + k] == old(OnlinePointers())[..t] + Repeat(chan, k)
        decreases left
      {
        next := ServeOne(chan, next, t + k);
        RepeatSnoc(chan, k);
        left := left - 1;
        k := k + 1;
      }
    }

    /** One turn of that loop. */
    method ServeOne(chan: Channel, cpu: nat, ghost t: nat) returns (next: nat)
      requires Sized() && cpu <= |online| && (cpu < |online| ==> online[cpu])
      requires t < |Members(online, 0)| && Members(online, cpu) == Members(online, 0)[t..]
      modifies perCpu
      ensures next <= |online| && (next < |online| ==> online[next])
      ensures Members(online, next) == Members(online, 0)[t + 1..]
      ensures OnlinePointers()[..t + 1] == old(OnlinePointers())[..t] + [chan]
    {
      hide Members, NextCpu, Pointers;
      ghost var cpus := Members(online, 0);
      MembersFrom(online, cpu);
      assert cpus[t..][0] == cpus[t] == cpu;
      PointCpu(chan, cpu, t);
      assert cpus[t..][1..] == cpus[t + 1..];
      next := NextCpu(online, cpu + 1);
      MembersFrom(online, next);
    }

    method ClearAll()
      requires Sized()
      modifies perCpu
      ensures OnlinePointers() == Repeat(None, |Members(online, 0)|)
    {
      var m := |Members(online, 0)|;
      var cpu := Serve(None, m, NextCpu(online, 0), 0);
      assert OnlinePointers()[..m] == OnlinePointers();
    }

    /** net_dma_rebalance. */
    method Rebalance()
      requires Slots()
      modifies perCpu
      ensures Valid()
    {
      hide Members, Pointers, Spread, Repeat;
      var numOnline, weight := |Members(online, 0)|, |Members(mask[..], 0)|;
      if weight == 0 {
        ClearAll();
        return;
      }
      SpreadCovers(Registered(), numOnline);
      SpreadOver(numOnline / weight, numOnline % weight);
    }

    /** The walk over the slots stands at `idx`, the `i`-th in use; the channels before it have
        their CPUs, and the walk over those stands at `cpu`. */
    ghost predicate Halfway(i: nat, idx: nat, cpu: nat, q: nat, r: nat)
      requires Slots()
      reads this, channels, mask, perCpu
    {
      var slots, chans := mask[..], Registered();
      && i <= |chans| == |Members(slots, 0)|
      && idx <= |slots| && (idx < |slots| ==> slots[idx]) && Members(slots, idx) == Members(slots, 0)[i..]
      && cpu <= |online| && (cpu < |online| ==> online[cpu])
      && var served := Spread(chans, i, q, r);
      && |served| <= |Members(online, 0)| && Members(online, cpu) == Members(online, 0)[|served|..]
      && OnlinePointers()[..|served|] == served
    }

    /** The loop over the channels: each serves its share of the online CPUs. */
    method SpreadOver(q: nat, r: nat)
      requires Slots() && |Spread(Registered(), |Registered()|, q, r)| == |Members(online, 0)|
      modifies perCpu
      ensures OnlinePointers() == Spread(Registered(), |Registered()|, q, r)
    {
      hide Members, NextCpu, Pointers, Repeat, Spread, Halfway;
      var i := 0;
      var cpu: nat := NextCpu(online, 0);
      var idx: nat := NextCpu(mask[..], 0);
      StartsHalfway(idx, cpu, q, r);
      while idx < mask.Length
        invariant i <= idx <= mask.Length && Halfway(i, idx, cpu, q, r)
        decreases mask.Length - idx
      {
        idx, cpu := SpreadOne(i, idx, cpu, q, r);
        i := i + 1;
      }
      EndsHalfway(i, idx, cpu, q, r);
    }

    lemma StartsHalfway(idx: nat, cpu: nat, q: nat, r: nat)
      requires Slots() && idx <= mask.Length && (idx < mask.Length ==> mask[idx])
      requires cpu <= |online| && (cpu < |online| ==> online[cpu])
      requires Members(mask[..], 0) == Members(mask[..], idx) && Members(online, 0) == Members(online, cpu)
      ensures Halfway(0, idx, cpu, q, r)
    {
      hide Members, Pointers, Spread;
      SpreadStep(Registered(), 0, q, r);
      MembersFrom(online, cpu);
      MembersFrom(mask[..], idx);
    }

    lemma EndsHalfway(i: nat, idx: nat, cpu: nat, q: nat, r: nat)
      requires Slots() && idx == mask.Length && Halfway(i, idx, cpu, q, r)
      requires |Spread(Registered(), |Registered()|, q, r)| == |Members(online, 0)|
      ensures OnlinePointers() == Spread(Registered(), |Registered()|, q, r)
    {
      hide Members, Pointers, Spread;
      MembersFrom(mask[..], idx);
      assert OnlinePointers()[..|Members(online, 0)|] == OnlinePointers();
    }

    /** One turn of that loop. */
    method SpreadOne(i: nat, idx: nat, cpu: nat, q: nat, r: nat) returns (nextSlot: nat, nextCpu: nat)
      requires Slots() && |Spread(Registered(), |Registered()|, q, r)| == |Members(online, 0)|
      requires idx < mask.Length && Halfway(i, idx, cpu, q, r)
      modifies perCpu
      ensures idx < nextSlot <= mask.Length && Halfway(i + 1, nextSlot, nextCpu, q, r)
    {
      hide Members, NextCpu, Pointers, Repeat, Spread;
      ghost var chans, served := Registered(), Spread(Registered(), i, q, r);
      SlotStep(mask[..], i, idx);
      assert chans[i] == channels[idx];
      var n := Share(q, r, i);
      SpreadPrefix(chans, i + 1, |chans|, q, r);
      SpreadStep(chans, i, q, r);
      nextCpu := Serve(channels[idx], n, cpu, |served|);
      nextSlot := NextCpu(mask[..], idx + 1);
      assert Registered() == chans;
      assert |Spread(chans, i + 1, q, r)| == |served| + n;
    }

    /** netdev_dma_event. */
    method Event(chan: nat, state: State) returns (ack: Ack)
      requires Valid()
      modifies channels, mask, perCpu
      ensures Valid()
      ensures ack == DmaDup ==> channels[..] == old(channels[..]) && perCpu[..] == old(perCpu[..])
      ensures state == Available ==>
        (ack == DmaAck <==> Some(chan) !in old(channels[..]) && None in old(channels[..]))
      ensures state == Available && ack == DmaAck ==>
        FilledFirst(old(channels[..]), None, channels[..], Some(chan))
      ensures state == Removed ==> (ack == DmaAck <==> Some(chan) in old(channels[..]))
      ensures state == Removed && ack == DmaAck ==>
        FilledFirst(old(channels[..]), Some(chan), channels[..], None)
      ensures state == Suspended ==> ack == DmaDup
    {
      ack := DmaDup;
      if state == Available {
        var found, pos := Search(chan);
        if !found && pos >= 0 {
          ack := DmaAck;
          SetSlot(pos, Some(chan));
          Rebalance();
        }
      } else if state == Removed {
        var i := 0;
        while i < channels.Length && channels[i] != Some(chan)
          invariant 0 <= i <= channels.Length
          invariant forall j :: 0 <= j < i ==> channels[j] != Some(chan)
        {
          i := i + 1;
        }
        if i < channels.Length {
          ack := DmaAck;
          assert FirstSlot(channels[..], Some(chan), i);
          SetSlot(i, None);
          Rebalance();
        }
      }
    }

    /** The search of an arriving channel: whether it is there already, and if not the
        first empty slot. */
    method Search(chan: nat) returns (found: bool, pos: int)
      requires Sized()
      ensures found <==> Some(chan) in channels[..]
      ensures !found && pos >= 0 ==> FirstSlot(channels[..], None, pos)
      ensures !found && pos < 0 ==> None !in channels[..]
    {
      found, pos := false, -1;
      var i := 0;
      while i < channels.Length
        invariant 0 <= i <= channels.Length
        invariant forall j :: 0 <= j < i ==> channels[j] != Some(chan)
        invariant pos >= 0 ==> pos < i && FirstSlot(channels[..], None, pos)
        invariant pos < 0 ==> forall j :: 0 <= j < i ==> channels[j] != None
      {
        if channels[i] == Some(chan) {
          return true, pos;
        } else if channels[i] == None && pos < 0 {
          pos := i;
        }
        i := i + 1;
      }
    }

    method SetSlot(pos: nat, c: Channel)
      requires Slots() && pos < |online|
      requires c != None ==> c !in channels[..]
      modifies channels, mask
      ensures Slots() && channels[..] == old(channels[..])[pos := c]
      ensures channels != perCpu
    {
      channels[pos] := c;
      mask[pos] := c != None;
      assert forall i :: 0 <= i < |online| && i != pos ==> channels[i] in old(channels[..]);
    }
  }

  ghost predicate FirstSlot(s: seq<Channel>, c: Channel, pos: nat) {
    pos < |s| && s[pos] == c && forall j :: 0 <= j < pos ==> s[j] != c
  }

  /** The first slot of `s` that holds `c` holds `d` in `t`; nothing else differs. */
  ghost predicate FilledFirst(s: seq<Channel>, c: Channel, t: seq<Channel>, d: Channel) {
    exists pos: nat :: FirstSlot(s, c, pos) && t == s[pos := d]
  }

  // ----------------------------------- main results ----------------------------------

  /** Distinct slots make distinct registered channels. */
  lemma RegisteredIsDistinct(d: NetDma)
    requires d.Slots()
    ensures NoDuplicates(d.Registered())
    ensures forall c :: c in d.Registered() <==> c != None && c in d.channels[..]
  {
    var bits, chans := Members(d.mask[..], 0), d.Registered();
    MembersAreInOrder(d.mask[..], 0);
    forall c ensures c in chans <==> c != None && c in d.channels[..] {
      if c != None && c in d.channels[..] {
        var i :| 0 <= i < |d.online| && d.channels[i] == c;
        assert i in bits;
        var k :| 0 <= k < |bits| && bits[k] == i;
        assert chans[k] == c;
      }
    }
  }

  /** In every state: with no channel registered every online CPU points to none; otherwise
      every online CPU points to a registered channel, each registered channel has the
      floor or the ceiling of its fair share of the CPUs, and so any two differ by at most
      one. */
  lemma CpusAreSpreadFairly(d: NetDma)
    requires d.Valid()
    ensures var chans, ps := d.Registered(), d.OnlinePointers();
      && (chans == [] ==> forall k :: 0 <= k < |ps| ==> ps[k] == None)
      && (chans != [] ==>
            && (forall k :: 0 <= k < |ps| ==> ps[k] in chans)
            && (forall i :: 0 <= i < |chans| ==> multiset(ps)[chans[i]] == Share(|ps| / |chans|, |ps| % |chans|, i)))
  {
    var chans, ps := d.Registered(), d.OnlinePointers();
    if chans != [] {
      var q, r := |ps| / |chans|, |ps| % |chans|;
      RegisteredIsDistinct(d);
      assert chans[..|chans|] == chans;
      forall i | 0 <= i < |chans| ensures multiset(ps)[chans[i]] == Share(q, r, i) {
        SpreadCounts(chans, |chans|, q, r, chans[i]);
      }
      forall k | 0 <= k < |ps| ensures ps[k] in chans {
        SpreadCounts(chans, |chans|, q, r, ps[k]);
        assert ps[k] in multiset(ps);
      }
    }
  }

  function Sum(q: nat, r: nat, n: nat): nat {
    if n == 0 then 0 else Sum(q, r, n - 1) + Share(q, r, n - 1)
  }

  /** The shares of all channels add up to the number of online CPUs. */
  lemma SharesAddUp(cpus: nat, n: nat)
    requires n > 0
    ensures Sum(cpus / n, cpus % n, n) == cpus
  {
    SumIs(cpus / n, cpus % n, n);
  }

  lemma {:induction false} SumIs(q: nat, r: nat, n: nat)
    ensures Sum(q, r, n) == n * q + if n < r then n else r
  {
    if n > 0 {
      SumIs(q, r, n - 1);
      assert (n - 1) * q + q == n * q;
    }
  }
}
