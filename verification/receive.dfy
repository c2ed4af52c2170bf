/** Delivery of a received packet to the taps and protocol handlers that match it, with
    the reference each of them is given.  A call is put off until the next match is found,
    so that the last one can take over the caller's own reference.

    The classifier, bridge and macvlan hooks are taken to be off and the packet to be past
    the namespace check. */
module Receive {
  import opened Errno

  const NET_RX_DROP := 1
  const ANY := -1     // a null device pointer

  // struct packet_type; `answer` is what its function returns for this packet
  datatype PacketType = PacketType(id: nat, protocol: nat, dev: int, answer: int)

  /** A call of a packet type's function, and whether a reference was added for it. */
  datatype Call = Call(pt: PacketType, added: bool)

  datatype Skb = Skb(protocol: nat, dev: nat, master: int, drop: bool)

  predicate DeviceMatches(pt: PacketType, skb: Skb) {
    if skb.master == ANY then pt.dev == ANY || pt.dev == skb.dev
    else if skb.drop then pt.dev == skb.dev
    else pt.dev == ANY || pt.dev == skb.master || pt.dev == skb.dev
  }

  predicate Buffers(pt: PacketType) {
    pt.answer == -EHOOLOCKBUFF
  }

  /** The entries of a list that match, in list order. */
  function MatchingTaps(l: seq<PacketType>, skb: Skb): seq<PacketType> {
    if l == [] then []
    else
      var last := l[|l| - 1];
      MatchingTaps(l[..|l| - 1], skb) + if DeviceMatches(last, skb) then [last] else []
  }

  function MatchingHandlers(l: seq<PacketType>, skb: Skb): seq<PacketType> {
    if l == [] then []
    else
      var last := l[|l| - 1];
      MatchingHandlers(l[..|l| - 1], skb)
        + if last.protocol == skb.protocol && DeviceMatches(last, skb) then [last] else []
  }

  /** Whom a packet can reach, tap or handler of its protocol: on a device without a master those for
      that device or for any; on an enslaved one those for that device, its master or any; but one
      that the bond should drop only those for the very device it came in on. */
  lemma {:induction false} WhoIsReached(l: seq<PacketType>, skb: Skb, pt: PacketType)
    ensures var reached :=
        if skb.master == ANY then pt.dev in {ANY, skb.dev}
        else if skb.drop then pt.dev == skb.dev
        else pt.dev in {ANY, skb.master, skb.dev};
      && (pt in MatchingTaps(l, skb) <==> pt in l && reached)
      && (pt in MatchingHandlers(l, skb) <==> pt in l && pt.protocol == skb.protocol && reached)
  {
    if l != [] {
      var n := |l| - 1;
      WhoIsReached(l[..n], skb, pt);
      assert l == l[..n] + [l[n]];
    }
  }

  function Added(s: seq<PacketType>): (r: seq<Call>)
    ensures |r| == |s|
  {
    seq(|s|, i requires 0 <= i < |s| => Call(s[i], true))
  }

  /** `s` without its last element. */
  function Front<T>(s: seq<T>): seq<T> {
    if s == [] then [] else s[..|s| - 1]
  }

  ghost predicate AnyBuffers(s: seq<PacketType>) {
    exists i :: 0 <= i < |s| && s[i].answer == -EHOOLOCKBUFF
  }

  lemma FrontGrows(s: seq<PacketType>, x: PacketType)
    ensures Front(s + [x]) == s
    ensures s == [] ==> Added(s) == [] && !AnyBuffers(s)
    ensures s != [] ==>
      && Added(s) == Added(Front(s)) + [Call(s[|s| - 1], true)]
      && (AnyBuffers(s) <==> AnyBuffers(Front(s)) || Buffers(s[|s| - 1]))
  {
    if s != [] && AnyBuffers(s) {
      var i :| 0 <= i < |s| && Buffers(s[i]);
      assert i < |s| - 1 ==> Buffers(Front(s)[i]);
    }
  }

  lemma {:induction false} HandlersPrefix(l: seq<PacketType>, k: nat, skb: Skb)
    requires k <= |l|
    ensures MatchingHandlers(l[..k], skb) <= MatchingHandlers(l, skb)
    decreases |l|
  {
    if k < |l| {
      var m := |l| - 1;
      HandlersPrefix(l[..m], k, skb);
      assert l[..m][..k] == l[..k];
    } else {
      assert l[..k] == l;
    }
  }

  lemma FrontOfTaps(ts: seq<PacketType>, full: seq<PacketType>)
    requires ts <= full && AnyBuffers(Front(ts))
    ensures AnyBuffers(Front(full))
  {
    var i :| 0 <= i < |Front(ts)| && Buffers(Front(ts)[i]);
    assert Front(full)[i] == ts[i];
  }

  /** Delivery stops after the calls for `done`, the last of which buffered. */
  lemma StopsEarly(full: seq<PacketType>, done: seq<PacketType>)
    requires done < full && done != [] && Buffers(done[|done| - 1]) && !AnyBuffers(Front(done))
    ensures AnyBuffers(Front(full)) && full[..|done|] == done && full[..|done| - 1] == Front(done)
  {
    assert Front(full)[|done| - 1] == done[|done| - 1];
  }

  /** deliver_skb: a reference is added and handed to the function. */
  function DeliverSkb(calls: seq<Call>, pt: PacketType): seq<Call> {
    calls + [Call(pt, true)]
  }

  /** Whether the device pointers of the delivery select `pt`. */
  predicate Selected(pt: PacketType, nullOrOrig: int, dev: int, origDev: int) {
    pt.dev == nullOrOrig || pt.dev == dev || pt.dev == origDev
  }

  /** The pointers that netif_receive_skb compares with. */
  function Pointers(skb: Skb): (p: (int, int, int))
    ensures forall pt :: DeviceMatches(pt, skb) <==> Selected(pt, p.0, p.1, p.2)
  {
    if skb.master == ANY then (ANY, skb.dev, skb.dev)
    else if skb.drop then (skb.dev, skb.dev, skb.dev)
    else (ANY, skb.master, skb.dev)
  }

  /** pt_prev: the match whose call is put off, if there is one. */
  function LastOf(s: seq<PacketType>): seq<PacketType> {
    if s == [] then [] else [s[|s| - 1]]
  }

  /** The loop over ptype_all. */
  method RunTaps(skb: Skb, taps: seq<PacketType>)
      returns (calls: seq<Call>, prev: seq<PacketType>, ret: int, buffered: bool)
    ensures var ts := MatchingTaps(taps, skb);
      && calls == Added(Front(ts)) && prev == LastOf(ts) && (buffered <==> AnyBuffers(Front(ts)))
  {
    hide Added, AnyBuffers, Front, DeviceMatches;
    var (nullOrOrig, dev, origDev) := Pointers(skb);
    calls, prev, ret, buffered := [], [], NET_RX_DROP, false;
    ghost var ts: seq<PacketType> := [];
    NothingYet();
    var i := 0;
    while i < |taps|
      invariant 0 <= i <= |taps| && ts == MatchingTaps(taps[..i], skb)
      invariant prev == LastOf(ts) && calls == Added(Front(ts))
      invariant buffered <==> AnyBuffers(Front(ts))
    {
      assert taps[..i + 1][..i] == taps[..i];
      if Selected(taps[i], nullOrOrig, dev, origDev) {
        FrontGrows(ts, taps[i]);
        if prev != [] {
          calls := DeliverSkb(calls, prev[0]);
          ret := prev[0].answer;
          if ret == -EHOOLOCKBUFF {
            buffered := true;
          }
        }
        prev := [taps[i]];
        ts := ts + [taps[i]];
      }
      i := i + 1;
    }
    assert taps[..|taps|] == taps;
  }

  lemma NothingYet()
    ensures Front<PacketType>([]) == [] && Added([]) == [] && !AnyBuffers([])
  {
  }

  lemma HandlersStep(l: seq<PacketType>, i: nat, skb: Skb)
    requires i <= |l|
    ensures MatchingHandlers(l[..0], skb) == []
    ensures i < |l| ==>
      MatchingHandlers(l[..i + 1], skb) ==
      MatchingHandlers(l[..i], skb) + if l[i].protocol == skb.protocol && DeviceMatches(l[i], skb) then [l[i]] else []
  {
    if i < |l| {
      assert l[..i + 1][..i] == l[..i];
    }
  }

  /** The loop over the protocol's bucket, `ts` being the taps that matched; `stopped` when a
      function answered that it buffered the packet. */
  method RunHandlers(skb: Skb, handlers: seq<PacketType>, ghost ts: seq<PacketType>,
                     calls0: seq<Call>, prev0: seq<PacketType>)
      returns (calls: seq<Call>, prev: seq<PacketType>, ret: int, stopped: bool)
    requires calls0 == Added(Front(ts)) && prev0 == LastOf(ts) && !AnyBuffers(Front(ts))
    ensures var full := ts + MatchingHandlers(handlers, skb);
      if stopped then
        && ret == -EHOOLOCKBUFF && 0 < |calls| < |full| && calls == Added(full[..|calls|])
        && full[|calls| - 1].answer == -EHOOLOCKBUFF && !AnyBuffers(full[..|calls| - 1]) && AnyBuffers(Front(full))
      else calls == Added(Front(full)) && prev == LastOf(full) && !AnyBuffers(Front(full))
  {
    hide Added, AnyBuffers, Front, DeviceMatches, MatchingHandlers;
    var (nullOrOrig, dev, origDev) := Pointers(skb);
    calls, prev, ret, stopped := calls0, prev0, NET_RX_DROP, false;
    ghost var all, full := ts, ts + MatchingHandlers(handlers, skb);
    assert ts + [] == ts;
    NothingYet();
    HandlersStep(handlers, 0, skb);
    hide Pointers, Selected;
    var i := 0;
    while i < |handlers|
      invariant 0 <= i <= |handlers| && all == ts + MatchingHandlers(handlers[..i], skb)
      invariant prev == LastOf(all) && calls == Added(Front(all)) && !AnyBuffers(Front(all))
    {
      HandlersStep(handlers, i, skb);
      if handlers[i].protocol == skb.protocol && Selected(handlers[i], nullOrOrig, dev, origDev) {
        FrontGrows(all, handlers[i]);
        ghost var more := all + [handlers[i]];
        assert more == ts + MatchingHandlers(handlers[..i + 1], skb);
        if prev != [] {
          calls := DeliverSkb(calls, prev[0]);
          ret := prev[0].answer;
          if ret == -EHOOLOCKBUFF {
            HandlersPrefix(handlers, i + 1, skb);
            StopsEarly(full, all);
            return calls, prev, ret, true;
          }
        }
        prev := [handlers[i]];
        all := more;
      }
      i := i + 1;
    }
    assert handlers[..|handlers|] == handlers;
  }

  /** netif_receive_skb.  `calls` are the calls in order and `users` the references of the
      caller that are left: one going in, none once it is handed over or dropped. */
  method NetifReceiveSkb(skb: Skb, taps: seq<PacketType>, handlers: seq<PacketType>)
      returns (ret: int, calls: seq<Call>, users: int)
    // nobody buffers on the way: every match is called once, in order, and all but the last
    // are given an added reference
    ensures var all := MatchingTaps(taps, skb) + MatchingHandlers(handlers, skb);
      !AnyBuffers(Front(all)) ==>
        && users == 0
        && (all == [] ==> calls == [] && ret == NET_RX_DROP)
        && (all != [] ==> calls == Added(Front(all)) + [Call(all[|all| - 1], false)] && ret == all[|all| - 1].answer)
    // a tap that is not the last one buffers: the taps before the last are called, nothing
    // else is, and the caller's reference is left for the buffer
    ensures var ts := MatchingTaps(taps, skb);
      AnyBuffers(Front(ts)) ==> calls == Added(Front(ts)) && users == 1 && ret == 0
    // otherwise the first to buffer, but for the very last match, ends the delivery
    ensures var ts, all := MatchingTaps(taps, skb), MatchingTaps(taps, skb) + MatchingHandlers(handlers, skb);
      !AnyBuffers(Front(ts)) && AnyBuffers(Front(all)) ==>
        && users == 1 && ret == -EHOOLOCKBUFF
        && 0 < |calls| < |all| && calls == Added(all[..|calls|])
        && all[|calls| - 1].answer == -EHOOLOCKBUFF && !AnyBuffers(all[..|calls| - 1])
  {
    hide Added, AnyBuffers, MatchingTaps, MatchingHandlers;
    ghost var ts, full := MatchingTaps(taps, skb), MatchingTaps(taps, skb) + MatchingHandlers(handlers, skb);
    var prev, buffered, stopped;
    users := 1;
    calls, prev, ret, buffered := RunTaps(skb, taps);
    if buffered {
      FrontOfTaps(ts, full);
      return 0, calls, users;
    }
    calls, prev, ret, stopped := RunHandlers(skb, handlers, ts, calls, prev);
    if stopped {
      return ret, calls, users;
    }
    if prev != [] {
      calls := calls + [Call(prev[0], false)];
      ret := prev[0].answer;
    } else {
      NothingYet();
      ret := NET_RX_DROP;
    }
    users := 0;
  }
}
