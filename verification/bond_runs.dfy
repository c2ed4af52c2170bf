/** The operations of the 2.6.27 driver as events, and runs of them. */
module BondRuns {
  import opened BondState

  datatype Event =
    | Enslaved(dev: nat, isUp: bool, linkUp: bool, namedPrimary: bool)
    | Released(k: nat)
    | AllReleased
    | Monitored(reports: seq<bool>)
    | ActiveChanged(k: nat)    // SIOCBONDCHANGEACTIVE
    | Made                     // SIOCBONDHOOLOCKMAKE, which no mode refuses
    | Designated(dev: nat)     // SIOCBONDHOOLOCKTEST on any device, likewise
    | DeviceChanged(k: nat, up: bool)
  {
    predicate Possible(v: BondView) {
      match this
      case Released(k) => k < |v.slaves|
      case ActiveChanged(k) => k < |v.slaves|
      case DeviceChanged(k, _) => k < |v.slaves|
      case Monitored(reports) => |reports| == |v.slaves|
      case _ => true
    }
  }

  function Step(v: BondView, e: Event): (w: BondView)
    requires v.Valid() && e.Possible(v)
    ensures w.Valid() && w.params == v.params
  {
    match e
    case Enslaved(dev, isUp, linkUp, named) => Enslave(v, dev, isUp, linkUp, named)
    case Released(k) => Release(v, k)
    case AllReleased => ReleaseAll(v)
    case Monitored(reports) => Tick(v, reports)
    case ActiveChanged(k) => IoctlChangeActive(v, k)
    case Made => IoctlMake(v)
    case Designated(dev) => IoctlTest(v, dev)
    case DeviceChanged(k, up) => SetDeviceUp(v, k, up)
  }

  /** Every event of `es` is possible when it comes. */
  ghost predicate Plays(v: BondView, es: seq<Event>)
    decreases |es|
  {
    v.Valid() && (es != [] ==> es[0].Possible(v) && Plays(Step(v, es[0]), es[1..]))
  }

  ghost function Run(v: BondView, es: seq<Event>): (w: BondView)
    requires Plays(v, es)
    ensures w.Valid() && w.params == v.params
    decreases |es|
  {
    if es == [] then v else Run(Step(v, es[0]), es[1..])
  }

  /** A run is known by the states it goes through. */
  lemma {:induction false} StepByStep(vs: seq<BondView>, es: seq<Event>)
    requires |vs| == |es| + 1 && forall i :: 0 <= i < |vs| ==> vs[i].Valid()
    requires forall i :: 0 <= i < |es| ==> es[i].Possible(vs[i]) && Step(vs[i], es[i]) == vs[i + 1]
    ensures Plays(vs[0], es) && Run(vs[0], es) == vs[|es|]
    decreases |es|
  {
    hide Step, Event.Possible;
    if es != [] {
      StepByStep(vs[1..], es[1..]);
    }
  }
}
