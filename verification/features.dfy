/** The feature bits of a bond: folding those of its slaves, and the VLAN_CHALLENGED bit
    that keeps VLANs and slaves that cannot carry them apart.

    The bits are those of linux/netdevice.h, which is not part of this model; the ones
    the driver does not name are `Other`. */
module Features {
  import opened Errno

  datatype Bit =
    | SG | FragList | HighDma | Lltx | Gso
    | IpCsum | Ipv6Csum | HwCsum | NoCsum
    | Tso | TsoEcn | Tso6 | Ufo | GsoRobust
    | VlanChallenged | HwVlanTx | HwVlanRx | HwVlanFilter
    | Other(n: nat)

  const ALL_CSUM: set<Bit> := {IpCsum, Ipv6Csum, HwCsum, NoCsum}
  const GSO_SOFTWARE: set<Bit> := {Tso, TsoEcn, Tso6}
  const GSO_MASK: set<Bit> := {Tso, TsoEcn, Tso6, Ufo, GsoRobust}
  const VLAN_FEATURES: set<Bit> := {VlanChallenged, HwVlanRx, HwVlanTx, HwVlanFilter}
  const FORCED: set<Bit> := {SG, FragList, HighDma, NoCsum} + GSO_MASK

  function Xor(s: set<Bit>, t: set<Bit>): set<Bit> {
    (s - t) + (t - s)
  }

  /** A device that lacks the best checksum ability takes it from the others. */
  function Downgraded(all: set<Bit>, one: set<Bit>): set<Bit> {
    var all1 := if NoCsum in all && NoCsum !in one then Xor(all, {NoCsum, HwCsum}) else all;
    if HwCsum in all1 && HwCsum !in one then Xor(all1, {HwCsum, IpCsum, Ipv6Csum}) else all1
  }

  /** netdev_compute_features: `all` after a device with `one` joins. */
  function ComputeFeatures(all: set<Bit>, one: set<Bit>): set<Bit> {
    var all2 := Downgraded(all, one);
    var one1 := (if Gso in one then one + GSO_SOFTWARE else one) + {Gso};
    var all3 := if GsoRobust in one1 then all2 + {GsoRobust} else all2;
    var all4 := all3 * (one1 + {Lltx});
    var all5 := if all4 * ALL_CSUM == {} then all4 - {SG} else all4;
    if SG !in all5 then all5 - GSO_MASK else all5
  }

  function Fold(all: set<Bit>, slaves: seq<set<Bit>>): set<Bit> {
    if slaves == [] then all
    else ComputeFeatures(Fold(all, slaves[..|slaves| - 1]), slaves[|slaves| - 1])
  }

  function Start(f: set<Bit>): set<Bit> {
    (f - (ALL_CSUM + VLAN_FEATURES)) + FORCED
  }

  /** bond_compute_features: the bond's features after a recomputation. */
  function BondFeatures(f: set<Bit>, slaves: seq<set<Bit>>): set<Bit> {
    Fold(Start(f), slaves) + f * VLAN_FEATURES
  }

  // -------------------------------- soundness of the fold ----------------------------

  predicate HasHwOrBetter(one: set<Bit>) {
    HwCsum in one || NoCsum in one
  }

  /** The features `all` promise nothing that some slave lacks. */
  ghost predicate Sound(all: set<Bit>, slaves: seq<set<Bit>>) {
    && (SG in all ==> all * ALL_CSUM != {} && forall i :: 0 <= i < |slaves| ==> SG in slaves[i])
    && (all * GSO_MASK != {} ==> SG in all)
    && (NoCsum in all ==> forall i :: 0 <= i < |slaves| ==> NoCsum in slaves[i])
    && (HwCsum in all ==> forall i :: 0 <= i < |slaves| ==> HasHwOrBetter(slaves[i]))
    && (IpCsum in all ==> forall i :: 0 <= i < |slaves| ==> IpCsum in slaves[i] || HasHwOrBetter(slaves[i]))
    && (Ipv6Csum in all ==> forall i :: 0 <= i < |slaves| ==> Ipv6Csum in slaves[i] || HasHwOrBetter(slaves[i]))
  }

  /** At most one tier of checksumming is claimed, so that downgrading by exclusive-or
      clears one tier and sets the next. */
  predicate OneTier(all: set<Bit>) {
    && (NoCsum in all ==> all * ALL_CSUM == {NoCsum})
    && (HwCsum in all ==> all * ALL_CSUM == {HwCsum})
  }

  lemma StepIsSound(all: set<Bit>, slaves: seq<set<Bit>>, one: set<Bit>)
    requires Sound(all, slaves) && OneTier(all)
    ensures Sound(ComputeFeatures(all, one), slaves + [one]) && OneTier(ComputeFeatures(all, one))
  {
    var r := ComputeFeatures(all, one);
    ChecksumStep(all, one);
    assert forall b :: b in r * ALL_CSUM <==> b in r && b in ALL_CSUM;
    if SG in r {
      assert SG in all && SG in one;
    }
  }

  lemma ChecksumStep(all: set<Bit>, one: set<Bit>)
    requires OneTier(all)
    ensures var r := ComputeFeatures(all, one);
      && (NoCsum in r <==> NoCsum in all && NoCsum in one)
      && (HwCsum in r <==> HwCsum in one && (HwCsum in all || (NoCsum in all && NoCsum !in one)))
      && (IpCsum in r ==> IpCsum in one && all * ALL_CSUM != {} && (IpCsum in all || HwCsum !in one))
      && (IpCsum in r ==> IpCsum in all || HwCsum in all || NoCsum in all)
      && (Ipv6Csum in r ==> Ipv6Csum in one && (Ipv6Csum in all || HwCsum in all || NoCsum in all))
      && OneTier(r)
      && (SG in r ==> r * ALL_CSUM != {} && SG in all && SG in one)
      && (r * GSO_MASK != {} ==> SG in r)
  {
    var r := ComputeFeatures(all, one);
    assert forall b :: b in all * ALL_CSUM <==> b in all && b in ALL_CSUM;
    assert NoCsum in all ==> HwCsum !in all * ALL_CSUM && IpCsum !in all * ALL_CSUM && Ipv6Csum !in all * ALL_CSUM;
    assert HwCsum in all ==> IpCsum !in all * ALL_CSUM && Ipv6Csum !in all * ALL_CSUM;
  }

  lemma {:induction false} FoldIsSound(all: set<Bit>, slaves: seq<set<Bit>>)
    requires Sound(all, []) && OneTier(all)
    ensures Sound(Fold(all, slaves), slaves) && OneTier(Fold(all, slaves))
  {
    hide ComputeFeatures;
    if slaves != [] {
      var n := |slaves| - 1;
      FoldIsSound(all, slaves[..n]);
      StepIsSound(Fold(all, slaves[..n]), slaves[..n], slaves[n]);
      assert slaves[..n] + [slaves[n]] == slaves;
    }
  }

  /** The bond claims scatter-gather only if every slave has it and some checksumming is
      left, segmentation offloads only with scatter-gather, and a checksum ability only if
      every slave has that one or a stronger one. */
  lemma BondFeaturesAreSound(f: set<Bit>, slaves: seq<set<Bit>>)
    ensures Sound(BondFeatures(f, slaves), slaves)
  {
    hide Fold;
    var all, r := Start(f), BondFeatures(f, slaves);
    assert all * ALL_CSUM == {NoCsum};
    FoldIsSound(all, slaves);
    assert r * ALL_CSUM == Fold(all, slaves) * ALL_CSUM;
    assert r * GSO_MASK == Fold(all, slaves) * GSO_MASK;
  }

  // --------------------------------- recomputation -----------------------------------

  /** Bits that the fold only ever intersects, or leaves alone. */
  predicate Plain(b: Bit) {
    b.Other? || b == Gso || b == Lltx
  }

  function NotPlain(all: set<Bit>): set<Bit> {
    set b | b in all && !Plain(b)
  }

  lemma StepLosesPlain(all: set<Bit>, one: set<Bit>, lost: set<Bit>)
    requires forall b :: b in lost ==> Plain(b)
    ensures ComputeFeatures(all - lost, one) == ComputeFeatures(all, one) - lost
  {
    hide ComputeFeatures;
    var r, s := ComputeFeatures(all - lost, one), ComputeFeatures(all, one) - lost;
    ComputeBits(all, one);
    ComputeBits(all - lost, one);
    assert NotPlain(all - lost) == NotPlain(all);
    forall b ensures b in r <==> b in s {
    }
  }

  /** The step bit by bit. */
  lemma ComputeBits(all: set<Bit>, one: set<Bit>)
    ensures var r := ComputeFeatures(all, one);
      && (forall b :: Plain(b) ==> (b in r <==> b in all && (b == Gso || b == Lltx || b in one)))
      && (forall b :: !Plain(b) ==> (b in r <==> b in ComputeFeatures(NotPlain(all), one)))
  {
    PlainBits(all, one);
    CsumBits(all, one, NotPlain(all));
    hide ComputeFeatures;
  }

  lemma PlainBits(all: set<Bit>, one: set<Bit>)
    ensures forall b :: Plain(b) ==>
      (b in ComputeFeatures(all, one) <==> b in all && (b == Gso || b == Lltx || b in one))
  {
  }

  lemma CsumBits(all: set<Bit>, one: set<Bit>, p: set<Bit>)
    requires forall b :: !Plain(b) ==> (b in all <==> b in p)
    ensures forall b :: !Plain(b) ==> (b in ComputeFeatures(all, one) <==> b in ComputeFeatures(p, one))
  {
    DowngradeBits(all, one, p);
    hide Downgraded;
    var one1 := (if Gso in one then one + GSO_SOFTWARE else one) + {Gso};
    var a3 := if GsoRobust in one1 then Downgraded(all, one) + {GsoRobust} else Downgraded(all, one);
    var p3 := if GsoRobust in one1 then Downgraded(p, one) + {GsoRobust} else Downgraded(p, one);
    assert (a3 * (one1 + {Lltx})) * ALL_CSUM == (p3 * (one1 + {Lltx})) * ALL_CSUM;
  }

  lemma DowngradeBits(all: set<Bit>, one: set<Bit>, p: set<Bit>)
    requires forall b :: !Plain(b) ==> (b in all <==> b in p)
    ensures forall b :: !Plain(b) ==> (b in Downgraded(all, one) <==> b in Downgraded(p, one))
  {
  }

  lemma {:induction false} FoldLosesPlain(all: set<Bit>, slaves: seq<set<Bit>>, lost: set<Bit>)
    requires forall b :: b in lost ==> Plain(b)
    ensures Fold(all - lost, slaves) == Fold(all, slaves) - lost
  {
    hide ComputeFeatures;
    if slaves != [] {
      var n := |slaves| - 1;
      FoldLosesPlain(all, slaves[..n], lost);
      StepLosesPlain(Fold(all, slaves[..n]), slaves[n], lost);
    }
  }

  lemma {:induction false} FoldAddsNothing(all: set<Bit>, slaves: seq<set<Bit>>)
    ensures forall b :: b in Fold(all, slaves) && b !in ALL_CSUM + GSO_MASK ==> b in all
  {
    if slaves != [] {
      FoldAddsNothing(all, slaves[..|slaves| - 1]);
    }
  }

  /** Recomputing on unchanged slaves changes nothing. */
  lemma RecomputingIsIdempotent(f: set<Bit>, slaves: seq<set<Bit>>)
    ensures BondFeatures(BondFeatures(f, slaves), slaves) == BondFeatures(f, slaves)
  {
    hide Fold;
    var all, g := Start(f), BondFeatures(f, slaves);
    var once := Fold(all, slaves);
    FoldAddsNothing(all, slaves);
    var lost := set b | b in all && b !in once && Plain(b);
    assert Start(g) == all - lost;
    FoldLosesPlain(all, slaves, lost);
    assert once - lost == once;
    assert g * VLAN_FEATURES == f * VLAN_FEATURES;
  }

  // ------------------------------- VLAN-challenged slaves ----------------------------

  /** Besides the VLAN_CHALLENGED bit, `now` is what recomputing gives from `before`. */
  ghost predicate UpToDate(before: set<Bit>, slaves: seq<set<Bit>>, now: set<Bit>) {
    forall b :: b != VlanChallenged ==> (b in now <==> b in BondFeatures(before, slaves))
  }

  /** Which that bit does not matter to. */
  lemma RestIsTheSame(f: set<Bit>, g: set<Bit>, slaves: seq<set<Bit>>)
    requires forall b :: b != VlanChallenged ==> (b in f <==> b in g)
    ensures UpToDate(f, slaves, BondFeatures(g, slaves))
  {
    hide Fold;
    assert Start(f) == Start(g);
  }

  /** What stops an enslave before the slave is attached, if anything. */
  datatype Obstacle = AlreadySlave | Later(error: int) | Nothing

  class FeatureBond {
    var features: set<Bit>
    var slaves: seq<set<Bit>>
    var vlans: seq<int>

    /** The bond blocks VLANs exactly when a slave cannot carry them, or when it has
        neither slaves nor VLANs; and it never has both VLANs and such a slave. */
    ghost predicate BlocksRightly()
      reads this
    {
      && (VlanChallenged in features <==>
            (exists i :: 0 <= i < |slaves| && VlanChallenged in slaves[i]) || (slaves == [] && vlans == []))
      && (vlans != [] ==> forall i :: 0 <= i < |slaves| ==> VlanChallenged !in slaves[i])
    }

    /** The claimed features are sound and up to date, and VLANs are blocked rightly. */
    ghost predicate Valid()
      reads this
    {
      && BlocksRightly()
      && (slaves != [] ==> Sound(features, slaves) && BondFeatures(features, slaves) == features)
    }

    constructor (features: set<Bit>)
      ensures Valid() && slaves == [] && vlans == []
    {
      this.features := features + {VlanChallenged, Lltx};
      slaves, vlans := [], [];
    }

    method Recompute()
      modifies `features
      ensures features == BondFeatures(old(features), slaves)
      ensures Sound(features, slaves) && BondFeatures(features, slaves) == features
    {
      var f := Start(features);
      var i := 0;
      while i < |slaves|
        invariant 0 <= i <= |slaves| && f == Fold(Start(features), slaves[..i])
      {
        assert slaves[..i + 1][..i] == slaves[..i];
        f := ComputeFeatures(f, slaves[i]);
        i := i + 1;
      }
      assert slaves[..|slaves|] == slaves;
      BondFeaturesAreSound(features, slaves);
      RecomputingIsIdempotent(features, slaves);
      features := f + features * VLAN_FEATURES;
    }

    method HasChallengedSlaves() returns (found: bool)
      ensures found <==> exists i :: 0 <= i < |slaves| && VlanChallenged in slaves[i]
    {
      var i := 0;
      while i < |slaves|
        invariant 0 <= i <= |slaves|
        invariant forall j :: 0 <= j < i ==> VlanChallenged !in slaves[j]
      {
        if VlanChallenged in slaves[i] {
          return true;
        }
        i := i + 1;
      }
      return false;
    }

    /** bond_enslave of a device with features `dev`. */
    method EnslaveDevice(dev: set<Bit>, obstacle: Obstacle) returns (res: int)
      requires Valid() && obstacle != Later(0)
      modifies `features, `slaves
      ensures Valid()
      ensures res ==
        if obstacle == AlreadySlave then -EBUSY
        else if VlanChallenged in dev && vlans != [] then -EPERM
        else if obstacle.Later? then obstacle.error
        else 0
      ensures res == 0 ==> slaves == old(slaves) + [dev] && UpToDate(old(features), slaves, features)
      ensures res != 0 ==> slaves == old(slaves) && features == old(features)
    {
      hide BondFeatures, Sound;
      var oldFeatures := features;
      if obstacle == AlreadySlave {
        return -EBUSY;
      }
      if VlanChallenged in dev {
        if vlans != [] {
          return -EPERM;
        }
        features := features + {VlanChallenged};
      } else if |slaves| == 0 {
        features := features - {VlanChallenged};
      }
      if obstacle.Later? {
        features := oldFeatures;
        return obstacle.error;
      }
      slaves := slaves + [dev];
      ghost var challenged := VlanChallenged in features;
      assert challenged <==> exists i :: 0 <= i < |slaves| && VlanChallenged in slaves[i] by {
        assert slaves[|slaves| - 1] == dev;
        assert forall i :: 0 <= i < |old(slaves)| ==> slaves[i] == old(slaves)[i];
      }
      KeepsVlanBits(features, slaves);
      RestIsTheSame(oldFeatures, features, slaves);
      Recompute();
      return 0;
    }

    /** bond_release of the slave at position `k`. */
    method ReleaseSlave(k: nat)
      requires Valid() && k < |slaves|
      modifies `features, `slaves
      ensures Valid() && slaves == old(slaves)[..k] + old(slaves)[k + 1..]
      ensures UpToDate(old(features), slaves, features)
    {
      hide BondFeatures, Sound;
      slaves := slaves[..k] + slaves[k + 1..];
      assert forall i :: 0 <= i < |slaves| ==> slaves[i] == old(slaves)[if i < k then i else i + 1];
      KeepsVlanBits(features, slaves);
      Recompute();
      var challenged := HasChallengedSlaves();
      if |slaves| == 0 {
        if vlans == [] {
          features := features + {VlanChallenged};
        }
      } else if VlanChallenged in features && !challenged {
        VlanBitIsFree(features, slaves);
        features := features - {VlanChallenged};
      } else if challenged {
        var i :| 0 <= i < |slaves| && VlanChallenged in slaves[i];
        assert VlanChallenged in old(slaves)[if i < k then i else i + 1];
      }
    }

    /** bond_release_all. */
    method ReleaseAll()
      requires Valid()
      modifies `features, `slaves
      ensures Valid() && slaves == []
    {
      hide BondFeatures, Sound;
      if |slaves| == 0 {
        return;
      }
      while slaves != []
        invariant VlanChallenged in features <==> VlanChallenged in old(features)
        decreases |slaves|
      {
        slaves := slaves[1..];
        KeepsVlanBits(features, slaves);
        Recompute();
      }
      if vlans == [] {
        features := features + {VlanChallenged};
      }
    }

    /** bond_add_vlan; the VLAN layer refuses a device that has the bit set. */
    method AddVlan(vid: int) returns (accepted: bool)
      requires Valid()
      modifies `vlans
      ensures Valid() && accepted == (VlanChallenged !in features)
      ensures vlans == if accepted then old(vlans) + [vid] else old(vlans)
    {
      if VlanChallenged in features {
        return false;
      }
      vlans := vlans + [vid];
      return true;
    }

    /** bond_del_vlan: the first entry for `vid` goes. */
    method DeleteVlan(vid: int) returns (res: int)
      requires Valid()
      modifies `vlans, `features
      ensures Valid() && (res == 0 <==> vid in old(vlans))
      ensures res != 0 ==> res == -ENODEV && vlans == old(vlans) && features == old(features)
      ensures res == 0 ==> |vlans| == |old(vlans)| - 1 && multiset(old(vlans)) == multiset(vlans) + multiset{vid}
    {
      hide BondFeatures, Sound;
      var i := 0;
      while i < |vlans|
        invariant 0 <= i <= |vlans| && vlans == old(vlans) && features == old(features) && vid !in vlans[..i]
      {
        if vlans[i] == vid {
          assert vlans == vlans[..i] + [vid] + vlans[i + 1..];
          vlans := vlans[..i] + vlans[i + 1..];
          if vlans == [] && |slaves| == 0 {
            features := features + {VlanChallenged};
          }
          return 0;
        }
        i := i + 1;
      }
      return -ENODEV;
    }
  }

  lemma {:induction false} FoldHasNoVlanBit(all: set<Bit>, slaves: seq<set<Bit>>)
    requires VlanChallenged !in all
    ensures VlanChallenged !in Fold(all, slaves)
  {
    FoldAddsNothing(all, slaves);
  }

  /** Recomputing keeps the VLAN_CHALLENGED bit as it is. */
  lemma KeepsVlanBits(f: set<Bit>, slaves: seq<set<Bit>>)
    ensures VlanChallenged in BondFeatures(f, slaves) <==> VlanChallenged in f
  {
    FoldHasNoVlanBit(Start(f), slaves);
  }

  /** Clearing the bit leaves the features sound and up to date. */
  lemma VlanBitIsFree(f: set<Bit>, slaves: seq<set<Bit>>)
    requires Sound(f, slaves) && BondFeatures(f, slaves) == f
    ensures var g := f - {VlanChallenged}; Sound(g, slaves) && BondFeatures(g, slaves) == g
  {
    hide Fold;
    var g := f - {VlanChallenged};
    FoldHasNoVlanBit(Start(f), slaves);
    assert g * ALL_CSUM == f * ALL_CSUM && g * GSO_MASK == f * GSO_MASK;
    assert Start(g) == Start(f);
  }
}
