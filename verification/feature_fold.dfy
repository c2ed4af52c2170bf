/** What the fold of the feature bits keeps, in closed form: which slaves, in which order, cost the
    bond a checksum ability or scatter-gather. */
module FeatureFold {
  import opened Features

  /** The first slave from `i` on that lacks `b`, or the end. */
  function FirstWithout(slaves: seq<set<Bit>>, b: Bit, i: nat): (k: nat)
    requires i <= |slaves|
    ensures i <= k <= |slaves| && (k < |slaves| ==> b !in slaves[k])
    ensures forall j :: i <= j < k ==> b in slaves[j]
    decreases |slaves| - i
  {
    if i < |slaves| && b in slaves[i] then FirstWithout(slaves, b, i + 1) else i
  }

  /** Where checksumming in software-visible hardware of some kind begins to be needed. */
  function FirstNeedy(slaves: seq<set<Bit>>): (k: nat)
    ensures k <= |slaves|
  {
    FirstWithout(slaves, NoCsum, 0)
  }

  /** And where the general kind is no longer there. */
  function FirstWeak(slaves: seq<set<Bit>>): (k: nat)
    ensures FirstNeedy(slaves) <= k <= |slaves|
  {
    FirstWithout(slaves, HwCsum, FirstNeedy(slaves))
  }

  /** The checksum ability `b` survives the slaves: no checksums needed if every slave needs none;
      the general kind if some slave needs them and every slave from the first such one on has it;
      one for a single protocol if from there some slave lacks the general kind, and every slave
      from the first such one on has that for the protocol. */
  ghost predicate Survives(b: Bit, slaves: seq<set<Bit>>) {
    match b
    case NoCsum => FirstNeedy(slaves) == |slaves|
    case HwCsum => FirstNeedy(slaves) < |slaves| && FirstWeak(slaves) == |slaves|
    case _ => FirstWeak(slaves) < |slaves| && forall j :: FirstWeak(slaves) <= j < |slaves| ==> b in slaves[j]
  }

  ghost predicate AllHave(b: Bit, slaves: seq<set<Bit>>) {
    forall i :: 0 <= i < |slaves| ==> b in slaves[i]
  }

  /** `all` is what is left of checksumming and scatter-gather after `slaves`. */
  ghost predicate Form(all: set<Bit>, slaves: seq<set<Bit>>) {
    && OneTier(all)
    && (forall b :: b in ALL_CSUM ==> (b in all <==> Survives(b, slaves)))
    && (SG in all <==> AllHave(SG, slaves) && exists b :: b in ALL_CSUM && Survives(b, slaves))
  }

  lemma {:induction false} FirstSnoc(slaves: seq<set<Bit>>, one: set<Bit>, b: Bit, i: nat)
    requires i <= |slaves|
    ensures FirstWithout(slaves + [one], b, i) ==
      var k := FirstWithout(slaves, b, i); if k < |slaves| || b !in one then k else k + 1
    decreases |slaves| - i
  {
    if i < |slaves| {
      FirstSnoc(slaves, one, b, i + 1);
    }
  }

  predicate Needy(one: set<Bit>) {
    NoCsum !in one
  }

  /** Checksums were not needed, or computed in the general way, before a slave that needs them. */
  predicate NewlyWeak(hw: bool, no: bool, one: set<Bit>) {
    hw || (no && Needy(one))
  }

  /** One step, tier by tier. */
  lemma CsumStep(all: set<Bit>, one: set<Bit>)
    requires OneTier(all)
    ensures var r := ComputeFeatures(all, one);
      && OneTier(r)
      && (NoCsum in r <==> NoCsum in all && NoCsum in one)
      && (HwCsum in r <==> HwCsum in one && (HwCsum in all || (NoCsum in all && NoCsum !in one)))
      && (forall b :: b in {IpCsum, Ipv6Csum} ==>
            (b in r <==> b in one && (b in all || (HwCsum !in one && NewlyWeak(HwCsum in all, NoCsum in all, one)))))
      && (SG in r <==> SG in all && SG in one && exists b :: b in ALL_CSUM && b in r)
  {
    ChecksumStep(all, one);
    var r := ComputeFeatures(all, one);
    assert forall b :: b in r * ALL_CSUM <==> b in r && b in ALL_CSUM;
    assert forall b :: b in all * ALL_CSUM <==> b in all && b in ALL_CSUM;
  }

  lemma SurvivesSnoc(slaves: seq<set<Bit>>, one: set<Bit>)
    ensures var t := slaves + [one];
      && (Survives(NoCsum, t) <==> Survives(NoCsum, slaves) && NoCsum in one)
      && (Survives(HwCsum, t) <==>
            HwCsum in one && (Survives(HwCsum, slaves) || (Survives(NoCsum, slaves) && NoCsum !in one)))
      && (forall b :: b in {IpCsum, Ipv6Csum} ==>
            (Survives(b, t) <==>
              && b in one
              && (|| Survives(b, slaves)
                  || (HwCsum !in one && NewlyWeak(Survives(HwCsum, slaves), Survives(NoCsum, slaves), one)))))
  {
    var t, n := slaves + [one], |slaves|;
    FirstSnoc(slaves, one, NoCsum, 0);
    FirstSnoc(slaves, one, HwCsum, FirstNeedy(slaves));
    assert t[n] == one && forall i :: 0 <= i < n ==> t[i] == slaves[i];
    assert FirstNeedy(t) == if FirstNeedy(slaves) < n || Needy(one) then FirstNeedy(slaves) else n + 1;
    assert FirstWeak(t) ==
      if FirstWeak(slaves) < n || (HwCsum !in one && (FirstNeedy(slaves) < n || Needy(one))) then FirstWeak(slaves)
      else n + 1;
    forall b | b in {IpCsum, Ipv6Csum} && FirstWeak(t) < n + 1 && b in one
      ensures (forall j :: FirstWeak(t) <= j < n + 1 ==> b in t[j]) <==>
        (forall j :: FirstWeak(slaves) <= j < n ==> b in slaves[j])
    {
    }
  }

  lemma FormStep(all: set<Bit>, slaves: seq<set<Bit>>, one: set<Bit>)
    requires Form(all, slaves)
    ensures Form(ComputeFeatures(all, one), slaves + [one])
  {
    hide ComputeFeatures, Survives, OneTier;
    CsumStep(all, one);
    SurvivesSnoc(slaves, one);
    var t := slaves + [one];
    assert AllHave(SG, t) <==> AllHave(SG, slaves) && SG in one by {
      assert t[|slaves|] == one && forall i :: 0 <= i < |slaves| ==> t[i] == slaves[i];
    }
  }

  lemma {:induction false} FoldForm(all: set<Bit>, slaves: seq<set<Bit>>)
    requires Form(all, [])
    ensures Form(Fold(all, slaves), slaves)
  {
    hide ComputeFeatures, Form;
    if slaves != [] {
      var n := |slaves| - 1;
      FoldForm(all, slaves[..n]);
      FormStep(Fold(all, slaves[..n]), slaves[..n], slaves[n]);
      assert slaves[..n] + [slaves[n]] == slaves;
    }
  }

  /** The bond claims a checksum ability exactly if it survives the slaves in their order, and
      scatter-gather exactly if every slave has it and some checksum ability survives. */
  lemma BondKeepsIff(f: set<Bit>, slaves: seq<set<Bit>>)
    ensures forall b :: b in ALL_CSUM ==> (b in BondFeatures(f, slaves) <==> Survives(b, slaves))
    ensures SG in BondFeatures(f, slaves) <==>
      AllHave(SG, slaves) && exists b :: b in ALL_CSUM && Survives(b, slaves)
  {
    StartForm(f);
    FoldForm(Start(f), slaves);
    hide Fold, Survives, Start, OneTier, BondFeatures, AllHave;
    forall b | b in ALL_CSUM || b == SG ensures b in BondFeatures(f, slaves) <==> b in Fold(Start(f), slaves) {
      NotVlan(f, slaves, b);
    }
  }

  lemma NotVlan(f: set<Bit>, slaves: seq<set<Bit>>, b: Bit)
    requires b in ALL_CSUM || b == SG
    ensures b in BondFeatures(f, slaves) <==> b in Fold(Start(f), slaves)
  {
    hide Fold, Start;
  }

  lemma StartForm(f: set<Bit>)
    ensures Form(Start(f), [])
  {
    NothingLost();
    hide Survives;
    assert Start(f) * ALL_CSUM == {NoCsum};
    assert forall b :: b in ALL_CSUM ==> (b in Start(f) <==> b in Start(f) * ALL_CSUM);
    assert NoCsum in ALL_CSUM && Survives(NoCsum, []);
  }

  lemma NothingLost()
    ensures forall b :: b in ALL_CSUM ==> (Survives(b, []) <==> b == NoCsum)
  {
  }

  // ------------------------------- all the other bits --------------------------------

  /** Of the bits besides checksumming: a software segmentation bit is kept if scatter-gather is and
      every slave has it or general segmentation; UDP fragmentation if scatter-gather is and every
      slave has it; robust segmentation if scatter-gather is and the last slave has it, whatever the
      others have; general segmentation and LLTX are left alone; and any other bit, once there, is
      kept if every slave has it. */
  ghost predicate Kept(all: set<Bit>, slaves: seq<set<Bit>>, b: Bit, sg: bool)
    requires b !in ALL_CSUM && b != SG
  {
    match b
    case Tso | TsoEcn | Tso6 => sg && forall i :: 0 <= i < |slaves| ==> b in slaves[i] || Gso in slaves[i]
    case Ufo => sg && AllHave(Ufo, slaves)
    case GsoRobust => sg && (slaves == [] || GsoRobust in slaves[|slaves| - 1])
    case Gso | Lltx => b in all
    case _ => b in all && AllHave(b, slaves)
  }

  lemma KeptStep(all: set<Bit>, one: set<Bit>, b: Bit)
    requires b !in ALL_CSUM && b != SG
    ensures var r := ComputeFeatures(all, one);
      b in r <==>
        match b
        case Tso | TsoEcn | Tso6 => SG in r && b in all && (b in one || Gso in one)
        case Ufo => SG in r && b in all && Ufo in one
        case GsoRobust => SG in r && GsoRobust in one
        case Gso | Lltx => b in all
        case _ => b in all && b in one
  {
  }

  lemma ScatterGatherOnly(all: set<Bit>, one: set<Bit>)
    ensures SG in ComputeFeatures(all, one) ==> SG in all
  {
  }

  lemma {:induction false} FoldKeeps(all: set<Bit>, slaves: seq<set<Bit>>, b: Bit)
    requires b !in ALL_CSUM && b != SG && SG in all && GSO_MASK <= all
    ensures b in Fold(all, slaves) <==> Kept(all, slaves, b, SG in Fold(all, slaves))
  {
    if slaves != [] {
      var n := |slaves| - 1;
      var start, one := slaves[..n], slaves[n];
      FoldKeeps(all, start, b);
      KeptStep(Fold(all, start), one, b);
      ScatterGatherOnly(Fold(all, start), one);
      assert start + [one] == slaves;
      hide ComputeFeatures;
      EveryoneSnoc(start, one, b);
    }
  }

  lemma EveryoneSnoc(start: seq<set<Bit>>, one: set<Bit>, b: Bit)
    ensures AllHave(b, start + [one]) <==> AllHave(b, start) && b in one
    ensures var s := start + [one];
      (forall i :: 0 <= i < |s| ==> b in s[i] || Gso in s[i]) <==>
      (forall i :: 0 <= i < |start| ==> b in start[i] || Gso in start[i]) && (b in one || Gso in one)
  {
    var s := start + [one];
    assert s[|start|] == one && forall i :: 0 <= i < |start| ==> s[i] == start[i];
  }

  /** The segmentation offloads, which go with scatter-gather: the software ones are kept where
      every slave has them or does general segmentation, UDP's where every slave has it, and robust
      segmentation exactly by the last slave. */
  lemma SegmentationKeptIff(f: set<Bit>, slaves: seq<set<Bit>>)
    ensures var r := BondFeatures(f, slaves);
      && (forall b :: b in {Tso, TsoEcn, Tso6} ==>
            (b in r <==> SG in r && forall i :: 0 <= i < |slaves| ==> b in slaves[i] || Gso in slaves[i]))
      && (Ufo in r <==> SG in r && forall i :: 0 <= i < |slaves| ==> Ufo in slaves[i])
      && (GsoRobust in r <==> SG in r && (slaves != [] ==> GsoRobust in slaves[|slaves| - 1]))
  {
    hide Fold;
    FoldKeeps(Start(f), slaves, Tso);
    FoldKeeps(Start(f), slaves, TsoEcn);
    FoldKeeps(Start(f), slaves, Tso6);
    FoldKeeps(Start(f), slaves, Ufo);
    FoldKeeps(Start(f), slaves, GsoRobust);
  }

  /** And all the rest: fragment lists and high DMA exactly if every slave has them; what the bond
      says of general segmentation, LLTX and VLANs is left alone; a bit the driver does not name
      is kept where the bond and every slave have it. */
  lemma OtherBitKeptIff(f: set<Bit>, slaves: seq<set<Bit>>, b: Bit)
    requires b !in ALL_CSUM + GSO_MASK && b != SG
    ensures b in BondFeatures(f, slaves) <==>
      match b
      case FragList | HighDma => forall i :: 0 <= i < |slaves| ==> b in slaves[i]
      case Other(_) => b in f && forall i :: 0 <= i < |slaves| ==> b in slaves[i]
      case _ => b in f
  {
    FoldKeeps(Start(f), slaves, b);
    hide Fold;
  }

  // ----------------------------------- the order -------------------------------------

  /** For two slaves the order matters to the general kind exactly if one needs no checksums and
      cannot compute them while the other computes them and needs to. */
  lemma FoldDependsOnOrder(f: set<Bit>, a: set<Bit>, b: set<Bit>)
    ensures (HwCsum in BondFeatures(f, [a, b])) != (HwCsum in BondFeatures(f, [b, a])) <==>
      || (!Needy(a) && HwCsum !in a && Needy(b) && HwCsum in b)
      || (!Needy(b) && HwCsum !in b && Needy(a) && HwCsum in a)
  {
    BondKeepsIff(f, [a, b]);
    BondKeepsIff(f, [b, a]);
    hide BondFeatures;
    TwoSlaves(a, b);
    TwoSlaves(b, a);
  }

  lemma TwoSlaves(a: set<Bit>, b: set<Bit>)
    ensures Survives(HwCsum, [a, b]) <==>
      if Needy(a) then HwCsum in a && HwCsum in b else Needy(b) && HwCsum in b
  {
    assert [a, b][0] == a && [a, b][1] == b;
  }

  lemma HwSurvives(slaves: seq<set<Bit>>)
    ensures Survives(HwCsum, slaves) <==>
      exists k :: 0 <= k < |slaves| && Needy(slaves[k]) && (forall i :: 0 <= i < k ==> !Needy(slaves[i]))
               && (forall i :: k <= i < |slaves| ==> HwCsum in slaves[i])
  {
  }

  /** The general kind is kept in every order of the slaves exactly if some slave needs checksums
      and every slave has it. */
  lemma KeptInEveryOrderIff(f: set<Bit>, slaves: seq<set<Bit>>)
    ensures (forall t :: multiset(t) == multiset(slaves) ==> HwCsum in BondFeatures(f, t)) <==>
      (exists i :: 0 <= i < |slaves| && Needy(slaves[i])) && AllHave(HwCsum, slaves)
  {
    hide BondFeatures, Survives;
    if (exists i :: 0 <= i < |slaves| && Needy(slaves[i])) && AllHave(HwCsum, slaves) {
      var i :| 0 <= i < |slaves| && Needy(slaves[i]);
      forall t | multiset(t) == multiset(slaves) ensures HwCsum in BondFeatures(f, t) {
        SameMembers(slaves, t);
        assert slaves[i] in t;
        BondKeepsIff(f, t);
        NeedyFirst(t);
      }
    } else if i :| 0 <= i < |slaves| && Needy(slaves[i]) {
      var t := [slaves[i]] + slaves[..i] + slaves[i + 1..];
      assert slaves == slaves[..i] + [slaves[i]] + slaves[i + 1..];
      assert multiset(t) == multiset(slaves);
      SameMembers(slaves, t);
      BondKeepsIff(f, t);
      HwSurvives(t);
      assert Needy(t[0]);
      var j :| 0 <= j < |slaves| && HwCsum !in slaves[j];
      assert slaves[j] in t;
      assert HwCsum !in BondFeatures(f, t);
    } else {
      BondKeepsIff(f, slaves);
      HwSurvives(slaves);
    }
  }

  lemma SameMembers(s: seq<set<Bit>>, t: seq<set<Bit>>)
    requires multiset(s) == multiset(t)
    ensures forall x :: x in s <==> x in t
  {
    forall x ensures x in s <==> x in t {
      assert x in multiset(s) <==> x in multiset(t);
    }
  }

  /** If some slave needs checksums, and every one that does, or comes after one that does, has
      the general kind, it is kept. */
  lemma NeedyFirst(t: seq<set<Bit>>)
    requires exists i :: 0 <= i < |t| && Needy(t[i])
    requires forall x :: x in t ==> HwCsum in x
    ensures Survives(HwCsum, t)
  {
    HwSurvives(t);
    var k := FirstNeedy(t);
    assert Needy(t[k]);
  }

  // The slaves that need no checksums, and the others.

  function Content(s: seq<set<Bit>>): (r: seq<set<Bit>>) {
    if s == [] then [] else (if Needy(s[0]) then [] else [s[0]]) + Content(s[1..])
  }

  function Wanting(s: seq<set<Bit>>): (r: seq<set<Bit>>) {
    if s == [] then [] else (if Needy(s[0]) then [s[0]] else []) + Wanting(s[1..])
  }

  lemma {:induction false} Sorted(s: seq<set<Bit>>)
    ensures multiset(Content(s) + Wanting(s)) == multiset(s)
    ensures forall x :: x in Content(s) ==> !Needy(x)
    ensures forall x :: x in Wanting(s) <==> x in s && Needy(x)
  {
    if s != [] {
      Sorted(s[1..]);
      assert s == [s[0]] + s[1..];
    }
  }

  /** Some slave needs checksums, and all that do have the general kind. */
  ghost predicate CanBeKept(slaves: seq<set<Bit>>) {
    && (exists i :: 0 <= i < |slaves| && Needy(slaves[i]))
    && (forall x :: x in slaves && Needy(x) ==> HwCsum in x)
  }

  lemma KeptMeans(slaves: seq<set<Bit>>, t: seq<set<Bit>>)
    requires multiset(t) == multiset(slaves) && Survives(HwCsum, t)
    ensures CanBeKept(slaves)
  {
    SameMembers(slaves, t);
    HwSurvives(t);
    var k :| 0 <= k < |t| && Needy(t[k]) && (forall i :: 0 <= i < k ==> !Needy(t[i]))
             && (forall i :: k <= i < |t| ==> HwCsum in t[i]);
    assert t[k] in slaves;
    forall x | x in slaves && Needy(x) ensures HwCsum in x {
      var j :| 0 <= j < |t| && t[j] == x;
    }
  }

  lemma KeptSorted(slaves: seq<set<Bit>>)
    requires CanBeKept(slaves)
    ensures Survives(HwCsum, Content(slaves) + Wanting(slaves))
  {
    var t, k := Content(slaves) + Wanting(slaves), |Content(slaves)|;
    Sorted(slaves);
    var i :| 0 <= i < |slaves| && Needy(slaves[i]);
    assert slaves[i] in Wanting(slaves);
    hide Survives, Content, Wanting;
    forall j | k <= j < |t| ensures Needy(t[j]) && HwCsum in t[j] {
      assert t[j] in Wanting(slaves);
    }
    forall j | 0 <= j < k ensures !Needy(t[j]) {
      assert t[j] in Content(slaves);
    }
    assert k < |t| && Needy(t[k]);
    HwSurvives(t);
  }

  ghost predicate KeptInSomeOrder(f: set<Bit>, slaves: seq<set<Bit>>) {
    exists t :: multiset(t) == multiset(slaves) && HwCsum in BondFeatures(f, t)
  }

  /** It is kept in some order exactly if some slave needs checksums and every slave that does has
      it: slaves that need none and cannot compute them cost nothing in front. */
  lemma KeptInSomeOrderIff(f: set<Bit>, slaves: seq<set<Bit>>)
    ensures KeptInSomeOrder(f, slaves) <==> CanBeKept(slaves)
  {
    hide BondFeatures, Survives, Content, Wanting, CanBeKept;
    if KeptInSomeOrder(f, slaves) {
      var t :| multiset(t) == multiset(slaves) && HwCsum in BondFeatures(f, t);
      BondKeepsIff(f, t);
      KeptMeans(slaves, t);
    }
    if CanBeKept(slaves) {
      var t := Content(slaves) + Wanting(slaves);
      Sorted(slaves);
      KeptSorted(slaves);
      BondKeepsIff(f, t);
      assert multiset(t) == multiset(slaves) && HwCsum in BondFeatures(f, t);
    }
  }
}
