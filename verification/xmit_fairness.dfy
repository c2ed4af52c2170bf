/** How evenly round-robin spreads frames over slaves that are all eligible, and what the wrap of
    its 16-bit counter does to that. */
module XmitFairness {
  import opened BondState
  import opened BondXmit

  const WRAP := 0x1_0000

  /** The slaves that `k` consecutive frames go to, the counter standing at `counter`. */
  function Picks(s: seq<SlaveView>, counter: nat, k: nat): (ps: seq<int>)
    requires s != []
    ensures |ps| == k
    decreases k
  {
    if k == 0 then [] else [RoundRobinPick(s, counter)] + Picks(s, (counter + 1) % WRAP, k - 1)
  }

  function Ceiling(k: nat, n: nat): nat
    requires n > 0
  {
    (k + n - 1) / n
  }

  predicate AllEligible(s: seq<SlaveView>) {
    s != [] && forall i :: 0 <= i < |s| ==> Eligible(s[i])
  }

  // ------------------------------ counting the residues ------------------------------

  /** The remainders by `n` of `k` consecutive numbers from `a` on. */
  function Residues(n: nat, a: nat, k: nat): (rs: seq<int>)
    requires n > 0
    ensures |rs| == k
    decreases k
  {
    if k == 0 then [] else [a % n] + Residues(n, a + 1, k - 1)
  }

  lemma QuotientGrowth(n: nat, a: int, k: nat)
    requires n > 0 && a >= 0
    ensures k / n <= (a + k) / n - a / n <= Ceiling(k, n)
  {
    var qa, ra, qk, rk := a / n, a % n, k / n, k % n;
    DivSum(n, qa, qk, ra, rk, a, k);
    if ra + rk < n {
      DivUnique(n, a + k, qa + qk, ra + rk);
    } else {
      DivUnique(n, a + k, qa + qk + 1, ra + rk - n);
    }
    if rk == 0 {
      DivUnique(n, k + n - 1, qk, n - 1);
    } else {
      DivUnique(n, k + n - 1, qk + 1, rk - 1);
    }
  }

  lemma DivSum(n: nat, qa: int, qk: int, ra: int, rk: int, a: int, k: int)
    requires a == n * qa + ra && k == n * qk + rk
    ensures a + k == n * (qa + qk) + (ra + rk)
    ensures n * (qa + qk + 1) == n * (qa + qk) + n
    ensures n * (qk + 1) == n * qk + n
  {
  }

  /** How many multiples of `n` lie between two numbers. */
  function Before(n: nat, x: int): int
    requires n > 0
  {
    (x + n - 1) / n
  }

  /** The numbers with remainder `p`, counted exactly. */
  lemma {:induction false} TurnsBetween(n: nat, a: nat, k: nat, p: nat)
    requires p < n
    ensures multiset(Residues(n, a, k))[p] == Before(n, a + k - p) - Before(n, a - p)
    decreases k
  {
    hide Before;
    if k > 0 {
      TurnsBetween(n, a + 1, k - 1, p);
      BeforeStep(n, a, p);
      CountFirst(a % n, Residues(n, a + 1, k - 1), p);
    }
  }

  lemma CountFirst(x: int, rest: seq<int>, p: int)
    ensures multiset([x] + rest)[p] == multiset(rest)[p] + if x == p then 1 else 0
  {
  }

  lemma ResiduesAreFair(n: nat, a: nat, k: nat, p: nat)
    requires p < n
    ensures k / n <= multiset(Residues(n, a, k))[p] <= Ceiling(k, n)
  {
    hide Ceiling, Residues;
    TurnsBetween(n, a, k, p);
    QuotientGrowth(n, a - p + n - 1, k);
  }

  lemma BeforeStep(n: nat, x: nat, p: nat)
    requires p < n
    ensures Before(n, x + 1 - p) == Before(n, x - p) + if x % n == p then 1 else 0
  {
    BeforeAt(n, x, p, x / n, x % n);
  }

  lemma BeforeAt(n: nat, x: nat, p: nat, q: nat, r: nat)
    requires p < n && r < n && x == n * q + r
    ensures Before(n, x + 1 - p) == Before(n, x - p) + if r == p then 1 else 0
  {
    hide Before;
    BeforeIs(n, x - p, if r <= p then q else q + 1, if r <= p then r - p + n - 1 else r - p - 1);
    BeforeIs(n, x + 1 - p, if r < p then q else q + 1, if r < p then r - p + n else r - p);
  }

  lemma BeforeIs(n: nat, x: int, q: int, r: nat)
    requires r < n && x + n - 1 == n * q + r
    ensures Before(n, x) == q
  {
    DivUnique(n, x + n - 1, q, r);
  }

  lemma DivUnique(n: nat, x: int, q: int, r: nat)
    requires r < n && x == n * q + r
    ensures x / n == q
  {
    var d := x / n - q;
    assert n * d == n * (x / n) - n * q == r - x % n;
    SmallMultiple(n, d);
  }

  lemma SmallMultiple(n: nat, d: int)
    requires 0 - n < n * d < n
    ensures d == 0
  {
  }

  lemma {:induction false} SameResidues(n: nat, a: nat, b: nat, k: nat)
    requires n > 0 && a % n == b % n
    ensures Residues(n, a, k) == Residues(n, b, k)
    decreases k
  {
    if k > 0 {
      NextResidue(n, a, b);
      SameResidues(n, a + 1, b + 1, k - 1);
    }
  }

  lemma NextResidue(n: nat, a: nat, b: nat)
    requires n > 0 && a % n == b % n
    ensures (a + 1) % n == (b + 1) % n
  {
    var r := a % n;
    RemainderIs(n, a + 1, if r + 1 < n then a / n else a / n + 1, if r + 1 < n then r + 1 else 0);
    RemainderIs(n, b + 1, if r + 1 < n then b / n else b / n + 1, if r + 1 < n then r + 1 else 0);
  }

  lemma RemainderIs(n: nat, x: int, q: int, r: nat)
    requires r < n && x == n * q + r
    ensures x % n == r
  {
    DivUnique(n, x, q, r);
  }

  // ---------------------------------- the frames -------------------------------------

  lemma AllEligiblePick(s: seq<SlaveView>, counter: nat)
    requires AllEligible(s)
    ensures RoundRobinPick(s, counter) == counter % |s|
  {
  }

  /** Short of the wrap, or if the wrap comes at a multiple of the number of slaves, the frames
      just go round. */
  lemma {:induction false} PicksAreResidues(s: seq<SlaveView>, counter: nat, k: nat)
    requires AllEligible(s) && counter <= WRAP
    requires counter + k <= WRAP || (counter < WRAP && WRAP % |s| == 0)
    ensures Picks(s, counter, k) == Residues(|s|, counter, k)
    decreases k
  {
    hide RoundRobinPick;
    if k > 0 {
      AllEligiblePick(s, counter);
      var next := NextCount(counter);
      hide AllEligible;
      PicksAreResidues(s, next, k - 1);
      if next == 0 && k > 1 {
        SameResidues(|s|, 0, WRAP, k - 1);
      }
    }
  }

  lemma NextCount(counter: nat) returns (next: nat)
    requires counter < WRAP
    ensures next == (counter + 1) % WRAP == if counter + 1 == WRAP then 0 else counter + 1
  {
    next := (counter + 1) % WRAP;
  }

  ghost predicate FairShare(s: seq<SlaveView>, counter: nat, k: nat, p: nat)
    requires s != []
  {
    k / |s| <= multiset(Picks(s, counter, k))[p] <= Ceiling(k, |s|)
  }

  /** With every slave eligible, any `k` consecutive frames that do not cross the wrap of the
      16-bit counter give each slave the floor or the ceiling of k/n of them. */
  lemma RoundRobinIsFair(s: seq<SlaveView>, counter: nat, k: nat, p: nat)
    requires AllEligible(s) && p < |s| && counter + k <= WRAP
    ensures FairShare(s, counter, k, p)
  {
    PicksAreResidues(s, counter, k);
    ResiduesAreFair(|s|, counter, k, p);
  }

  lemma {:induction false} PicksSplit(s: seq<SlaveView>, counter: nat, j: nat, k: nat)
    requires s != [] && counter + j == WRAP && j > 0
    ensures Picks(s, counter, j + k) == Picks(s, counter, j) + Picks(s, 0, k)
    decreases j
  {
    hide RoundRobinPick;
    if j == 1 {
      assert Picks(s, counter, 1) == [RoundRobinPick(s, counter)];
    } else {
      PicksSplit(s, counter + 1, j - 1, k);
    }
  }

  /** The window across the wrap that is not fair: it begins where the last round before the wrap
      does, and the first slave has the first frame after it as well. */
  lemma UnfairWindow(s: seq<SlaveView>) returns (counter: nat, k: nat)
    requires AllEligible(s) && WRAP % |s| != 0
    ensures counter < WRAP && !FairShare(s, counter, k, 0)
  {
    hide Picks, RoundRobinPick, Ceiling;
    var r := WRAP % |s|;
    WrapOffset(|s|);
    counter, k := WRAP - r, r + 1;
    PicksSplit(s, counter, r, 1);
    FirstPick(s, counter, r);
    FirstPick(s, 0, 1);
    TwiceZero(Picks(s, counter, r), Picks(s, 0, 1));
  }

  lemma WrapOffset(n: nat)
    requires n > 0 && WRAP % n != 0
    ensures var r := WRAP % n; 0 < r < n && r <= WRAP && (WRAP - r) % n == 0 && Ceiling(r + 1, n) == 1
  {
    var r := WRAP % n;
    RemainderIs(n, WRAP - r, WRAP / n, 0);
    DivUnique(n, r + 1 + n - 1, 1, r);
  }

  lemma FirstPick(s: seq<SlaveView>, counter: nat, k: nat)
    requires AllEligible(s) && k > 0 && counter % |s| == 0
    ensures Picks(s, counter, k)[0] == 0
  {
    hide RoundRobinPick;
    AllEligiblePick(s, counter);
  }

  lemma TwiceZero(first: seq<int>, last: seq<int>)
    requires first != [] && first[0] == 0 && |last| == 1 && last[0] == 0
    ensures multiset(first + last)[0] >= 2
  {
    assert first == [0] + first[1..] && last == [0];
    assert multiset(first + last) == multiset{0} + multiset(first[1..]) + multiset{0};
  }

  /** Fairness holds of every window, across the wrap or not, exactly if the number of slaves
      divides 65536. */
  lemma AlwaysFairIff(s: seq<SlaveView>)
    requires AllEligible(s)
    ensures (forall counter: nat, k: nat, p: nat :: counter < WRAP && p < |s| ==> FairShare(s, counter, k, p)) <==>
            WRAP % |s| == 0
  {
    if WRAP % |s| == 0 {
      forall counter: nat, k: nat, p: nat | counter < WRAP && p < |s| ensures FairShare(s, counter, k, p) {
        PicksAreResidues(s, counter, k);
        ResiduesAreFair(|s|, counter, k, p);
      }
    } else {
      var counter, k := UnfairWindow(s);
    }
  }
}
