/** The equal shares of the full mass that the headers of an irreducible loop start with: none of
    them is nothing. */
module BfiSeeding {
  import opened BfiProbability
  import opened BfiCombining
  import opened BfiNormalize
  import opened BfiMass
  import opened BfiDistribute
  import opened BfiHeaderMass

  ghost predicate AllPositive(ps: seq<nat>) {
    forall i :: 0 <= i < |ps| ==> 0 < ps[i]
  }

  /** How much is left for each of the remaining headers at least: half as much after every 2^30 of
      them, of which there are at most four lots. */
  function Level(j: nat): (c: nat)
    ensures c >= 0x1000_0000
  {
    if j == 0 then 0x1000_0000 else 2 * Level(j - 1)
  }

  /** What is left of the mass for `k` more headers, when it was last measured at `a` of them. */
  ghost predicate Plenty(mass: nat, k: nat, a: nat, j: nat) {
    && k <= a < k + TWO30 && a <= (j + 1) * TWO30
    && mass * TWO30 >= Level(j) * (k * (TWO31 - (a - k)))
  }

  ghost predicate PlentyStill(mass: nat, k: nat) {
    exists a, j :: Plenty(mass, k, a, j)
  }

  // ----- one share -----

  lemma Regroup(a: nat, b: nat, c: nat)
    ensures a * (b * c) == a * b * c && a * b == b * a
  {
  }

  /** The fraction 1/k in units of 2^-31, between half of what it should be and slightly more. */
  lemma UnitFraction(k: nat)
    requires 0 < k < TWO32
    ensures var n := Probability(1, k); TWO30 <= k * n && 2 * (n * k) <= TWO32 + k && n <= TWO31
  {
    var n := Probability(1, k);
    ProbabilityIsNearest(1, k);
    Regroup(k, n, 1);
    if k > TWO31 {
      assert n >= 1;
      MulMono(k, 1, n);
    }
  }

  lemma ShareBounds(mass: nat, k: nat)
    requires mass <= UINT64_MAX && 0 < k < TWO32
    ensures var p, n := Share(mass, 1, k), Probability(1, k); p <= mass && p * TWO31 <= mass * n
    ensures mass * Probability(1, k) >= TWO31 ==> Share(mass, 1, k) > 0
  {
    var n := Probability(1, k);
    ScaleByProbability(mass, 1, k);
    Division(mass * n, TWO31);
    QuotientBound(mass * n, TWO31, 1);
  }

  lemma Cancel(a: nat, b: nat, k: nat)
    requires k > 0 && a * k >= b * k
    ensures a >= b
  {
    if a < b {
      MulMono(k, a + 1, b);
    }
  }

  lemma ShareIsPositive(mass: nat, k: nat, d: nat, c: nat)
    requires mass <= UINT64_MAX && 0 < k < TWO32 && d >= TWO30 && c >= 0x1000_0000
    requires mass * TWO30 >= c * (k * d)
    ensures Share(mass, 1, k) > 0
  {
    var n := Probability(1, k);
    UnitFraction(k);
    ShareBounds(mass, k);
    MulMono(c * k, TWO30, d);
    Regroup(c, k, d);
    Cancel(mass, c * k, TWO30);
    MulMono(n, c * k, mass);
    Regroup(c, k, n);
    MulMono(c, TWO30, k * n);
    Regroup(n, c * k, 1);
    Regroup(mass, n, 1);
  }

  /** Taking a share leaves the fraction 1 - n/2^31 of the mass. */
  lemma LeftAfterShare(mass: nat, k: nat, p: nat, n: nat, e: nat)
    requires k >= 2 && p <= mass && p * TWO31 <= mass * n && 2 * (n * k) <= TWO32 + k
    requires e == TWO32 * k - TWO32 - k
    ensures (mass - p) * (TWO32 * k) >= mass * e
  {
    MulMono(2 * k, p * TWO31, mass * n);
    assert 2 * k * (p * TWO31) == p * (TWO32 * k);
    assert 2 * k * (mass * n) == mass * (2 * (n * k));
    MulMono(mass, 2 * (n * k), TWO32 + k);
    assert mass * e == mass * (TWO32 * k) - mass * (TWO32 + k);
    assert (mass - p) * (TWO32 * k) == mass * (TWO32 * k) - p * (TWO32 * k);
  }

  lemma EnoughLeft(k: nat, d: nat) returns (e: nat, f: nat)
    requires k >= 2 && 1 <= d <= TWO31
    ensures e == TWO32 * k - TWO32 - k && f == (k - 1) * (d - 1) && d * e >= f * TWO32
  {
    e, f := TWO32 * k - TWO32 - k, (k - 1) * (d - 1);
    MulMono(k, d, TWO31);
    assert d * e == d * (TWO32 * (k - 1)) - d * k;
    assert f * TWO32 == d * (TWO32 * (k - 1)) - TWO32 * (k - 1);
  }

  lemma Amplified(mass: nat, e: nat, a: nat)
    requires mass * TWO30 >= a
    ensures TWO30 * (mass * e) >= e * a
  {
    MulMono(e, a, mass * TWO30);
    assert e * (mass * TWO30) == TWO30 * (mass * e);
  }

  lemma Reduced(c: nat, k: nat, d: nat, e: nat, f: nat)
    requires d * e >= f * TWO32
    ensures e * (c * (k * d)) >= c * f * (TWO32 * k)
  {
    MulMono(c * k, f * TWO32, d * e);
    assert e * (c * (k * d)) == c * k * (d * e);
    assert c * k * (f * TWO32) == c * f * (TWO32 * k);
  }

  lemma Cancelled(rest: nat, k: nat, taken: nat, bound: nat, f: nat)
    requires k > 0 && rest * (TWO32 * k) >= taken && TWO30 * taken >= bound && bound >= f * (TWO32 * k)
    ensures rest * TWO30 >= f
  {
    assert TWO30 * (rest * (TWO32 * k)) == rest * TWO30 * (TWO32 * k);
    Cancel(rest * TWO30, f, TWO32 * k);
  }

  lemma Chained(mass: nat, k: nat, rest: nat, c: nat, d: nat, e: nat, f: nat)
    requires k > 0 && rest * (TWO32 * k) >= mass * e && d * e >= f * TWO32 && mass * TWO30 >= c * (k * d)
    ensures rest * TWO30 >= c * f
  {
    Amplified(mass, e, c * (k * d));
    Reduced(c, k, d, e, f);
    Cancelled(rest, k, mass * e, e * (c * (k * d)), c * f);
  }

  /** So the rest still has plenty for one header less, `f` being the product of the new numbers. */
  lemma PlentyLeft(mass: nat, k: nat, p: nat, n: nat, c: nat, d: nat, e: nat, f: nat)
    requires k >= 2 && p <= mass && p * TWO31 <= mass * n && 2 * (n * k) <= TWO32 + k
    requires d * e >= f * TWO32 && mass * TWO30 >= c * (k * d) && e == TWO32 * k - TWO32 - k
    ensures (mass - p) * TWO30 >= c * f
  {
    LeftAfterShare(mass, k, p, n, e);
    Chained(mass, k, mass - p, c, d, e, f);
  }

  // ----- all shares -----

  ghost predicate Unit(ws: seq<Weight>) {
    forall i :: 0 <= i < |ws| ==> ws[i].amount == 1
  }

  /** One share is taken, and the next header finds plenty. */
  lemma OneShare(mass: nat, k: nat, a: nat, j: nat)
    requires mass <= UINT64_MAX && 0 < k < TWO32 && Plenty(mass, k, a, j)
    ensures var p := Share(mass, 1, k);
            && 0 < p <= mass
            && (k > 1 ==> PlentyStill(mass - p, k - 1))
  {
    var p, d, c := Share(mass, 1, k), TWO31 - (a - k), Level(j);
    ShareIsPositive(mass, k, d, c);
    ShareBounds(mass, k);
    if k > 1 {
      UnitFraction(k);
      var e, f := EnoughLeft(k, d);
      PlentyLeft(mass, k, p, Probability(1, k), c, d, e, f);
      StillPlenty(mass - p, k - 1, a, j, f);
    }
  }

  /** The same lot goes on, or a new one begins. */
  lemma StillPlenty(mass: nat, k: nat, a: nat, j: nat, f: nat)
    requires 0 < k && k < a <= k + TWO30 && a <= (j + 1) * TWO30
    requires f == k * (TWO31 - (a - k)) && mass * TWO30 >= Level(j) * f
    ensures PlentyStill(mass, k)
  {
    if a < k + TWO30 {
      assert Plenty(mass, k, a, j);
    } else {
      assert f == k * TWO30 && j > 0;
      NextLot(mass, k, j);
      assert Plenty(mass, k, k, j - 1);
    }
  }

  lemma NextLot(mass: nat, k: nat, j: nat)
    requires j > 0 && mass * TWO30 >= Level(j) * (k * TWO30)
    ensures mass * TWO30 >= Level(j - 1) * (k * TWO31)
  {
    assert Level(j) * (k * TWO30) == Level(j - 1) * (k * TWO31);
  }

  /** Where there is plenty, each of the equal shares is positive. */
  lemma {:induction false} SharesArePositive(ws: seq<Weight>, mass: nat, a: nat, j: nat)
    requires Takeable(ws) && Unit(ws) && ws != [] && mass <= UINT64_MAX && Plenty(mass, |ws|, a, j)
    ensures AllPositive(Portions(ws, mass))
    decreases |ws|
  {
    UnitSum(ws);
    OneShare(mass, |ws|, a, j);
    var p := Share(mass, 1, |ws|);
    PortionsSplit(ws, mass, p);
    if |ws| > 1 {
      var a', j' :| Plenty(mass - p, |ws| - 1, a', j');
      SharesArePositive(ws[1..], mass - p, a', j');
    }
  }

  lemma PortionsSplit(ws: seq<Weight>, mass: nat, p: nat)
    requires Takeable(ws) && Unit(ws) && ws != [] && mass <= UINT64_MAX && |ws| < TWO32
    requires p == Share(mass, 1, |ws|) <= mass && Sum(ws) == |ws|
    ensures Takeable(ws[1..]) && Portions(ws, mass) == [p] + Portions(ws[1..], mass - p)
    ensures |ws| == 1 ==> Portions(ws, mass) == [p]
  {
    TakeableRest(ws);
  }

  /** Any number of headers that fits in 32 bits can share the full mass so that each gets some. */
  lemma SeedsArePositive(headers: seq<Node>)
    requires 0 < |headers| < TWO32 && Takeable(UnitWeights(headers))
    ensures AllPositive(Portions(UnitWeights(headers), FULL))
  {
    var k := |headers|;
    assert Level(3) == TWO31;
    assert Plenty(FULL, k, k, 3);
    SharesArePositive(UnitWeights(headers), FULL, k, 3);
  }

  /** `m'` is `m` with the full mass shared among the headers in equal portions. */
  ghost predicate SharedEqually(s: Shape, m: Masses, m': Masses, headers: seq<Node>)
    requires m.For(s) && m'.For(s) && Nodes(s, headers)
  {
    var ws := UnitWeights(headers);
    && Takeable(ws) && TargetNodes(s, ws) && InMassRange(Portions(ws, FULL))
    && m' == AssignAll(s, m, ws, Portions(ws, FULL))
    && HeaderMasses(s, m', headers) == Portions(ws, FULL)
  }

  /** All of the mass is shared, and every header gets some. */
  lemma SeedsShareEqually(s: Shape, m: Masses, headers: seq<Node>)
    requires m.For(s) && Nodes(s, headers) && DistinctSlots(s, headers) && 0 < |headers| < TWO32
    requires Takeable(UnitWeights(headers)) && TargetNodes(s, UnitWeights(headers))
    requires InMassRange(Portions(UnitWeights(headers), FULL))
    ensures var m' := AssignAll(s, m, UnitWeights(headers), Portions(UnitWeights(headers), FULL));
            && SharedEqually(s, m, m', headers)
            && Total(HeaderMasses(s, m', headers)) == FULL
            && HeadersHoldSome(s, m', headers)
  {
    var m' := AssignAll(s, m, UnitWeights(headers), Portions(UnitWeights(headers), FULL));
    SeedsHoldFullMass(s, m, headers);
    SeedsArePositive(headers);
    PositiveMasses(s, m', headers);
  }

  lemma PositiveMasses(s: Shape, m: Masses, headers: seq<Node>)
    requires m.For(s) && Nodes(s, headers) && AllPositive(HeaderMasses(s, m, headers))
    ensures HeadersHoldSome(s, m, headers)
  {
    forall i | 0 <= i < |headers|
      ensures 0 < m.Get(s.SlotOf(headers[i]))
    {
      assert HeaderMasses(s, m, headers)[i] > 0;
    }
  }

  lemma SeedsKeepBack(s: Shape, m: Masses, m': Masses, headers: seq<Node>)
    requires m.For(s) && m'.For(s) && Nodes(s, headers) && headers != [] && SharedEqually(s, m, m', headers)
    ensures m'.back == m.back && m'.exits == m.exits
  {
    AssignAllElsewhere(s, m, UnitWeights(headers), Portions(UnitWeights(headers), FULL), headers[0]);
  }
}
