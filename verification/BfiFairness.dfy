/** How far the portions of a mass are from the exact shares of the weights. */
module BfiFairness {
  import opened BfiProbability
  import opened BfiCombining
  import opened BfiNormalize
  import opened BfiDistribution
  import opened BfiMass

  /** `p` is within `units` times 1 + mass/2^32 of the exact share of `w` out of `whole`. */
  ghost predicate NearShare(p: int, mass: nat, w: nat, whole: nat, units: nat) {
    var bound := units * ((mass + 0x1_0000_0000) * whole);
    -bound <= 0x1_0000_0000 * (p * whole - mass * w) <= bound
  }

  // ----- one portion -----

  /** The difference `e` of the remaining mass from its exact share, and that of a portion, `d`, add
      up to the difference of the portion from its own exact share. */
  lemma PortionError(mass: nat, whole: nat, m: nat, r: nat, p: nat, w: nat, e: int, d: int)
    requires e == m * whole - mass * r && d == p * r - m * w
    ensures r * (p * whole - mass * w) == whole * d + w * e
  {
    assert r * (p * whole) == whole * (p * r);
    assert r * (mass * w) == w * (mass * r);
    assert whole * (m * w) == w * (m * whole);
  }

  /** And the rest takes over what the portion leaves of the difference. */
  lemma RestError(mass: nat, whole: nat, m: nat, r: nat, p: nat, w: nat, e: int, d: int)
    requires e == m * whole - mass * r && d == p * r - m * w
    ensures r * ((m - p) * whole - mass * (r - w)) == (r - w) * e - whole * d
  {
    PortionError(mass, whole, m, r, p, w, e, d);
    assert (m - p) * whole - mass * (r - w) == e - (p * whole - mass * w);
    assert r * (e - (p * whole - mass * w)) == r * e - r * (p * whole - mass * w);
  }

  lemma MulBounds(x: int, k: nat, bound: nat)
    requires 0 - bound <= x <= bound
    ensures 0 - k * bound <= k * x <= k * bound
  {
  }

  /** `whole` times a difference of at most `unit` times `r`. */
  lemma WeighedByWhole(r: nat, whole: nat, d: int, unit: nat, one: nat)
    requires -(unit * r) <= TWO32 * d <= unit * r && one == unit * whole
    ensures -(r * one) <= TWO32 * (whole * d) <= r * one
  {
    MulBounds(TWO32 * d, whole, unit * r);
    assert whole * (unit * r) == r * one;
    assert whole * (TWO32 * d) == TWO32 * (whole * d);
  }

  lemma WeighedByPart(r: nat, k: nat, e: int, bound: nat)
    requires k <= r && 0 - bound <= TWO32 * e <= bound
    ensures -(r * bound) <= TWO32 * (k * e) <= r * bound
  {
    MulBounds(TWO32 * e, k, bound);
    MulMono(bound, k, r);
    assert k * (TWO32 * e) == TWO32 * (k * e);
  }

  lemma Cancel(r: nat, y: int, bound: nat)
    requires 0 < r && -(r * bound) <= r * y <= r * bound
    ensures 0 - bound <= y <= bound
  {
    AtMost(r, y, bound);
    assert r * -y == -(r * y);
    AtMost(r, -y, bound);
  }

  lemma AtMost(r: nat, y: int, bound: nat)
    requires 0 < r && r * y <= r * bound
    ensures y <= bound
  {
    if y > bound {
      MulMono(r, bound + 1, y);
    }
  }

  lemma SumOfTwo(r: nat, x: int, a: int, b: int, bound: nat, one: nat)
    requires -(r * one) <= TWO32 * a <= r * one && -(r * bound) <= TWO32 * b <= r * bound
    requires r * x == a + b || r * x == b - a
    ensures -(r * (bound + one)) <= r * (TWO32 * x) <= r * (bound + one)
  {
    assert r * (TWO32 * x) == TWO32 * (r * x);
    assert r * (bound + one) == r * bound + r * one;
  }

  /** The two differences together, after division by `r`. */
  lemma Combine(r: nat, k: nat, whole: nat, e: int, d: int, x: int, unit: nat, one: nat, bound: nat)
    requires 0 < r && k <= r && one == unit * whole
    requires -(unit * r) <= TWO32 * d <= unit * r && 0 - bound <= TWO32 * e <= bound
    requires r * x == whole * d + k * e || r * x == k * e - whole * d
    ensures -(bound + one) <= TWO32 * x <= bound + one
  {
    WeighedByWhole(r, whole, d, unit, one);
    WeighedByPart(r, k, e, bound);
    SumOfTwo(r, x, whole * d, k * e, bound, one);
    Cancel(r, TWO32 * x, bound + one);
  }

  lemma OneMoreUnit(units: nat, one: nat)
    ensures (units + 1) * one == units * one + one
  {
  }

  lemma OneError(m: nat, mass: nat, p: nat, w: nat, r: nat)
    requires m <= mass && Proportional(p, m, w, r)
    ensures -((mass + TWO32) * r) <= TWO32 * (p * r - m * w) <= (mass + TWO32) * r
  {
    MulMono(r, m, mass);
    assert (mass + TWO32) * r == mass * r + TWO32 * r;
  }

  lemma PortionIsNear(mass: nat, whole: nat, m: nat, r: nat, p: nat, w: nat, units: nat, m': int, r': nat)
    requires 0 < r && w <= r && m <= mass && NearShare(m, mass, r, whole, units) && Proportional(p, m, w, r)
    requires m' == m - p && r' == r - w
    ensures NearShare(p, mass, w, whole, units + 1) && NearShare(m', mass, r', whole, units + 1)
  {
    var e, d, one := m * whole - mass * r, p * r - m * w, (mass + TWO32) * whole;
    OneError(m, mass, p, w, r);
    PortionError(mass, whole, m, r, p, w, e, d);
    RestError(mass, whole, m, r, p, w, e, d);
    OneMoreUnit(units, one);
    Combine(r, w, whole, e, d, p * whole - mass * w, mass + TWO32, one, units * one);
    Combine(r, r - w, whole, e, d, m' * whole - mass * r', mass + TWO32, one, units * one);
  }

  // ----- all portions -----

  lemma TakeableFrom(ws: seq<Weight>, j: nat)
    requires Takeable(ws) && j < |ws|
    ensures 0 < ws[j].amount <= Sum(ws[j..]) && Sum(ws[j + 1..]) == Sum(ws[j..]) - ws[j].amount
  {
    SumFront(ws[j..]);
    assert ws[j..][1..] == ws[j + 1..];
  }

  /** Taking the portion of weight `j`, when `m` of the mass and `r` of the weights are left. */
  lemma OneMoreTaken(ps: seq<nat>, ws: seq<Weight>, mass: nat, j: nat, m: int, r: nat) returns (m': int, r': nat)
    requires Takeable(ws) && SharedByWeight(ps, ws, mass) && j < |ws|
    requires m == mass - Total(ps[..j]) && r == Sum(ws[j..])
    ensures 0 < ws[j].amount <= r && 0 <= m <= mass && Proportional(ps[j], m, ws[j].amount, r)
    ensures m' == m - ps[j] == mass - Total(ps[..j + 1]) && r' == r - ws[j].amount == Sum(ws[j + 1..])
  {
    assert PortionFits(ps, ws, mass, j);
    TakeableFrom(ws, j);
    assert ps[..j + 1][..j] == ps[..j];
    m', r' := m - ps[j], r - ws[j].amount;
  }

  lemma NothingTaken(ps: seq<nat>, ws: seq<Weight>, mass: nat, whole: nat)
    ensures Total(ps[..0]) == 0 && ws[0..] == ws && NearShare(mass, mass, whole, whole, 0)
  {
  }

  /** What is left for the weights from `j` on is near the exact share of all of them. */
  lemma {:induction false} RestIsNear(ps: seq<nat>, ws: seq<Weight>, mass: nat, whole: nat, j: nat)
      returns (m: int, r: nat)
    requires Takeable(ws) && SharedByWeight(ps, ws, mass) && j <= |ws| && whole == Sum(ws)
    ensures m == mass - Total(ps[..j]) && r == Sum(ws[j..]) && NearShare(m, mass, r, whole, j)
    decreases j
  {
    if j == 0 {
      NothingTaken(ps, ws, mass, whole);
      m, r := mass, whole;
    } else {
      var m0, r0 := RestIsNear(ps, ws, mass, whole, j - 1);
      m, r := OneMoreTaken(ps, ws, mass, j - 1, m0, r0);
      PortionIsNear(mass, whole, m0, r0, ps[j - 1], ws[j - 1].amount, j - 1, m, r);
    }
  }

  /** The portion of each weight differs from its exact share of the whole mass by at most
      1 + mass/2^32 for it and for each of the weights before it. */
  lemma PortionsAreFair(ps: seq<nat>, ws: seq<Weight>, mass: nat, j: nat)
    requires Takeable(ws) && SharedByWeight(ps, ws, mass) && j < |ws|
    ensures NearShare(ps[j], mass, ws[j].amount, Sum(ws), j + 1)
  {
    var m, r := RestIsNear(ps, ws, mass, Sum(ws), j);
    var m', r' := OneMoreTaken(ps, ws, mass, j, m, r);
    PortionIsNear(mass, Sum(ws), m, r, ps[j], ws[j].amount, j, m', r');
  }
}
