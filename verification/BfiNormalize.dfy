/** Distributions of edge weights, and scaling their total down to 32 bits. */
module BfiNormalize {
  import opened BfiProbability
  import opened BfiCombining

  function Pow2(n: nat): (p: nat)
    ensures p > 0
  {
    if n == 0 then 1 else 2 * Pow2(n - 1)
  }

  lemma {:induction false} Pow2Adds(a: nat, b: nat)
    ensures Pow2(a + b) == Pow2(a) * Pow2(b)
  {
    if a != 0 {
      Pow2Adds(a - 1, b);
      assert 2 * (Pow2(a - 1) * Pow2(b)) == 2 * Pow2(a - 1) * Pow2(b);
    }
  }

  lemma Pow2Is31()
    ensures Pow2(31) == TWO31
  {
    assert Pow2(8) == 256;
    Pow2Adds(8, 8);
    assert Pow2(7) == 128;
    Pow2Adds(16, 15);
    Pow2Adds(8, 7);
  }

  lemma Pow2Is64()
    ensures Pow2(32) == TWO32 && Pow2(33) == 2 * TWO32 && Pow2(64) == TWO64
  {
    Pow2Is31();
    Pow2Adds(32, 32);
  }

  function BitLength(x: nat): nat {
    if x == 0 then 0 else 1 + BitLength(x / 2)
  }

  function CountLeadingZeros(x: nat): int {
    64 - BitLength(x)
  }

  lemma {:induction false} BitLengthBounds(x: nat)
    ensures x < Pow2(BitLength(x))
    ensures x > 0 ==> BitLength(x) > 0 && Pow2(BitLength(x) - 1) <= x
  {
    if x > 0 {
      BitLengthBounds(x / 2);
    }
  }

  lemma {:induction false} Pow2Mono(a: nat, b: nat)
    requires a <= b
    ensures Pow2(a) <= Pow2(b)
    decreases b
  {
    if a < b {
      Pow2Mono(a, b - 1);
    }
  }

  /** Shift right, rounding half up by adding the last bit shifted out. */
  function ShiftRightAndRound(n: nat, shift: nat): nat {
    if shift == 0 then n else Quotient(n, Pow2(shift)) + Quotient(n, Pow2(shift - 1)) % 2
  }

  function Quotient(a: nat, d: nat): nat
    requires d > 0
  {
    a / d
  }

  lemma DivMul(a: nat, d: nat)
    requires d > 0
    ensures a / d * d <= a < a / d * d + d
  {
  }

  lemma Doubling(j: nat, half: nat)
    ensures 2 * j * half == j * (2 * half)
    ensures (2 * j + 1) * half == j * (2 * half) + half
    ensures (j + 1) * (2 * half) == j * (2 * half) + 2 * half
  {
  }

  lemma HalfUpQuotient(n: nat, half: nat, k: nat)
    requires half > 0 && k * half <= n < k * half + half
    ensures n / (2 * half) == k / 2
    ensures (k / 2 + k % 2) * (2 * half) <= n + half < (k / 2 + k % 2) * (2 * half) + 2 * half
  {
    var j := k / 2;
    Doubling(j, half);
    assert k == 2 * j || k == 2 * j + 1;
    DivBounds(n, 2 * half, j);
  }

  /** Rounding by the last bit of the quotient by half the divisor. */
  lemma HalfUp(n: nat, half: nat, p: nat, r: nat)
    requires half > 0 && p == 2 * half && r == n / p + n / half % 2
    ensures r * p <= n + half < r * p + p
  {
    DivMul(n, half);
    HalfUpQuotient(n, half, n / half);
  }

  /** That is division by the power of two, to the nearest integer. */
  lemma RoundsHalfUp(n: nat, shift: nat)
    requires shift > 0
    ensures ShiftRightAndRound(n, shift) * Pow2(shift) <= n + Pow2(shift - 1)
    ensures n + Pow2(shift - 1) < ShiftRightAndRound(n, shift) * Pow2(shift) + Pow2(shift)
  {
    HalfUp(n, Pow2(shift - 1), Pow2(shift), ShiftRightAndRound(n, shift));
  }

  function Max(a: nat, b: nat): nat {
    if a >= b then a else b
  }

  /** A weight scaled down, but not to nothing. */
  function ScaledAmount(n: nat, shift: nat): nat {
    Max(1, ShiftRightAndRound(n, shift))
  }

  function Total(cs: seq<nat>): nat {
    if cs == [] then 0 else Total(cs[..|cs| - 1]) + cs[|cs| - 1]
  }

  function ScaledTotal(cs: seq<nat>, shift: nat): nat {
    if cs == [] then 0 else ScaledTotal(cs[..|cs| - 1], shift) + ScaledAmount(cs[|cs| - 1], shift)
  }

  ghost predicate Positive(cs: seq<nat>) {
    forall i :: 0 <= i < |cs| ==> 0 < cs[i]
  }

  lemma ScaledAmountBound(n: nat, shift: nat)
    requires n > 0
    ensures ScaledAmount(n, shift) * Pow2(shift) <= n + Pow2(shift) - 1
  {
    if shift > 0 {
      RoundsHalfUp(n, shift);
    }
  }

  lemma AddProducts(a: nat, b: nat, p: nat)
    ensures (a + b) * p == a * p + b * p
  {
  }

  /** Scaling and rounding up to 1 adds less than one unit for each weight. */
  lemma {:induction false} ScaledTotalBound(cs: seq<nat>, shift: nat)
    requires Positive(cs)
    ensures ScaledTotal(cs, shift) * Pow2(shift) <= Total(cs) + |cs| * (Pow2(shift) - 1)
  {
    var p := Pow2(shift);
    if cs != [] {
      var init, c := cs[..|cs| - 1], cs[|cs| - 1];
      ScaledTotalBound(init, shift);
      ScaledAmountBound(c, shift);
      AddProducts(ScaledTotal(init, shift), ScaledAmount(c, shift), p);
      AddProducts(|init|, 1, p - 1);
    }
  }

  /** The shift that brings a total of at most 64 bits below 2^31. */
  function ShiftFor(didOverflow: bool, total: nat): (shift: nat)
    requires total < TWO64
  {
    if didOverflow then 33
    else if total > UINT32_MAX then
      BitLengthAbove32(total);
      33 - CountLeadingZeros(total)
    else 0
  }

  lemma BitLengthAbove32(total: nat)
    requires UINT32_MAX < total < TWO64
    ensures 33 <= BitLength(total) <= 64
  {
    Pow2Is64();
    BitLengthBounds(total);
    if BitLength(total) <= 32 {
      Pow2Mono(BitLength(total), 32);
    }
    if BitLength(total) > 64 {
      Pow2Mono(64, BitLength(total) - 1);
    }
  }

  lemma ShiftBrings31(total: nat)
    requires UINT32_MAX < total < TWO64
    ensures var shift := ShiftFor(false, total); 2 <= shift <= 33 && total < TWO31 * Pow2(shift)
  {
    BitLengthAbove32(total);
    BitLengthBounds(total);
    Pow2Is31();
    Pow2Adds(31, BitLength(total) - 31);
  }

  lemma HalfUpDivided(c: nat, half: nat, d: nat, r: nat, product: nat)
    requires half > 0 && d == 2 * half && product == r * d && product <= c + half < product + d
    ensures (2 * c + d) / (2 * d) == r
  {
    assert r * (2 * d) == 2 * product;
    DivBounds(2 * c + d, 2 * d, r);
  }

  /** `c` divided by `d`, to the nearest number, halves rounded up, but not to zero. */
  function Nearest(c: nat, d: nat): nat
    requires d > 0
  {
    Max(1, (2 * c + d) / (2 * d))
  }

  /** Scaling is division by the power of two. */
  lemma ScaledIsDivided(c: nat, shift: nat) returns (d: nat)
    ensures d == Pow2(shift) && ScaledAmount(c, shift) == Nearest(c, d)
  {
    d := Pow2(shift);
    if shift > 0 {
      var half, r := Pow2(shift - 1), ShiftRightAndRound(c, shift);
      RoundsHalfUp(c, shift);
      HalfUpDivided(c, half, d, r, r * d);
    } else {
      UnscaledAmount(c);
    }
  }

  lemma UnscaledAmount(c: nat)
    ensures ScaledAmount(c, 0) == Nearest(c, 1)
  {
  }

  /** The shift keeps 31 bits of a total of more than 32. */
  lemma ShiftKeeps31(total: nat)
    requires UINT32_MAX < total < TWO64
    ensures TWO30 * Pow2(ShiftFor(false, total)) <= total < TWO31 * Pow2(ShiftFor(false, total))
  {
    ShiftBrings31(total);
    BitLengthBounds(total);
    Pow2Is31();
    assert Pow2(31) == 2 * Pow2(30);
    Pow2Adds(30, BitLength(total) - 31);
  }

  /** Rounding loses at most half a unit for each weight. */
  lemma {:induction false} ScaledTotalKeeps(cs: seq<nat>, shift: nat)
    ensures Total(cs) * 2 <= (2 * ScaledTotal(cs, shift) + |cs|) * Pow2(shift)
  {
    var p := Pow2(shift);
    if cs != [] {
      var init, c := cs[..|cs| - 1], cs[|cs| - 1];
      ScaledTotalKeeps(init, shift);
      var d := ScaledIsDivided(c, shift);
      AmountKept(c, d, ScaledAmount(c, shift));
      AddProducts(2 * ScaledTotal(init, shift) + |init|, 2 * ScaledAmount(c, shift) + 1, p);
    }
  }

  lemma AmountKept(c: nat, d: nat, f: nat)
    requires d > 0 && f >= (2 * c + d) / (2 * d)
    ensures 2 * c <= (2 * f + 1) * d
  {
    var q := (2 * c + d) / (2 * d);
    Division(2 * c + d, 2 * d);
    assert q * (2 * d) + d == d * (2 * q + 1);
    MulMono(d, 2 * q + 1, 2 * f + 1);
  }

  /** So a total of more than 32 bits comes down to at least 31, but for the rounding. */
  lemma ScaledTotalPrecise(cs: seq<nat>, total: nat)
    requires UINT32_MAX < total < TWO64 && Total(cs) == total
    ensures 2 * ScaledTotal(cs, ShiftFor(false, total)) + |cs| >= TWO31
  {
    ShiftKeeps31(total);
    ScaledTotalKeeps(cs, ShiftFor(false, total));
    AtLeast31(total, Pow2(ShiftFor(false, total)), 2 * ScaledTotal(cs, ShiftFor(false, total)) + |cs|);
  }

  lemma AtLeast31(sum: nat, d: nat, kept: nat)
    requires TWO30 * d <= sum && d > 0 && sum * 2 <= kept * d
    ensures kept >= TWO31
  {
    if kept < TWO31 {
      MulMono(d, kept + 1, TWO31);
    }
  }

  /** Without overflow, up to 2^31 scaled weights add up to at most 32 bits. */
  lemma ScaledFits(cs: seq<nat>, total: nat)
    requires Positive(cs) && |cs| <= TWO31 && Total(cs) == total < TWO64
    ensures ScaledTotal(cs, ShiftFor(false, total)) <= UINT32_MAX
  {
    var shift := ShiftFor(false, total);
    var p := Pow2(shift);
    if total <= UINT32_MAX {
      UnscaledTotal(cs);
    } else {
      ShiftBrings31(total);
      ScaledTotalBound(cs, shift);
      QuotientFits(ScaledTotal(cs, shift), p, |cs|, total);
    }
  }

  lemma QuotientFits(scaled: nat, p: nat, n: nat, total: nat)
    requires p > 0 && n <= TWO31 && total < TWO31 * p && scaled * p <= total + n * (p - 1)
    ensures scaled <= UINT32_MAX
  {
    MulMono(p - 1, n, TWO31);
    if scaled >= TWO32 {
      MulMono(p, TWO32, scaled);
      assert false;
    }
  }

  lemma {:induction false} UnscaledTotal(cs: seq<nat>)
    requires Positive(cs)
    ensures ScaledTotal(cs, 0) == Total(cs)
  {
    if cs != [] {
      UnscaledTotal(cs[..|cs| - 1]);
    }
  }

  // ----- after overflow -----

  const OVERFLOW_SHIFT: nat := 33

  /** Amounts as they are after combining. */
  ghost predicate Amounts(cs: seq<nat>) {
    forall i :: 0 <= i < |cs| ==> 0 < cs[i] <= UINT64_MAX
  }

  /** The least true sum of `n` combined weights whose scaled total may not fit in 32 bits. */
  function Threshold(n: nat): int {
    2 * TWO64 - (n - 2) * (2 * TWO32 - 1) - 2 * TWO32
  }

  lemma ScaledAfterOverflow(c: nat)
    requires 0 < c <= UINT64_MAX
    ensures var f := ScaledAmount(c, OVERFLOW_SHIFT);
            && f <= TWO31 && f * (2 * TWO32) <= c + 2 * TWO32 - 1
            && (f >= 2 ==> f * (2 * TWO32) <= c + TWO32)
            && c + TWO32 < f * (2 * TWO32) + 2 * TWO32
  {
    Pow2Is64();
    RoundsHalfUp(c, OVERFLOW_SHIFT);
  }

  /** How many weights are scaled to 2 or more. */
  function Large(cs: seq<nat>): nat {
    if cs == [] then 0
    else Large(cs[..|cs| - 1]) + (if ScaledAmount(cs[|cs| - 1], OVERFLOW_SHIFT) >= 2 then 1 else 0)
  }

  lemma {:induction false} LargeBounds(cs: seq<nat>)
    requires Amounts(cs)
    ensures Large(cs) <= |cs|
    ensures ScaledTotal(cs, OVERFLOW_SHIFT) <= |cs| - Large(cs) + Large(cs) * TWO31
    ensures ScaledTotal(cs, OVERFLOW_SHIFT) * (2 * TWO32)
            <= Total(cs) + (|cs| - Large(cs)) * (2 * TWO32 - 1) + Large(cs) * TWO32
  {
    if cs != [] {
      var init, c := cs[..|cs| - 1], cs[|cs| - 1];
      LargeBounds(init);
      ScaledAfterOverflow(c);
      OneMoreBound(|init|, Large(init), ScaledTotal(init, OVERFLOW_SHIFT), Total(init), c,
                   ScaledAmount(c, OVERFLOW_SHIFT));
    }
  }

  lemma OneMoreBound(n: nat, large: nat, scaled: nat, total: nat, c: nat, f: nat)
    requires large <= n && scaled <= n - large + large * TWO31
    requires scaled * (2 * TWO32) <= total + (n - large) * (2 * TWO32 - 1) + large * TWO32
    requires f <= TWO31 && f * (2 * TWO32) <= c + 2 * TWO32 - 1 && (f >= 2 ==> f * (2 * TWO32) <= c + TWO32)
    ensures var large' := large + (if f >= 2 then 1 else 0);
            && scaled + f <= n + 1 - large' + large' * TWO31
            && (scaled + f) * (2 * TWO32) <= total + c + (n + 1 - large') * (2 * TWO32 - 1) + large' * TWO32
  {
  }

  lemma BelowThresholdFits(cs: seq<nat>)
    requires Amounts(cs) && 2 <= |cs| <= TWO31 && Total(cs) < Threshold(|cs|)
    ensures ScaledTotal(cs, OVERFLOW_SHIFT) <= UINT32_MAX
  {
    LargeBounds(cs);
    BelowThreshold(|cs|, Large(cs), ScaledTotal(cs, OVERFLOW_SHIFT), Total(cs));
  }

  /** Fewer than two large weights leave room by their number, two or more by their sum. */
  lemma BelowThreshold(n: nat, large: nat, scaled: nat, total: nat)
    requires large <= n && 2 <= n <= TWO31 && total < Threshold(n)
    requires scaled <= n - large + large * TWO31
    requires scaled * (2 * TWO32) <= total + (n - large) * (2 * TWO32 - 1) + large * TWO32
    ensures scaled <= UINT32_MAX
  {
    if large >= 2 {
      assert (n - large) * (2 * TWO32 - 1) + large * TWO32 <= (n - 2) * (2 * TWO32 - 1) + 2 * TWO32;
    }
  }

  /** Combined amounts of edges whose true sum is `sum`. */
  lemma AmountsFit(cs: seq<nat>, sum: nat)
    requires Amounts(cs) && 2 <= |cs| <= TWO31 && sum < 2 * TWO64
    requires if sum < TWO64 then Total(cs) == sum else Total(cs) < Threshold(|cs|)
    ensures ScaledTotal(cs, ShiftFor(sum >= TWO64, sum % TWO64)) <= UINT32_MAX
  {
    if sum < TWO64 {
      assert sum % TWO64 == sum;
      ScaledFits(cs, sum);
    } else {
      BelowThresholdFits(cs);
      assert ShiftFor(true, sum % TWO64) == OVERFLOW_SHIFT;
    }
  }

  function Ones(n: nat): (s: seq<nat>)
    ensures |s| == n && Amounts(s)
  {
    if n == 0 then [] else Ones(n - 1) + [1]
  }

  lemma {:induction false} OnesTotal(n: nat)
    ensures Total(Ones(n)) == n && ScaledTotal(Ones(n), OVERFLOW_SHIFT) >= n
  {
    if n > 0 {
      OnesTotal(n - 1);
      assert Ones(n)[..n - 1] == Ones(n - 1);
    }
  }

  lemma TwoMore(cs: seq<nat>, a: nat, b: nat)
    ensures Total(cs + [a, b]) == Total(cs) + a + b
    ensures ScaledTotal(cs + [a, b], OVERFLOW_SHIFT)
            == ScaledTotal(cs, OVERFLOW_SHIFT) + ScaledAmount(a, OVERFLOW_SHIFT) + ScaledAmount(b, OVERFLOW_SHIFT)
  {
    var all := cs + [a, b];
    assert all[..|all| - 1] == cs + [a];
    assert (cs + [a])[..|cs|] == cs;
  }

  lemma TwoLarge(n: nat, total: nat) returns (a: nat, b: nat)
    requires 2 <= n <= TWO31 && Threshold(n) <= total < 2 * TWO64 && total <= n * UINT64_MAX
    ensures TWO64 - TWO32 <= a <= UINT64_MAX
    ensures TWO64 - TWO32 - (n - 2) * (2 * TWO32) <= b <= UINT64_MAX && 0 < b
    ensures n - 2 + a + b == total
  {
    var extra := total - Threshold(n);
    var d := Min(extra, TWO32 - 1);
    a := TWO64 - TWO32 + d;
    b := TWO64 - (n - 2) * (2 * TWO32) - TWO32 + (extra - d);
  }

  lemma LargeScales(c: nat, k: nat)
    requires 0 < c <= UINT64_MAX && TWO64 - TWO32 - k * (2 * TWO32) <= c
    ensures ScaledAmount(c, OVERFLOW_SHIFT) >= TWO31 - k
  {
    ScaledAfterOverflow(c);
  }

  /** From the threshold on, `n - 2` ones and two large weights do not fit. */
  lemma AboveThresholdMayNotFit(n: nat, total: nat) returns (cs: seq<nat>)
    requires 2 <= n <= TWO31 && Threshold(n) <= total < 2 * TWO64 && total <= n * UINT64_MAX
    ensures |cs| == n && Amounts(cs) && Total(cs) == total
    ensures ScaledTotal(cs, OVERFLOW_SHIFT) > UINT32_MAX
  {
    var a, b := TwoLarge(n, total);
    OnesTotal(n - 2);
    TwoMore(Ones(n - 2), a, b);
    LargeScales(a, 0);
    LargeScales(b, n - 2);
    cs := Ones(n - 2) + [a, b];
  }

  ghost predicate AllFit(n: nat, total: nat) {
    forall cs: seq<nat> :: |cs| == n && Amounts(cs) && Total(cs) == total ==>
      ScaledTotal(cs, OVERFLOW_SHIFT) <= UINT32_MAX
  }

  /** After an overflow the scaled total is sure to fit in 32 bits exactly when the true sum of the
      combined weights is below a threshold that depends only on their number. */
  lemma FitsIffBelowThreshold(n: nat, total: nat)
    requires 2 <= n <= TWO31 && total < 2 * TWO64 && total <= n * UINT64_MAX
    ensures AllFit(n, total) <==> total < Threshold(n)
  {
    if total < Threshold(n) {
      forall cs: seq<nat> | |cs| == n && Amounts(cs) && Total(cs) == total
        ensures ScaledTotal(cs, OVERFLOW_SHIFT) <= UINT32_MAX
      {
        BelowThresholdFits(cs);
      }
    } else {
      var cs := AboveThresholdMayNotFit(n, total);
    }
  }

  // ----- amounts of weight lists -----

  function AmountsOf(ws: seq<Weight>): (cs: seq<nat>)
    ensures |cs| == |ws| && forall i :: 0 <= i < |ws| ==> cs[i] == ws[i].amount
  {
    seq(|ws|, i requires 0 <= i < |ws| => ws[i].amount)
  }

  lemma {:induction false} SumIsTotal(ws: seq<Weight>)
    ensures Sum(ws) == Total(AmountsOf(ws))
  {
    if ws != [] {
      SumIsTotal(ws[..|ws| - 1]);
      assert AmountsOf(ws)[..|ws| - 1] == AmountsOf(ws[..|ws| - 1]);
    }
  }

  function Without(ws: seq<Weight>, t: Node): (r: seq<Weight>) {
    if ws == [] then []
    else Without(ws[..|ws| - 1], t) + (if ws[|ws| - 1].target == t then [] else [ws[|ws| - 1]])
  }

  lemma SumAppend(ws: seq<Weight>, w: Weight)
    ensures Sum(ws + [w]) == Sum(ws) + w.amount
  {
    assert (ws + [w])[..|ws|] == ws;
  }

  lemma {:induction false} WithoutSums(ws: seq<Weight>, t: Node)
    ensures Sum(ws) == SumFor(ws, t) + Sum(Without(ws, t))
  {
    if ws != [] {
      var init, last := ws[..|ws| - 1], ws[|ws| - 1];
      WithoutSums(init, t);
      assert Without(init, t) + [] == Without(init, t);
      SumAppend(Without(init, t), last);
    }
  }

  lemma {:induction false} WithoutKeeps(ws: seq<Weight>, t: Node, u: Node)
    ensures SumFor(Without(ws, t), u) == if u == t then 0 else SumFor(ws, u)
    ensures HasTarget(Without(ws, t), u) <==> u != t && HasTarget(ws, u)
  {
    if ws != [] {
      var init, last := ws[..|ws| - 1], ws[|ws| - 1];
      WithoutKeeps(init, t, u);
      assert ws == init + [last];
      HasTargetAppend(init, last, u);
      if last.target != t {
        SumForAppend(Without(init, t), last, u);
        HasTargetAppend(Without(init, t), last, u);
      } else {
        assert Without(ws, t) == Without(init, t);
      }
    }
  }

  ghost predicate CoversTargets(out: seq<Weight>, ws: seq<Weight>) {
    Distinct(out) && forall t :: HasTarget(out, t) <==> HasTarget(ws, t)
  }

  lemma NoTargets(ws: seq<Weight>)
    requires forall t :: !HasTarget(ws, t)
    ensures ws == []
  {
    if ws != [] {
      assert HasTarget(ws, ws[0].target);
    }
  }

  lemma LastTargetOnce(out: seq<Weight>)
    requires Distinct(out) && out != []
    ensures !HasTarget(out[..|out| - 1], out[|out| - 1].target)
  {
  }

  lemma CoversFewer(out: seq<Weight>, ws: seq<Weight>)
    requires CoversTargets(out, ws) && out != []
    ensures CoversTargets(out[..|out| - 1], Without(ws, out[|out| - 1].target))
  {
    var init, last := out[..|out| - 1], out[|out| - 1];
    assert out == init + [last];
    forall t
      ensures HasTarget(init, t) <==> HasTarget(Without(ws, last.target), t)
    {
      WithoutKeeps(ws, last.target, t);
      HasTargetAppend(init, last, t);
      LastTargetOnce(out);
    }
  }

  /** One entry per target, each no more than the edges to it: the sum is no more than that of
      all the edges, and is the same if each entry is exact. */
  lemma {:induction false} SumOfCombined(out: seq<Weight>, ws: seq<Weight>)
    requires CoversTargets(out, ws)
    requires forall j :: 0 <= j < |out| ==> out[j].amount <= SumFor(ws, out[j].target)
    ensures Sum(out) <= Sum(ws)
    ensures (forall j :: 0 <= j < |out| ==> out[j].amount == SumFor(ws, out[j].target)) ==> Sum(out) == Sum(ws)
    decreases |out|
  {
    if out == [] {
      forall t
        ensures !HasTarget(ws, t)
      {
        assert HasTarget(out, t) <==> HasTarget(ws, t);
      }
      NoTargets(ws);
    } else {
      var init, last := out[..|out| - 1], out[|out| - 1];
      var rest := Without(ws, last.target);
      CoversFewer(out, ws);
      forall j | 0 <= j < |init|
        ensures SumFor(rest, init[j].target) == SumFor(ws, init[j].target)
      {
        assert out[j].target != out[|out| - 1].target;
        WithoutKeeps(ws, last.target, init[j].target);
      }
      SumOfCombined(init, rest);
      WithoutSums(ws, last.target);
    }
  }

  // ----- the combined weights of a list -----

  lemma {:induction false} WithoutHolds(ws: seq<Weight>, t: Node, w: Weight)
    ensures w in Without(ws, t) <==> w in ws && w.target != t
  {
    if ws != [] {
      var init, last := ws[..|ws| - 1], ws[|ws| - 1];
      WithoutHolds(init, t, w);
      assert ws == init + [last];
      assert last.target == t ==> Without(ws, t) == Without(init, t);
    }
  }

  lemma {:induction false} WithoutShorter(ws: seq<Weight>, t: Node)
    ensures |Without(ws, t)| <= |ws|
    ensures ws != [] && ws[|ws| - 1].target == t ==> |Without(ws, t)| < |ws|
  {
    if ws != [] {
      WithoutShorter(ws[..|ws| - 1], t);
    }
  }

  /** One entry for each target of `ws`, with the saturated sum of the edges to it. */
  ghost function Combined(ws: seq<Weight>): (cs: seq<Weight>)
    decreases |ws|
  {
    if ws == [] then []
    else
      var last := ws[|ws| - 1];
      WithoutShorter(ws, last.target);
      Combined(Without(ws, last.target)) + [last.(amount := Min(SumFor(ws, last.target), UINT64_MAX))]
  }

  lemma {:induction false} CombinedNoLonger(ws: seq<Weight>)
    ensures |Combined(ws)| <= |ws|
    decreases |ws|
  {
    if ws != [] {
      var t := ws[|ws| - 1].target;
      WithoutShorter(ws, t);
      CombinedNoLonger(Without(ws, t));
    }
  }

  lemma WithoutTypesAgree(ws: seq<Weight>, t: Node)
    requires TypesAgree(ws)
    ensures TypesAgree(Without(ws, t))
  {
    var rest := Without(ws, t);
    forall i | 0 <= i < |rest|
      ensures rest[i] in ws
    {
      WithoutHolds(ws, t, rest[i]);
    }
  }

  /** Edges to other targets do not matter to an entry. */
  lemma StandsForWithout(w: Weight, ws: seq<Weight>, t: Node)
    requires StandsFor(w, Without(ws, t)) && w.target != t
    ensures StandsFor(w, ws)
  {
    WithoutKeeps(ws, t, w.target);
    forall i | 0 <= i < |ws| && ws[i].target == w.target
      ensures ws[i].kind == w.kind
    {
      WithoutHolds(ws, t, ws[i]);
    }
  }

  lemma CombinedOneMore(cs: seq<Weight>, rest: seq<Weight>, w: Weight, ws: seq<Weight>)
    requires rest == Without(ws, w.target) && Combination(cs, rest)
    requires StandsFor(w, ws) && HasTarget(ws, w.target)
    ensures Combination(cs + [w], ws)
  {
    forall t
      ensures HasTarget(cs + [w], t) <==> HasTarget(ws, t)
    {
      HasTargetAppend(cs, w, t);
      WithoutKeeps(ws, w.target, t);
      assert HasTarget(cs, t) <==> HasTarget(rest, t);
    }
    forall j | 0 <= j < |cs|
      ensures cs[j].target != w.target && StandsFor(cs[j], ws)
    {
      assert HasTarget(cs, cs[j].target);
      WithoutKeeps(ws, w.target, cs[j].target);
      StandsForWithout(cs[j], ws, w.target);
    }
  }

  /** That is the combination of the edges, as found by sorting or by hashing. */
  lemma {:induction false} CombinedIsCombination(ws: seq<Weight>)
    requires TypesAgree(ws)
    ensures Combination(Combined(ws), ws)
    decreases |ws|
  {
    if ws != [] {
      var last := ws[|ws| - 1];
      var rest := Without(ws, last.target);
      WithoutTypesAgree(ws, last.target);
      WithoutShorter(ws, last.target);
      CombinedIsCombination(rest);
      var w := last.(amount := Min(SumFor(ws, last.target), UINT64_MAX));
      assert HasTarget(ws, last.target);
      CombinedOneMore(Combined(rest), rest, w, ws);
    }
  }

  lemma {:induction false} ScaledTotalJoin(a: seq<nat>, b: seq<nat>, shift: nat)
    ensures ScaledTotal(a + b, shift) == ScaledTotal(a, shift) + ScaledTotal(b, shift)
  {
    if b == [] {
      assert a + b == a;
    } else {
      assert (a + b)[..|a + b| - 1] == a + b[..|b| - 1];
      ScaledTotalJoin(a, b[..|b| - 1], shift);
    }
  }

  lemma ScaledTotalMoved(a: seq<Weight>, w: Weight, b: seq<Weight>, shift: nat)
    ensures ScaledTotal(AmountsOf(a + [w] + b), shift)
            == ScaledTotal(AmountsOf(a + b), shift) + ScaledAmount(w.amount, shift)
  {
    assert AmountsOf(a + [w] + b) == AmountsOf(a) + [w.amount] + AmountsOf(b);
    assert AmountsOf(a + b) == AmountsOf(a) + AmountsOf(b);
    ScaledTotalJoin(AmountsOf(a), AmountsOf(b), shift);
    ScaledTotalJoin(AmountsOf(a) + [w.amount], AmountsOf(b), shift);
    assert (AmountsOf(a) + [w.amount])[..|a|] == AmountsOf(a);
  }

  /** Taking out one occurrence of the last element of `a`. */
  lemma WithoutLast(a: seq<Weight>, b: seq<Weight>) returns (i: nat)
    requires multiset(a) == multiset(b) && a != []
    ensures i < |b| && b == b[..i] + [a[|a| - 1]] + b[i + 1..]
    ensures multiset(a[..|a| - 1]) == multiset(b[..i] + b[i + 1..])
  {
    var init, last := a[..|a| - 1], a[|a| - 1];
    assert last in multiset(b);
    i :| 0 <= i < |b| && b[i] == last;
    assert a == init + [last];
    assert b == b[..i] + [last] + b[i + 1..];
    assert multiset(b[..i] + b[i + 1..]) == multiset(b) - multiset{last};
    assert multiset(init) == multiset(a) - multiset{last};
  }

  /** The scaled total does not depend on the order of the weights. */
  lemma {:induction false} ScaledTotalPermuted(a: seq<Weight>, b: seq<Weight>, shift: nat)
    requires multiset(a) == multiset(b)
    ensures ScaledTotal(AmountsOf(a), shift) == ScaledTotal(AmountsOf(b), shift) && |a| == |b|
    decreases |a|
  {
    assert |multiset(a)| == |a| && |multiset(b)| == |b|;
    if a != [] {
      var i := WithoutLast(a, b);
      ScaledTotalPermuted(a[..|a| - 1], b[..i] + b[i + 1..], shift);
      ScaledTotalMoved(b[..i], a[|a| - 1], b[i + 1..], shift);
      ScaledTotalLast(a, shift);
    }
  }

  lemma ScaledTotalLast(a: seq<Weight>, shift: nat)
    requires a != []
    ensures ScaledTotal(AmountsOf(a), shift)
            == ScaledTotal(AmountsOf(a[..|a| - 1]), shift) + ScaledAmount(a[|a| - 1].amount, shift)
  {
    assert AmountsOf(a)[..|a| - 1] == AmountsOf(a[..|a| - 1]);
  }

  /** No scaled weight needs more than 32 bits, not even after an overflow. */
  lemma ScaledWeightFits(c: nat, didOverflow: bool, total: nat)
    requires 0 < c <= UINT64_MAX && total < TWO64 && (!didOverflow ==> c <= total)
    ensures ScaledAmount(c, ShiftFor(didOverflow, total)) <= UINT32_MAX
  {
    if didOverflow {
      ScaledAfterOverflow(c);
    } else if total > UINT32_MAX {
      var shift := ShiftFor(false, total);
      ShiftBrings31(total);
      RoundsHalfUp(c, shift);
      RoundedBelow31(ShiftRightAndRound(c, shift), Pow2(shift), c);
    }
  }

  lemma RoundedBelow31(r: nat, p: nat, c: nat)
    requires p > 0 && c < TWO31 * p && r * p <= c + p
    ensures r <= TWO31
  {
    if r > TWO31 {
      MulMono(p, TWO31 + 1, r);
    }
  }
}
