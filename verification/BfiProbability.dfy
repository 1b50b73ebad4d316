/** BranchProbability: fixed-point probabilities with denominator 2^31, and the exact scaling of
    64-bit numbers by them in 32-bit digits. */
module BfiProbability {

  const TWO30: nat := 0x4000_0000
  const TWO31: nat := 0x8000_0000
  const TWO32: nat := 0x1_0000_0000
  const TWO64: nat := 0x1_0000_0000_0000_0000
  const UINT32_MAX := TWO32 - 1
  const UINT64_MAX := TWO64 - 1

  /** The numerator of `numerator/denominator`, rounded to the nearest multiple of 2^-31. */
  function Probability(numerator: nat, denominator: nat): (n: nat)
    requires 0 < denominator < TWO32 && numerator <= denominator
    ensures n <= TWO31
    ensures numerator == denominator ==> n == TWO31
  {
    if denominator == TWO31 then numerator else Rounded(numerator, denominator)
  }

  function Rounded(numerator: nat, denominator: nat): (n: nat)
    requires 0 < denominator < TWO32 && numerator <= denominator
    ensures n <= TWO31
    ensures numerator == denominator ==> n == TWO31
  {
    ProbabilityInRange(numerator, denominator);
    (numerator * TWO31 + denominator / 2) / denominator
  }

  lemma DivBounds(a: nat, d: nat, q: nat)
    requires d > 0 && q * d <= a < q * d + d
    ensures a / d == q
  {
    var x := a / d;
    assert x * d <= a < x * d + d;
    if x < q {
      MulMono(d, x + 1, q);
      assert false;
    } else if x > q {
      MulMono(d, q + 1, x);
      assert false;
    }
  }

  lemma MulMono(d: nat, a: nat, b: nat)
    requires a <= b
    ensures d * a <= d * b
  {
  }

  lemma DivMono(a: nat, b: nat, d: nat)
    requires a <= b && d > 0
    ensures a / d <= b / d
  {
    if a / d > b / d {
      MulMono(d, b / d + 1, a / d);
    }
  }

  lemma ProbabilityInRange(numerator: nat, denominator: nat)
    requires 0 < denominator < TWO32 && numerator <= denominator
    ensures (numerator * TWO31 + denominator / 2) / denominator <= TWO31
    ensures numerator == denominator ==> (numerator * TWO31 + denominator / 2) / denominator == TWO31
  {
    DivBounds(denominator * TWO31 + denominator / 2, denominator, TWO31);
    MulMono(TWO31, numerator, denominator);
    DivMono(numerator * TWO31 + denominator / 2, denominator * TWO31 + denominator / 2, denominator);
  }

  lemma RoundedQuotient(a: nat, d: nat, q: nat, product: nat)
    requires d > 0 && q == (a + d / 2) / d && product == q * d
    ensures 2 * a - d <= 2 * product <= 2 * a + d
  {
    Division(a + d / 2, d);
  }

  /** The probability is off by at most half of 2^-31: no multiple of it is nearer to the fraction. */
  lemma ProbabilityIsNearest(numerator: nat, denominator: nat)
    requires 0 < denominator < TWO32 && numerator <= denominator
    ensures 2 * (numerator * TWO31) - denominator <= 2 * (Probability(numerator, denominator) * denominator)
    ensures 2 * (Probability(numerator, denominator) * denominator) <= 2 * (numerator * TWO31) + denominator
  {
    if denominator != TWO31 {
      var n := Rounded(numerator, denominator);
      RoundedQuotient(numerator * TWO31, denominator, n, n * denominator);
    }
  }

  // ----- scaling -----

  function Min(a: nat, b: nat): nat {
    if a <= b then a else b
  }

  /** `num * n / d`, rounded down, or the largest 64-bit number if that does not fit. */
  function ScaledExactly(num: nat, n: nat, d: nat): nat
    requires d > 0
  {
    Min(num * n / d, UINT64_MAX)
  }

  /** The three 32-bit digits of `high * 2^32 + low`, most significant first, with the carry out of
      the middle digit found by comparison. */
  function Digits(high: nat, low: nat): (r: (nat, nat, nat)) {
    var partial := high % TWO32;
    var mid := (partial + low / TWO32) % TWO32;
    (high / TWO32 + (if mid < partial then 1 else 0), mid, low % TWO32)
  }

  lemma SmallProduct(a: nat, b: nat)
    requires a < TWO32 && b < TWO32
    ensures a * b <= (TWO32 - 1) * (TWO32 - 1)
  {
    MulMono(a, b, TWO32 - 1);
    MulMono(TWO32 - 1, a, TWO32 - 1);
  }

  lemma DigitsAreRight(high: nat, low: nat)
    requires high <= (TWO32 - 1) * (TWO32 - 1) && low <= (TWO32 - 1) * (TWO32 - 1)
    ensures var (upper, mid, lower) := Digits(high, low);
            upper < TWO32 && mid < TWO32 && lower < TWO32
            && high * TWO32 + low == (upper * TWO32 + mid) * TWO32 + lower
  {
  }

  lemma SplitProduct(h: nat, l: nat, n: nat)
    ensures (h * TWO32 + l) * n == h * n * TWO32 + l * n
  {
  }

  lemma Division(a: nat, d: nat)
    requires d > 0
    ensures a == a / d * d + a % d && a / d * d <= a < a / d * d + d
  {
  }

  lemma Distribute(q: nat, p: nat, d: nat)
    ensures (q * TWO32 + p) * d == q * d * TWO32 + p * d
  {
  }

  lemma QuotientIs(n: nat, d: nat, k: nat, product: int)
    requires d > 0 && product == k * d && product <= n < product + d
    ensures n / d == k
  {
    DivBounds(n, d, k);
  }

  /** One step of long division. */
  lemma LongDivision(rem: nat, digit: nat, d: nat, q: nat, r: nat, p: nat)
    requires d > 0 && rem == q * d + r && p * d <= r * TWO32 + digit < p * d + d
    ensures (rem * TWO32 + digit) / d == q * TWO32 + p
  {
    Distribute(q, p, d);
    QuotientIs(rem * TWO32 + digit, d, q * TWO32 + p, q * d * TWO32 + p * d);
  }

  lemma QuotientBound(a: nat, d: nat, k: nat)
    requires d > 0
    ensures a < d * k ==> a / d < k
    ensures a >= d * k ==> a / d >= k
  {
    if a < d * k && a / d >= k {
      MulMono(d, k, a / d);
    }
    if a >= d * k && a / d < k {
      MulMono(d, a / d + 1, k);
    }
  }

  /** `quotient` is what long division by `d` of three 32-bit digits yields. */
  predicate DividesTo(upper: nat, mid: nat, lower: nat, d: nat, quotient: nat)
    requires d > 0
  {
    var rem := upper * TWO32 + mid;
    && quotient == rem / d * TWO32 + (rem % d * TWO32 + lower) / d
    && (rem % d * TWO32 + lower) / d < TWO32
    && (upper >= d <==> rem / d >= TWO32)
  }

  lemma DigitsDivide(rem: nat, upper: nat, mid: nat, lower: nat, d: nat)
    requires mid < TWO32 && lower < TWO32 && d > 0 && rem == upper * TWO32 + mid
    ensures DividesTo(upper, mid, lower, d, (rem * TWO32 + lower) / d)
  {
    Division(rem, d);
    Division(rem % d * TWO32 + lower, d);
    LongDivision(rem, lower, d, rem / d, rem % d, (rem % d * TWO32 + lower) / d);
    QuotientBound(rem, d, TWO32);
    LastDigit(rem % d, lower, d);
    assert upper >= d <==> rem >= d * TWO32;
  }

  lemma LastDigit(r: nat, lower: nat, d: nat)
    requires r < d && lower < TWO32
    ensures (r * TWO32 + lower) / d < TWO32
  {
    QuotientBound(r * TWO32 + lower, d, TWO32);
  }

  lemma ProductDigits(num: nat, n: nat)
    requires num < TWO64 && n < TWO32
    ensures var (upper, mid, lower) := Digits(num / TWO32 * n, num % TWO32 * n);
            upper < TWO32 && mid < TWO32 && lower < TWO32 && num * n == (upper * TWO32 + mid) * TWO32 + lower
  {
    SmallProduct(num / TWO32, n);
    SmallProduct(num % TWO32, n);
    DigitsAreRight(num / TWO32 * n, num % TWO32 * n);
    SplitProduct(num / TWO32, num % TWO32, n);
    assert num == num / TWO32 * TWO32 + num % TWO32;
  }

  /** Multiply, in 32-bit digits. */
  method Multiply(num: nat, n: nat) returns (upper32: nat, mid32: nat, lower32: nat)
    requires num < TWO64 && n < TWO32
    ensures upper32 < TWO32 && mid32 < TWO32 && lower32 < TWO32
    ensures num * n == (upper32 * TWO32 + mid32) * TWO32 + lower32
  {
    var productHigh := num / TWO32 * n;
    var productLow := num % TWO32 * n;
    ProductDigits(num, n);
    upper32 := productHigh / TWO32;
    lower32 := productLow % TWO32;
    var mid32Partial := productHigh % TWO32;
    mid32 := (mid32Partial + productLow / TWO32) % TWO32;
    if mid32 < mid32Partial {
      upper32 := upper32 + 1;
    }
    assert Digits(productHigh, productLow) == (upper32, mid32, lower32);
  }

  /** Long division of three digits, a digit of the quotient at a time. */
  method DivideDigits(upper32: nat, mid32: nat, lower32: nat, d: nat, ghost quotient: nat)
      returns (upperQ: int, lowerQ: int)
    requires d > 0 && DividesTo(upper32, mid32, lower32, d, quotient)
    ensures 0 <= upperQ && 0 <= lowerQ < TWO32 && quotient == upperQ * TWO32 + lowerQ
    ensures upper32 >= d <==> upperQ >= TWO32
  {
    var rem := upper32 * TWO32 + mid32;
    upperQ := rem / d;
    lowerQ := (rem % d * TWO32 + lower32) / d;
  }

  /** Divide three digits, saturating. */
  method Divide(upper32: nat, mid32: nat, lower32: nat, d: nat, ghost quotient: nat) returns (r: int)
    requires 0 < d < TWO32 && mid32 < TWO32 && lower32 < TWO32
    requires DividesTo(upper32, mid32, lower32, d, quotient)
    ensures r == Min(quotient, UINT64_MAX)
  {
    var upperQ, lowerQ := DivideDigits(upper32, mid32, lower32, d, quotient);
    r := Saturate(upper32 >= d, upperQ, lowerQ);
  }

  /** Join the digits of a quotient, unless it is too large for 64 bits. */
  method Saturate(tooLarge: bool, upperQ: int, lowerQ: int) returns (r: int)
    requires 0 <= upperQ && 0 <= lowerQ < TWO32 && (tooLarge <==> upperQ >= TWO32)
    ensures r == Min(upperQ * TWO32 + lowerQ, UINT64_MAX)
  {
    if tooLarge || upperQ > UINT32_MAX {
      return UINT64_MAX;
    }
    var q := (upperQ * TWO32 + lowerQ) % TWO64;
    return if q < lowerQ then UINT64_MAX else q;
  }

  /** Scale by `n/d`, multiplying and dividing in 32-bit digits of 64-bit words. */
  method Scale(num: nat, n: nat, d: nat) returns (r: int)
    requires num < TWO64 && n < TWO32 && 0 < d < TWO32
    ensures r == ScaledExactly(num, n, d)
  {
    if num == 0 || d == n {
      ScaledByOne(num, n, d);
      return num;
    }
    var upper32, mid32, lower32 := Multiply(num, n);
    ghost var quotient := ProductDivides(upper32, mid32, lower32, d, num, n);
    r := Divide(upper32, mid32, lower32, d, quotient);
  }

  lemma ProductDivides(upper: nat, mid: nat, lower: nat, d: nat, num: nat, n: nat) returns (quotient: nat)
    requires d > 0 && mid < TWO32 && lower < TWO32
    requires num * n == (upper * TWO32 + mid) * TWO32 + lower
    ensures DividesTo(upper, mid, lower, d, quotient) && ScaledExactly(num, n, d) == Min(quotient, UINT64_MAX)
  {
    quotient := (num * n) / d;
    DigitsDivide(upper * TWO32 + mid, upper, mid, lower, d);
  }

  lemma ScaledByOne(num: nat, n: nat, d: nat)
    requires num < TWO64 && d > 0 && (num == 0 || d == n)
    ensures ScaledExactly(num, n, d) == num
  {
    if d == n {
      DivBounds(num * n, d, num);
    } else {
      DivBounds(0, d, 0);
    }
  }

  /** Scaling a mass by a probability: never more than the mass, and all of it at probability 1. */
  lemma ScaleByProbability(mass: nat, w: nat, r: nat)
    requires mass < TWO64 && 0 < r < TWO32 && w <= r
    ensures ScaledExactly(mass, Probability(w, r), TWO31) <= mass
    ensures w == r ==> ScaledExactly(mass, Probability(w, r), TWO31) == mass
  {
    var n := Probability(w, r);
    MulMono(mass, n, TWO31);
    DivMono(mass * n, mass * TWO31, TWO31);
    DivBounds(mass * TWO31, TWO31, mass);
  }
}
