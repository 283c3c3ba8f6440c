/**
 The division and the square root an exact statistic ends in: long division one digit at a
 time, the integer root by Newton's method, and the two roundings built on them.

 `LongDivision` and `FloorRoot` say what the two loops compute; the pure functions above them
 are written in their terms.
 */
module Rounding {
  import opened Numeric

  // ----- long division

  /** `value * 10^power`, the number every routine here divides by `den`. */
  function Scaled(value: int, power: nat): int {
    value * Pow10(power)
  }

  /**
   Long division stays inside `i256`: every remainder can be multiplied by ten, and the final
   quotient fits. The intermediate quotients are smaller, so they are not asked about.
   */
  predicate LongDivisionFits(value: int, den: int, power: nat)
    requires 0 < den
  {
    && Scaled(value, power) / den <= I256_MAX
    && forall j :: 0 <= j < power ==> 10 * (Scaled(value, j) % den) <= I256_MAX
  }

  /** What `ScaledDiv` computes: quotient and remainder of `value * 10^power` by `den`. */
  function LongDivision(value: int, den: int, power: nat): (r: Option<(int, int)>)
    requires 0 <= value && 0 < den
    ensures r.Some? ==> Scaled(value, power) == r.value.0 * den + r.value.1
    ensures r.Some? ==> 0 <= r.value.0 <= I256_MAX && 0 <= r.value.1 < den
  {
    if LongDivisionFits(value, den, power) then
      DivMod(Scaled(value, power), den);
      MulBothMonotonic(0, 0, value, Pow10(power));
      Some((Scaled(value, power) / den, Scaled(value, power) % den))
    else
      None
  }

  /** One digit of long division takes the pair for `power` to the pair for `power + 1`. */
  lemma LongDivisionDigit(value: int, den: int, power: nat, q: int, r: int)
    requires 0 <= value && 0 < den
    requires Scaled(value, power) == q * den + r && 0 <= r < den
    ensures Scaled(value, power + 1) == (10 * q + 10 * r / den) * den + 10 * r % den
    ensures r == Scaled(value, power) % den
    ensures 10 * q + 10 * r / den == Scaled(value, power + 1) / den
    ensures 10 * r % den == Scaled(value, power + 1) % den
  {
    DivModUnique(Scaled(value, power), den, q, r);
    DivMod(10 * r, den);
    assert Scaled(value, power + 1) == 10 * Scaled(value, power) by {
      MulAssociates(10, value, Pow10(power));
      MulAssociates(value, 10, Pow10(power));
    }
    assert (10 * q + 10 * r / den) * den == 10 * (q * den) + (10 * r / den) * den;
    DivModUnique(Scaled(value, power + 1), den, 10 * q + 10 * r / den, 10 * r % den);
  }

  lemma QuotientGrows(value: int, den: int, early: nat, late: nat)
    requires 0 <= value && 0 < den && early <= late
    ensures Scaled(value, early) / den <= Scaled(value, late) / den
  {
    Pow10Increases(early, late);
    MulMonotonic(Pow10(early), Pow10(late), value);
    DivMonotonic(Scaled(value, early), Scaled(value, late), den);
  }

  /** The digit's numbers, and how they stand to the final quotient. */
  lemma DigitBounds(value: int, den: int, digit: nat, power: nat, q: int, r: int, q': int, r': int)
    requires 0 <= value && 0 < den && digit < power
    requires Scaled(value, digit) == q * den + r && 0 <= q && 0 <= r < den
    requires q' == q * 10 + r * 10 / den && r' == r * 10 % den
    ensures Scaled(value, digit + 1) == q' * den + r' && 0 <= r' < den
    ensures r == Scaled(value, digit) % den
    ensures 0 <= q * 10 <= q' <= Scaled(value, power) / den
  {
    LongDivisionDigit(value, den, digit, q, r);
    QuotientGrows(value, den, digit + 1, power);
    DivMonotonic(0, r * 10, den);
  }

  /** Long division one digit at a time, refusing exactly when `LongDivision` does. */
  method ScaledDiv(value: int, den: int, power: nat) returns (r: Option<(int, int)>)
    requires IsI256(value) && 0 <= value
    requires IsI256(den) && 0 < den
    ensures r == LongDivision(value, den, power)
  {
    var quotient, remainder := value / den, value % den;
    FirstDigit(value, den);
    for digit := 0 to power
      invariant Scaled(value, digit) == quotient * den + remainder
      invariant 0 <= remainder < den
      invariant 0 <= quotient <= I256_MAX
      invariant forall j :: 0 <= j < digit ==> 10 * (Scaled(value, j) % den) <= I256_MAX
    {
      DigitBounds(value, den, digit, power, quotient, remainder,
                  quotient * 10 + remainder * 10 / den, remainder * 10 % den);
      if !IsI256(quotient * 10) {
        return None;
      }
      quotient := quotient * 10;
      if !IsI256(remainder * 10) {
        return None;
      }
      remainder := remainder * 10;
      if !IsI256(quotient + remainder / den) {
        return None;
      }
      quotient := quotient + remainder / den;
      remainder := remainder % den;
    }
    DivModUnique(Scaled(value, power), den, quotient, remainder);
    r := Some((quotient, remainder));
  }

  lemma FirstDigit(value: int, den: int)
    requires 0 <= value && 0 < den
    ensures Scaled(value, 0) == (value / den) * den + value % den
    ensures 0 <= value / den <= value && 0 <= value % den < den
  {
    DivMod(value, den);
    DivMonotonic(0, value, den);
    MulMonotonic(1, den, value / den);
  }

  // ----- integer square root

  predicate IsFloorRoot(root: int, value: int) {
    0 <= root && root * root <= value < (root + 1) * (root + 1)
  }

  lemma FloorRootUnique(a: int, b: int, value: int)
    requires IsFloorRoot(a, value) && IsFloorRoot(b, value)
    ensures a == b
  {
    if a < b {
      MulBothMonotonic(a + 1, a + 1, b, b);
    } else if b < a {
      MulBothMonotonic(b + 1, b + 1, a, a);
    }
  }

  /** What `IntegerSqrt` computes on a non-negative value. */
  function FloorRoot(value: int): (root: int)
    requires 0 <= value
    ensures IsFloorRoot(root, value)
  {
    if value == 0 then 0 else
    var below := FloorRoot(value - 1);
    if (below + 1) * (below + 1) <= value then below + 1 else below
  }

  /** `256 - value.leading_zeros()` for a non-negative `i256`. */
  function BitLength(value: int): (bits: nat)
    requires 0 <= value
  {
    if value == 0 then 0 else 1 + BitLength(value / 2)
  }

  lemma {:induction false} BitLengthBrackets(value: int)
    requires 1 <= value
    ensures BitLength(value) >= 1
    ensures Pow2(BitLength(value) - 1) <= value < Pow2(BitLength(value))
  {
    if value >= 2 {
      BitLengthBrackets(value / 2);
    }
  }

  lemma Pow2Near(bits: nat, double: nat)
    requires double == bits || double == bits + 1
    ensures Pow2(bits) <= Pow2(double) <= 2 * Pow2(bits)
  {
  }

  /** The seed `2^ceil(bits/2)` is above the root and within twice of it. */
  lemma {:induction false} SeedAboveRoot(value: int, shift: nat, seed: int)
    requires 2 <= value
    requires shift == (BitLength(value) + 1) / 2 && seed == Pow2(shift)
    ensures value < seed * seed <= 4 * value
  {
    var bits := BitLength(value);
    BitLengthBrackets(value);
    Pow2Near(bits, shift + shift);
    Pow2Near(bits - 1, bits);
    Pow2Doubles(shift, seed);
  }

  /** The seed fits the shift that makes it, and is far from the end of `i256`. */
  lemma SeedFits(seed: int, shift: nat)
    requires seed == Pow2(shift) && seed * seed <= 4 * I256_MAX
    ensures shift <= 128 && 2 * seed + 2 <= I256_MAX
  {
    var width := 128;
    Pow2Of128(width);
    var bound := 2 * (U128_MAX + 1);
    if bound <= seed {
      MulBothMonotonic(bound, bound, seed, seed);
    }
    if shift >= 129 {
      Pow2Increases(width + 1, shift);
    }
  }

  lemma {:induction false} GoodSeed(value: int, shift: nat, seed: int)
    requires 2 <= value <= I256_MAX
    requires shift == (BitLength(value) + 1) / 2 && seed == Pow2(shift)
    ensures shift <= 128 && 1 <= seed && 2 * seed + 2 <= I256_MAX
    ensures value < (seed + 1) * (seed + 1)
  {
    SeedAboveRoot(value, shift, seed);
    SeedFits(seed, shift);
    MulBothMonotonic(seed, seed, seed + 1, seed + 1);
  }

  lemma MeanAboveRoot(value: int, a: int, b: int, next: int)
    requires 1 <= a && 1 <= b && value < b * a && a + b <= 2 * (next + 1)
    ensures value < (next + 1) * (next + 1)
  {
    var mean := next + 1;
    MulBothMonotonic(a + b, a + b, 2 * mean, 2 * mean);
    assert (a + b) * (a + b) == (a - b) * (a - b) + 4 * (b * a);
    assert 0 <= (a - b) * (a - b);
    assert (2 * mean) * (2 * mean) == 4 * (mean * mean);
  }

  /**
   A Newton step never drops below the floor root, and one that fails to descend has arrived
   at it: the arithmetic-mean inequality in integers.
   */
  lemma NewtonStep(value: int, root: int, q: int, next: int)
    requires 0 <= value && 1 <= root
    requires q == value / root && next == (root + q) / 2
    ensures 0 <= next && value < (next + 1) * (next + 1)
    ensures next >= root ==> root * root <= value
    ensures 0 <= q && (value < (root + 1) * (root + 1) ==> q <= root + 2)
  {
    QuotientBrackets(value, root, q);
    MeanAboveRoot(value, root, q + 1, next);
    if next >= root {
      MulMonotonic(root, q, root);
    }
    if value < (root + 1) * (root + 1) {
      QuotientNearRoot(value, root, q);
    }
  }

  lemma QuotientBrackets(value: int, root: int, q: int)
    requires 0 <= value && 1 <= root && q == value / root
    ensures 0 <= q && q * root <= value < (q + 1) * root
  {
    DivMod(value, root);
    DivMonotonic(0, value, root);
  }

  lemma QuotientNearRoot(value: int, root: int, q: int)
    requires 1 <= root && q * root <= value < (root + 1) * (root + 1)
    ensures q <= root + 2
  {
    if root + 3 <= q {
      MulMonotonic(root + 3, q, root);
    }
  }

  /** The guard of the first correction loop; a square that leaves `i256` is too high. */
  predicate TooHigh(root: int, value: int) {
    !(IsI256(root * root) && root * root <= value)
  }

  /** The guard of the second correction loop. */
  predicate TooLow(root: int, value: int) {
    IsI256((root + 1) * (root + 1)) && (root + 1) * (root + 1) <= value
  }

  /**
   Newton's method in integers from the bit-length seed. The result is already the floor
   root, so the guards of both correction loops of `IntegerSqrt` are false at once; on the
   way, no unchecked addition leaves `i256`.
   */
  method NewtonRoot(value: int) returns (root: int)
    requires 2 <= value <= I256_MAX
    ensures IsFloorRoot(root, value) && 1 <= root
    ensures !TooHigh(root, value) && !TooLow(root, value)
  {
    root := Pow2((BitLength(value) + 1) / 2);
    ghost var seed := root;
    GoodSeed(value, (BitLength(value) + 1) / 2, seed);
    while true
      invariant 1 <= root <= seed
      invariant value < (root + 1) * (root + 1)
      decreases root
    {
      var quotient := value / root;
      var next := (root + quotient) / 2;
      NewtonStep(value, root, quotient, next);
      assert IsI256(root + quotient);
      if next >= root {
        break;
      }
      root := next;
    }
  }

  /** `floor(sqrt(value))` for every `i256`, with a negative value read as zero. */
  method IntegerSqrt(value: int) returns (root: int)
    requires IsI256(value)
    ensures IsFloorRoot(root, Max(value, 0))
    ensures 0 <= value ==> root == FloorRoot(value)
  {
    if value <= 1 {
      root := Max(value, 0);
    } else {
      root := NewtonRoot(value);
      assert !TooHigh(root, value) && !TooLow(root, value);
      // Too high, including a root whose square leaves `i256`.
      while TooHigh(root, value)
        invariant 0 <= root && value < (root + 1) * (root + 1)
        decreases root
      {
        root := root - 1;
      }
      // Too low.
      while TooLow(root, value)
        invariant 0 <= root && root * root <= value
        decreases value - root
      {
        MulMonotonic(1, root + 1, root + 1);
        root := root + 1;
      }
    }
    FloorRootUnique(root, FloorRoot(Max(value, 0)), Max(value, 0));
  }

  // ----- the two roundings

  /** `result` is `numerator / den` rounded half up. */
  predicate IsRoundedQuotient(result: int, numerator: int, den: int) {
    (2 * result - 1) * den <= 2 * numerator < (2 * result + 1) * den
  }

  /** `result` is `sqrt(numerator / den)` rounded half up, said without a square root. */
  predicate IsRoundedRoot(result: int, numerator: int, den: int) {
    && 0 <= result
    && 4 * numerator < (2 * result + 1) * (2 * result + 1) * den
    && (1 <= result ==> (2 * result - 1) * (2 * result - 1) * den <= 4 * numerator)
  }

  lemma RoundedQuotientUnique(a: int, b: int, numerator: int, den: int)
    requires 0 < den
    requires IsRoundedQuotient(a, numerator, den) && IsRoundedQuotient(b, numerator, den)
    ensures a == b
  {
    MulCancels(2 * a - 1, 2 * b + 1, den);
    MulCancels(2 * b - 1, 2 * a + 1, den);
  }

  lemma RoundedRootUnique(a: int, b: int, numerator: int, den: int)
    requires 0 < den
    requires IsRoundedRoot(a, numerator, den) && IsRoundedRoot(b, numerator, den)
    ensures a == b
  {
    if a < b {
      RoundedRootNotBelow(a, b, numerator, den);
    } else if b < a {
      RoundedRootNotBelow(b, a, numerator, den);
    }
  }

  lemma RoundedRootNotBelow(a: int, b: int, numerator: int, den: int)
    requires 0 < den
    requires IsRoundedRoot(a, numerator, den) && IsRoundedRoot(b, numerator, den)
    ensures b <= a
  {
    if a < b {
      var lo, hi := 2 * a + 1, 2 * b - 1;
      MulBothMonotonic(lo, lo, hi, hi);
      MulMonotonic(lo * lo, hi * hi, den);
    }
  }

  function RoundedDiv(value: int, den: int, power: nat): Option<int>
    requires 0 <= value && 0 < den
  {
    var (quotient, remainder) :- LongDivision(value, den, power);
    if remainder >= den - remainder then CheckedI256(quotient + 1) else Some(quotient)
  }

  lemma QuotientRoundsAt(quotient: int, remainder: int, den: int, rounded: int)
    requires 0 <= remainder < den
    requires rounded == if remainder >= den - remainder then quotient + 1 else quotient
    ensures IsRoundedQuotient(rounded, quotient * den + remainder, den)
  {
    assert (2 * quotient + 1) * den == 2 * (quotient * den) + den;
    assert (2 * quotient - 1) * den == 2 * (quotient * den) - den;
    assert (2 * (quotient + 1) + 1) * den == 2 * (quotient * den) + 3 * den;
  }

  /**
   `RoundedDiv` answers the rounded quotient and nothing else, and it refuses exactly when
   the long division leaves `i256` or the rounded answer does.
   */
  lemma RoundedDivExact(value: int, den: int, power: nat, result: int)
    requires 0 <= value && 0 < den <= I256_MAX
    ensures RoundedDiv(value, den, power) == Some(result)
            <==> LongDivisionFits(value, den, power) && result <= I256_MAX
                 && IsRoundedQuotient(result, Scaled(value, power), den)
  {
    if LongDivisionFits(value, den, power) {
      var (quotient, remainder) := LongDivision(value, den, power).value;
      var rounded := if remainder >= den - remainder then quotient + 1 else quotient;
      QuotientRoundsAt(quotient, remainder, den, rounded);
      if IsRoundedQuotient(result, Scaled(value, power), den) {
        RoundedQuotientUnique(result, rounded, Scaled(value, power), den);
      }
    }
  }

  function RoundedSqrt(value: int, den: int, power: nat): Option<int>
    requires 0 <= value && 0 < den
  {
    var (quotient, remainder) :- LongDivision(value, den, power);
    var root := FloorRoot(quotient);
    var square :- CheckedI256(root * root);
    var aboveSquare :- CheckedI256(quotient - square);
    var excess :- CheckedI256(aboveSquare - root);
    var scaledExcess :- CheckedI256(den * excess);
    var half :- CheckedI256(scaledExcess + remainder);
    var roundUp := match CheckedI256(half * 4)
      case Some(quadrupled) => quadrupled >= den
      case None => !(half < 0);
    if roundUp then CheckedI256(root + 1) else Some(root)
  }

  /** Where `RoundedSqrt` gives up, past the long division: the rounding comparison overflows. */
  predicate RootComparisonFits(value: int, den: int, power: nat)
    requires 0 <= value && 0 < den
    requires LongDivisionFits(value, den, power)
  {
    var (quotient, remainder) := LongDivision(value, den, power).value;
    var root := FloorRoot(quotient);
    IsI256(den * (quotient - root * root - root)) && IsI256(den * (quotient - root * root - root) + remainder)
  }

  /** The rounding test, in the terms the code compares: `half` decides against `root + 1/2`. */
  lemma RootRoundsAt(quotient: int, remainder: int, den: int, root: int, half: int)
    requires 0 < den && 0 <= quotient && 0 <= remainder < den
    requires IsFloorRoot(root, quotient)
    requires half == den * (quotient - root * root - root) + remainder
    ensures 4 * half >= den ==> IsRoundedRoot(root + 1, quotient * den + remainder, den)
    ensures 4 * half < den ==> IsRoundedRoot(root, quotient * den + remainder, den)
  {
    var n := quotient * den + remainder;
    var mid := (2 * root + 1) * (2 * root + 1);
    assert mid == 4 * (root * root + root) + 1;
    assert mid * den == 4 * ((root * root + root) * den) + den;
    assert half == n - (root * root + root) * den by {
      assert den * (quotient - (root * root + root)) == quotient * den - (root * root + root) * den;
    }
    assert 4 * half >= den <==> mid * den <= 4 * n;
    RootBelowNext(quotient, remainder, den, root);
    RootAboveLast(quotient, remainder, den, root);
  }

  lemma RootBelowNext(quotient: int, remainder: int, den: int, root: int)
    requires 0 < den && 0 <= quotient && 0 <= remainder < den && IsFloorRoot(root, quotient)
    ensures 4 * (quotient * den + remainder) < (2 * (root + 1) + 1) * (2 * (root + 1) + 1) * den
  {
    var r1 := (root + 1) * (root + 1);
    MulMonotonic(quotient + 1, r1, den);
    assert (quotient + 1) * den == quotient * den + den;
    var top := (2 * (root + 1) + 1) * (2 * (root + 1) + 1);
    assert 4 * r1 <= top;
    MulMonotonic(4 * r1, top, den);
    MulAssociates(4, r1, den);
  }

  lemma RootAboveLast(quotient: int, remainder: int, den: int, root: int)
    requires 0 < den && 0 <= quotient && 0 <= remainder < den && IsFloorRoot(root, quotient)
    ensures 1 <= root ==> (2 * root - 1) * (2 * root - 1) * den <= 4 * (quotient * den + remainder)
  {
    if 1 <= root {
      var low := (2 * root - 1) * (2 * root - 1);
      assert low <= 4 * (root * root);
      MulMonotonic(low, 4 * quotient, den);
      MulAssociates(4, quotient, den);
    }
  }

  /** The excess over the root stays in range, so only the product with `den` can overflow. */
  lemma RootPartsFit(quotient: int, root: int)
    requires 0 <= quotient <= I256_MAX && IsFloorRoot(root, quotient)
    ensures IsI256(root * root) && IsI256(quotient - root * root)
    ensures IsI256(quotient - root * root - root) && root + 1 <= I256_MAX
  {
    assert (root + 1) * (root + 1) == root * root + 2 * root + 1;
    if 2 <= root {
      MulMonotonic(2, root, root);
    }
  }

  lemma RoundedSqrtAnswers(value: int, den: int, power: nat)
    requires 0 <= value && 0 < den
    requires LongDivisionFits(value, den, power) && RootComparisonFits(value, den, power)
    ensures RoundedSqrt(value, den, power).Some?
  {
    var (quotient, _) := LongDivision(value, den, power).value;
    RootPartsFit(quotient, FloorRoot(quotient));
  }

  /**
   `RoundedSqrt` answers the root of `value * 10^power / den` rounded half up and nothing
   else, through the branch where quadrupling overflows too, and it refuses exactly when the
   long division or the product in the rounding comparison leaves `i256`.
   */
  lemma RoundedSqrtExact(value: int, den: int, power: nat, result: int)
    requires 0 <= value && 0 < den <= I256_MAX
    ensures RoundedSqrt(value, den, power) == Some(result)
            <==> LongDivisionFits(value, den, power) && RootComparisonFits(value, den, power)
                 && IsRoundedRoot(result, Scaled(value, power), den)
  {
    if LongDivisionFits(value, den, power) && RootComparisonFits(value, den, power) {
      var (quotient, remainder) := LongDivision(value, den, power).value;
      var root := FloorRoot(quotient);
      var half := den * (quotient - root * root - root) + remainder;
      RootPartsFit(quotient, root);
      RootRoundsAt(quotient, remainder, den, root, half);
      var rounded := if 4 * half >= den then root + 1 else root;
      assert RoundedSqrt(value, den, power) == Some(rounded);
      if IsRoundedRoot(result, Scaled(value, power), den) {
        RoundedRootUnique(result, rounded, Scaled(value, power), den);
      }
    } else if LongDivisionFits(value, den, power) {
      var (quotient, _) := LongDivision(value, den, power).value;
      RootPartsFit(quotient, FloorRoot(quotient));
    }
  }
}
