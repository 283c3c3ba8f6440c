/**
 What an exact statistic answers. The variance is defined from the mean: every deviation
 `u - (sum u)/n` is measured in units of `1/n`, so the squared deviations are integers and the
 variance is a ratio of integers. The theorem ties the answer computed from the three totals
 to that ratio, rounded half up, and says exactly when it is refused instead.
 */
module Meaning {
  import opened Numeric
  import opened PowerSums
  import opened Rounding
  import opened Runs
  import opened Statistics

  // ----- the variance, from the mean

  /** The squared deviations of `us` from `b/a`, in units of `1/a`. */
  function Residuals(us: seq<int>, a: int, b: int): seq<int> {
    seq(|us|, i requires 0 <= i < |us| => (a * us[i] - b) * (a * us[i] - b))
  }

  /** The squared deviations from the mean, added up, in units of `1/n`. */
  function SquaredDeviations(us: seq<int>): int {
    PowerSum(Residuals(us, |us|, PowerSum(us, 1)), 1)
  }

  /** The rows a statistic needs before it is anything but NULL. */
  function RowsNeeded(kind: Statistic): int {
    match kind
    case VarSamp => 2
    case VarPop => 1
    case StddevSamp => 2
    case StddevPop => 1
  }

  /** What the squared deviations of `n` rows are divided by. */
  function Divisor(kind: Statistic, n: int): int {
    match kind
    case VarSamp => n - 1
    case VarPop => n
    case StddevSamp => n - 1
    case StddevPop => n
  }

  /** Sixteen decimal places of the answer; under a root they count twice. */
  function Places(kind: Statistic): int {
    match kind
    case VarSamp => RESULT_MULTIPLIER
    case VarPop => RESULT_MULTIPLIER
    case StddevSamp => RESULT_MULTIPLIER * RESULT_MULTIPLIER
    case StddevPop => RESULT_MULTIPLIER * RESULT_MULTIPLIER
  }

  /** The divisor in the unit of the squared deviations, `(n * 10^s)^2`. */
  function VarianceDenominator(kind: Statistic, n: int, s: nat): int {
    Divisor(kind, n) * ((n * Pow10(s)) * (n * Pow10(s)))
  }

  /**
   `unscaled` is the statistic of the decimals `u / 10^s` times `10^16`, rounded half up: the
   quotient for a variance, its root for a deviation.
   */
  predicate IsTrueStatistic(kind: Statistic, us: seq<int>, s: nat, unscaled: int) {
    var numerator := SquaredDeviations(us) * Places(kind);
    var denominator := VarianceDenominator(kind, |us|, s);
    match kind
    case VarSamp => IsRoundedQuotient(unscaled, numerator, denominator)
    case VarPop => IsRoundedQuotient(unscaled, numerator, denominator)
    case StddevSamp => IsRoundedRoot(unscaled, numerator, denominator)
    case StddevPop => IsRoundedRoot(unscaled, numerator, denominator)
  }

  lemma Pow10Doubles(k: nat, twice: nat, value: int)
    requires Pow10(k) == value && twice == k + k
    ensures Pow10(twice) == value * value
  {
    Pow10Adds(k, k);
  }

  /** The power the code scales by is the sixteen places of the answer. */
  lemma PlacesAre(kind: Statistic)
    ensures Pow10(kind.ScalePower()) == Places(kind)
  {
    assert Pow10(4) == 10_000;
    Pow10Doubles(4, 8, 10_000);
    Pow10Doubles(8, 16, 100_000_000);
    Pow10Doubles(16, 32, RESULT_MULTIPLIER);
  }

  lemma {:induction false} ResidualSum(us: seq<int>, a: int, b: int)
    ensures PowerSum(Residuals(us, a, b), 1)
            == (a * a) * PowerSum(us, 2) - 2 * ((a * b) * PowerSum(us, 1)) + |us| * (b * b)
  {
    if us == [] {
    } else {
      var init, u := us[..|us| - 1], us[|us| - 1];
      var all := Residuals(us, a, b);
      assert all[..|all| - 1] == Residuals(init, a, b);
      ResidualSum(init, a, b);
      ResidualTerm(a, b, u, PowerSum(init, 1), PowerSum(init, 2), |init|);
    }
  }

  lemma ResidualTerm(a: int, b: int, u: int, s: int, q: int, n: int)
    ensures (a * u - b) * (a * u - b)
            == (a * a) * (q + u * u) - (a * a) * q - 2 * ((a * b) * (s + u)) + 2 * ((a * b) * s)
               + (n + 1) * (b * b) - n * (b * b)
  {
    assert (a * a) * (q + u * u) == (a * a) * q + (a * u) * (a * u);
    assert (a * b) * (s + u) == (a * b) * s + (a * u) * b;
    assert (a * u - b) * (a * u - b) == (a * u) * (a * u) - 2 * ((a * u) * b) + b * b;
  }

  /** With the mean's own numerator and denominator, the residuals are `n` times `Deviations`. */
  lemma {:induction false} ResidualsAreDeviations(us: seq<int>)
    ensures SquaredDeviations(us) == |us| * Deviations(us)
  {
    var n, s, q := |us|, PowerSum(us, 1), PowerSum(us, 2);
    ResidualSum(us, n, s);
    MeanEliminated(n, s, q);
  }

  lemma MeanEliminated(n: int, s: int, q: int)
    ensures (n * n) * q - 2 * ((n * s) * s) + n * (s * s) == n * (n * q - s * s)
  {
  }

  // ----- the ratio the code divides is that ratio

  /** The integer denominator, `n(n-1)` or `n^2`. */
  function IntDenominator(kind: Statistic, n: int): int {
    n * Divisor(kind, n)
  }

  /** Folding the input scale into one side of the division keeps the ratio. */
  lemma {:induction false} FoldKeepsRatio(denominator: int, s: nat, target: nat, power: nat, folded: int)
    requires FoldInputScale(denominator, s, target) == Some((power, folded))
    ensures folded * Pow10(target) == denominator * Pow10(2 * s) * Pow10(power)
  {
    if target >= 2 * s {
      Pow10Adds(2 * s, power);
      MulAssociates(denominator, Pow10(2 * s), Pow10(power));
    } else {
      Pow10Adds(2 * s - target, target);
      MulAssociates(denominator, Pow10(2 * s - target), Pow10(target));
    }
  }

  lemma DenominatorFactors(kind: Statistic, n: int, s: nat)
    ensures VarianceDenominator(kind, n, s) == n * (IntDenominator(kind, n) * Pow10(2 * s))
  {
    Pow10Adds(s, s);
    FactorsRegroup(Divisor(kind, n), n, Pow10(s), Pow10(2 * s));
  }

  lemma FactorsRegroup(k: int, n: int, c: int, c2: int)
    requires c2 == c * c
    ensures k * ((n * c) * (n * c)) == n * ((n * k) * c2)
  {
    assert (n * c) * (n * c) == n * (n * c2);
    assert k * (n * (n * c2)) == n * ((n * k) * c2);
  }

  /** The two fractions are equal, cross-multiplied. */
  lemma {:induction false} RatiosAgree(kind: Statistic, us: seq<int>, s: nat, power: nat, folded: int)
    requires FoldInputScale(IntDenominator(kind, |us|), s, kind.ScalePower()) == Some((power, folded))
    ensures SquaredDeviations(us) * Places(kind) * folded
            == Scaled(Deviations(us), power) * VarianceDenominator(kind, |us|, s)
  {
    var d := IntDenominator(kind, |us|);
    ResidualsAreDeviations(us);
    FoldKeepsRatio(d, s, kind.ScalePower(), power, folded);
    DenominatorFactors(kind, |us|, s);
    PlacesAre(kind);
    CrossMultiply(|us|, Deviations(us), Places(kind), folded, d * Pow10(2 * s), Pow10(power));
  }

  lemma CrossMultiply(n: int, dev: int, t: int, folded: int, d: int, p: int)
    requires folded * t == d * p
    ensures n * dev * t * folded == dev * p * (n * d)
  {
    assert n * dev * t * folded == n * dev * (folded * t);
    assert dev * p * (n * d) == n * dev * (d * p);
  }

  // ----- rounding depends on the fraction only

  lemma CompareScaled(x: int, k: int, d: int, e: int)
    requires 0 < e
    ensures x < k * d <==> x * e < k * (d * e)
  {
    MulAssociates(k, d, e);
    if x < k * d {
      MulStrictlyMonotonic(x, k * d, e);
    } else {
      MulMonotonic(k * d, x, e);
    }
  }

  lemma RoundedQuotientScales(r: int, a: int, d: int, e: int)
    requires 0 < e
    ensures IsRoundedQuotient(r, a, d) <==> IsRoundedQuotient(r, a * e, d * e)
  {
    MulAssociates(2, a, e);
    CompareScaled(2 * a, 2 * r - 1, d, e);
    CompareScaled(2 * a, 2 * r + 1, d, e);
  }

  lemma RoundedRootScales(r: int, a: int, d: int, e: int)
    requires 0 < e
    ensures IsRoundedRoot(r, a, d) <==> IsRoundedRoot(r, a * e, d * e)
  {
    MulAssociates(4, a, e);
    CompareScaled(4 * a, (2 * r - 1) * (2 * r - 1), d, e);
    CompareScaled(4 * a, (2 * r + 1) * (2 * r + 1), d, e);
  }

  /** Equal fractions round alike. */
  lemma RoundingOfEqualRatios(r: int, a: int, d: int, a': int, d': int)
    requires 0 < d && 0 < d' && a * d' == a' * d
    ensures IsRoundedQuotient(r, a, d) <==> IsRoundedQuotient(r, a', d')
    ensures IsRoundedRoot(r, a, d) <==> IsRoundedRoot(r, a', d')
  {
    assert d * d' == d' * d;
    RoundedQuotientScales(r, a, d, d');
    RoundedQuotientScales(r, a', d', d);
    RoundedRootScales(r, a, d, d');
    RoundedRootScales(r, a', d', d);
  }

  // ----- the end-to-end theorem

  /** Every checked intermediate of the computation, stated on the mathematical values. */
  predicate IntermediatesFit(kind: Statistic, us: seq<int>, inputScale: int) {
    var n := |us|;
    && IsI256(PowerSum(us, 1) * PowerSum(us, 1))
    && IsI256(n * PowerSum(us, 2))
    && var fold := FoldInputScale(IntDenominator(kind, n), inputScale, kind.ScalePower());
       && fold.Some?
       && DivisionFits(kind, Deviations(us), fold.value.1, fold.value.0)
  }

  predicate DivisionFits(kind: Statistic, numerator: int, den: int, power: nat) {
    && 0 <= numerator
    && 0 < den
    && LongDivisionFits(numerator, den, power)
    && (kind.StddevSamp? || kind.StddevPop? ==> RootComparisonFits(numerator, den, power))
  }

  /** The clamp at zero never changes the numerator, and the subtraction never overflows. */
  lemma ClampIsIdle(us: seq<int>)
    ensures SumOfSquaredDeviations(Tally(|us|, PowerSum(us, 1), PowerSum(us, 2)), |us|)
            == if IsI256(PowerSum(us, 1) * PowerSum(us, 1)) && IsI256(|us| * PowerSum(us, 2))
               then Some(Deviations(us)) else None
  {
    CauchySchwarz(us);
    SquareZero(PowerSum(us, 1));
  }

  lemma VarianceDenominatorPositive(kind: Statistic, n: int, s: nat)
    requires RowsNeeded(kind) <= n
    ensures 0 < VarianceDenominator(kind, n, s)
  {
    var unit := n * Pow10(s);
    MulBothMonotonic(1, 1, n, Pow10(s));
    MulBothMonotonic(1, 1, unit, unit);
    MulBothMonotonic(1, 1, Divisor(kind, n), unit * unit);
  }

  /** The rounded ratio of the code is the rounded statistic. */
  lemma {:induction false} OfRatioExact(kind: Statistic, us: seq<int>, s: nat, power: nat, folded: int, result: int)
    requires RowsNeeded(kind) <= |us| && 0 < folded <= I256_MAX
    requires FoldInputScale(IntDenominator(kind, |us|), s, kind.ScalePower()) == Some((power, folded))
    requires 0 <= Deviations(us) && result <= I256_MAX
    ensures kind.OfRatio(Deviations(us), folded, power) == Some(result)
            <==> DivisionFits(kind, Deviations(us), folded, power) && IsTrueStatistic(kind, us, s, result)
  {
    var numerator := SquaredDeviations(us) * Places(kind);
    RatiosAgree(kind, us, s, power, folded);
    VarianceDenominatorPositive(kind, |us|, s);
    RoundingOfEqualRatios(result, numerator, VarianceDenominator(kind, |us|, s), Scaled(Deviations(us), power), folded);
    RoundedSqrtExact(Deviations(us), folded, power, result);
    RoundedDivExact(Deviations(us), folded, power, result);
  }

  lemma DenominatorFits(kind: Statistic, n: int)
    requires 1 <= n <= U64_MAX
    ensures kind.Denominator(n) == Some(IntDenominator(kind, n))
  {
    MulBothMonotonic(n, n, U64_MAX, U64_MAX);
    MulBothMonotonic(n, n - 1, U64_MAX, U64_MAX);
  }

  lemma RoundedIsNotNegative(r: int, numerator: int, den: int)
    requires 0 <= numerator && 0 < den && IsRoundedQuotient(r, numerator, den)
    ensures 0 <= r
  {
    MulCancels(0, 2 * r + 1, den);
  }

  lemma {:induction false} StatisticNotNegative(kind: Statistic, us: seq<int>, s: nat, result: int)
    requires RowsNeeded(kind) <= |us| && IsTrueStatistic(kind, us, s, result)
    ensures 0 <= result
  {
    var numerator := SquaredDeviations(us) * Places(kind);
    CauchySchwarz(us);
    ResidualsAreDeviations(us);
    MulBothMonotonic(0, 0, |us|, Deviations(us));
    MulBothMonotonic(0, 0, SquaredDeviations(us), Places(kind));
    VarianceDenominatorPositive(kind, |us|, s);
    if kind.VarSamp? || kind.VarPop? {
      RoundedIsNotNegative(result, numerator, VarianceDenominator(kind, |us|, s));
    }
  }

  /** `Unscaled` follows the fold and the ratio, and nothing else. */
  lemma {:induction false} UnscaledExact(kind: Statistic, us: seq<int>, inputScale: int, result: int)
    requires RowsNeeded(kind) <= |us| <= U64_MAX && IsI128(result)
    ensures Unscaled(kind, Tally(|us|, PowerSum(us, 1), PowerSum(us, 2)), inputScale) == Some(result)
            <==> IntermediatesFit(kind, us, inputScale) && IsTrueStatistic(kind, us, inputScale, result)
  {
    CauchySchwarz(us);
    ClampIsIdle(us);
    DenominatorFits(kind, |us|);
    FoldedPositive(kind, |us|, inputScale);
    var fold := FoldInputScale(IntDenominator(kind, |us|), inputScale, kind.ScalePower());
    if fold.Some? {
      OfRatioExact(kind, us, inputScale, fold.value.0, fold.value.1, result);
    }
  }

  /**
   The answer over the totals of any group: NULL exactly below the minimum number of rows;
   otherwise a number exactly when every intermediate fits and the rounded statistic stays
   under `10^38`, and then that number is the rounded statistic.
   */
  lemma {:induction false} StatisticExact(kind: Statistic, us: seq<int>, inputScale: int, result: int)
    requires |us| <= U64_MAX
    ensures var outcome := ExactStatistic(kind, Tally(|us|, PowerSum(us, 1), PowerSum(us, 2)), inputScale);
            && (outcome == Answer(None) <==> |us| < RowsNeeded(kind))
            && (outcome == Answer(Some(result))
                <==> RowsNeeded(kind) <= |us| && IntermediatesFit(kind, us, inputScale)
                     && IsTrueStatistic(kind, us, inputScale, result) && result < DECIMAL128_CEILING)
  {
    if RowsNeeded(kind) <= |us| {
      if IsI128(result) {
        UnscaledExact(kind, us, inputScale, result);
      }
      if 0 <= inputScale && IsTrueStatistic(kind, us, inputScale, result) {
        StatisticNotNegative(kind, us, inputScale, result);
      }
    }
  }

  /**
   End to end: however the rows of a group were accumulated, retracted and merged across
   shards, the answer is the statistic of any listing of the values left in the frame.
   */
  lemma RunStatisticExact(run: Run, kind: Statistic, inputScale: int, us: seq<int>, result: int)
    requires Legal(run, I128_MAX) && multiset(us) == Frame(run)
    ensures Exec(run).Some? <==> RunFits(run)
    ensures RunFits(run)
            ==> var outcome := ExactStatistic(kind, Exec(run).value, inputScale);
                && (outcome == Answer(None) <==> |us| < RowsNeeded(kind))
                && (outcome == Answer(Some(result))
                    <==> RowsNeeded(kind) <= |us| && IntermediatesFit(kind, us, inputScale)
                         && IsTrueStatistic(kind, us, inputScale, result) && result < DECIMAL128_CEILING)
  {
    RunTotals(run);
    if RunFits(run) {
      ListingTally(us);
      StatisticExact(kind, us, inputScale, result);
    }
  }

  lemma {:induction false} ListingTally(us: seq<int>)
    ensures TallyOf(multiset(us)) == Tally(|us|, PowerSum(us, 1), PowerSum(us, 2))
  {
    assert |us| == |multiset(us)|;
    ListingSum(us, 1);
    ListingSum(us, 2);
  }

  /** A statistic is zero exactly when all the values are equal, whatever the scale. */
  lemma {:induction false} ZeroMeansAllEqual(us: seq<int>)
    ensures SquaredDeviations(us) == 0 <==> AllEqual(us)
  {
    CauchySchwarz(us);
    ResidualsAreDeviations(us);
    if us != [] && Deviations(us) != 0 {
      MulStrictlyMonotonic(0, |us|, Deviations(us));
    }
  }

  // ----- the same reference over the reals

  ghost function Total(xs: seq<real>): real {
    if xs == [] then 0.0 else Total(xs[..|xs| - 1]) + xs[|xs| - 1]
  }

  ghost function SquaresAround(xs: seq<real>, m: real): seq<real> {
    seq(|xs|, i requires 0 <= i < |xs| => (xs[i] - m) * (xs[i] - m))
  }

  lemma IntMulAsReal(x: int, y: int)
    ensures (x * y) as real == x as real * y as real
  {
  }

  lemma {:induction false} TotalScaled(zs: seq<real>, k: real, ws: seq<int>)
    requires |zs| == |ws|
    requires forall i :: 0 <= i < |zs| ==> zs[i] * k == ws[i] as real
    ensures Total(zs) * k == PowerSum(ws, 1) as real
  {
    if zs == [] {
    } else {
      TotalScaled(zs[..|zs| - 1], k, ws[..|ws| - 1]);
      Distributes(Total(zs[..|zs| - 1]), zs[|zs| - 1], k);
    }
  }

  lemma Distributes(x: real, y: real, k: real)
    ensures (x + y) * k == x * k + y * k
  {
  }

  lemma ResidualInUnits(x: real, m: real, unit: real, r: int)
    requires (x - m) * unit == r as real
    ensures (x - m) * (x - m) * (unit * unit) == (r * r) as real
  {
    assert (x - m) * (x - m) * (unit * unit) == ((x - m) * unit) * ((x - m) * unit);
    IntMulAsReal(r, r);
  }

  lemma {:induction false} EachResidual(us: seq<int>, xs: seq<real>, m: real, unit: real, unit2: real, sum: int)
    requires |xs| == |us| && unit2 == unit * unit && m * unit == sum as real
    requires forall i :: 0 <= i < |us| ==> xs[i] * unit == (|us| * us[i]) as real
    ensures forall i :: 0 <= i < |us| ==> SquaresAround(xs, m)[i] * unit2 == Residuals(us, |us|, sum)[i] as real
  {
    forall i | 0 <= i < |us|
      ensures SquaresAround(xs, m)[i] * unit2 == Residuals(us, |us|, sum)[i] as real
    {
      assert (xs[i] - m) * unit == xs[i] * unit - m * unit;
      ResidualInUnits(xs[i], m, unit, |us| * us[i] - sum);
    }
  }

  lemma {:induction false} ResidualTotal(us: seq<int>, xs: seq<real>, m: real, unit2: real, sum: int)
    requires |xs| == |us|
    requires forall i :: 0 <= i < |us| ==> SquaresAround(xs, m)[i] * unit2 == Residuals(us, |us|, sum)[i] as real
    ensures Total(SquaresAround(xs, m)) * unit2 == PowerSum(Residuals(us, |us|, sum), 1) as real
  {
    TotalScaled(SquaresAround(xs, m), unit2, Residuals(us, |us|, sum));
  }

  lemma {:induction false} SquaresInUnits(us: seq<int>, xs: seq<real>, m: real, unit: real, unit2: real)
    requires |xs| == |us| && unit2 == unit * unit && m * unit == PowerSum(us, 1) as real
    requires forall i :: 0 <= i < |us| ==> xs[i] * unit == (|us| * us[i]) as real
    ensures Total(SquaresAround(xs, m)) * unit2 == SquaredDeviations(us) as real
  {
    var sum := PowerSum(us, 1);
    EachResidual(us, xs, m, unit, unit2, sum);
    ResidualTotal(us, xs, m, unit2, sum);
  }

  lemma {:induction false} DecimalsInUnits(us: seq<int>, xs: seq<real>, m: real, c: real, unit: real)
    requires |xs| == |us| && unit == |us| as real * c
    requires forall i :: 0 <= i < |us| ==> xs[i] * c == us[i] as real
    requires m * |us| as real == Total(xs)
    ensures m * unit == PowerSum(us, 1) as real
    ensures forall i :: 0 <= i < |us| ==> xs[i] * unit == (|us| * us[i]) as real
  {
    TotalScaled(xs, c, us);
    Regroup(m, |us| as real, c, unit);
    forall i | 0 <= i < |us|
      ensures xs[i] * unit == (|us| * us[i]) as real
    {
      IntMulAsReal(|us|, us[i]);
      Regroup(xs[i], |us| as real, c, unit);
    }
  }

  lemma Regroup(x: real, n: real, c: real, unit: real)
    requires unit == n * c
    ensures x * unit == x * n * c == n * (x * c)
  {
  }

  /**
   `SquaredDeviations` is the textbook sum over the reals: for decimals `xs`, the `us` over
   `c`, and their mean `m`, the squared deviations add up to it in units of `1/(n * c)`.
   */
  lemma {:induction false} SquaredDeviationsOverReals(us: seq<int>, xs: seq<real>, m: real, c: real, unit: real, unit2: real)
    requires |xs| == |us| && unit == |us| as real * c && unit2 == unit * unit
    requires forall i :: 0 <= i < |us| ==> xs[i] * c == us[i] as real
    requires m * |us| as real == Total(xs)
    ensures Total(SquaresAround(xs, m)) * unit2 == SquaredDeviations(us) as real
  {
    DecimalsInUnits(us, xs, m, c, unit);
    SquaresInUnits(us, xs, m, unit, unit2);
  }
}
