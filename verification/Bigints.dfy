/**
 The statistics of a `bigint` column. No run over such a column is refused while its row counts
 fit, and its standard deviation always has an answer: every intermediate stays inside `i256`
 and the result under the ceiling.
 */
module Bigints {
  import opened Numeric
  import opened PowerSums
  import opened Rounding
  import opened Runs
  import opened Statistics
  import opened Meaning
  import opened Sharding

  /** `2^63`, the largest magnitude of a `bigint`. */
  const BOUND: int := I64_MAX + 1

  /** `2^126`. */
  const SQUARE_BOUND: int := BOUND * BOUND

  /** `10^32`, what a deviation is scaled by under the root. */
  const ROOT_SCALE: int := 100_000_000_000_000_000_000_000_000_000_000

  // ----- runs

  lemma {:induction false} BigintsAreI128(run: Run)
    requires Legal(run, I64_MAX)
    ensures Legal(run, I128_MAX)
  {
    match run
    case Start =>
    case Add(before, _) => BigintsAreI128(before);
    case Retract(before, _) => BigintsAreI128(before);
    case Merge(before, shard) =>
      BigintsAreI128(before);
      BigintsAreI128(shard);
  }

  lemma SquareBounded(u: int)
    requires IsI64(u)
    ensures u * u <= SQUARE_BOUND
  {
    MulBothMonotonic(Abs(u), Abs(u), BOUND, BOUND);
  }

  lemma {:induction false} SquaresBounded(bag: multiset<int>)
    requires forall u <- bag :: IsI64(u)
    ensures BagSum(bag, 2) <= |bag| * SQUARE_BOUND
    decreases |bag|
  {
    if |bag| == 0 {
    } else {
      var u := Pick(bag);
      var rest := bag - multiset{u};
      BagSumRemove(bag, u, 2);
      SquaresBounded(rest);
      SquareBounded(u);
      MulOneMore(|rest|, SQUARE_BOUND);
    }
  }

  lemma CountedIsLight(bag: multiset<int>)
    requires |bag| <= U64_MAX && forall u <- bag :: IsI64(u)
    ensures Light(bag)
  {
    SquaresBounded(bag);
    MulMonotonic(|bag|, U64_MAX, SQUARE_BOUND);
  }

  /** No group the run passes through has more rows than a count can hold. */
  ghost predicate CountsFit(run: Run) {
    match run
    case Start => true
    case Add(before, _) => CountsFit(before) && |Frame(run)| <= U64_MAX
    case Retract(before, _) => CountsFit(before)
    case Merge(before, shard) => CountsFit(before) && CountsFit(shard) && |Frame(run)| <= U64_MAX
  }

  lemma {:induction false} CountsAreEnough(run: Run)
    requires Legal(run, I64_MAX)
    ensures RunFits(run) <==> CountsFit(run)
    ensures CountsFit(run) ==> |Frame(run)| <= U64_MAX
  {
    FrameInRange(run, I64_MAX);
    if |Frame(run)| <= U64_MAX {
      CountedIsLight(Frame(run));
    }
    match run
    case Start =>
    case Add(before, _) => CountsAreEnough(before);
    case Retract(before, _) => CountsAreEnough(before);
    case Merge(before, shard) =>
      CountsAreEnough(before);
      CountsAreEnough(shard);
      if |Frame(shard)| <= U64_MAX {
        FrameInRange(shard, I64_MAX);
        CountedIsLight(Frame(shard));
        LightPartFits(Frame(shard), Frame(shard));
      }
  }

  /** Over a `bigint` column nothing but the row count can refuse a run, whatever the shards. */
  lemma BigintRunAccepted(run: Run)
    requires Legal(run, I64_MAX)
    ensures Exec(run).Some? <==> CountsFit(run)
    ensures CountsFit(run) ==> Exec(run) == Some(TallyOf(Frame(run)))
  {
    BigintsAreI128(run);
    RunTotals(run);
    CountsAreEnough(run);
  }

  // ----- the numbers of one group

  /** The two products the numerator is made of, for `n` rows. */
  lemma ProductsBounded(n: int, sum: int, squares: int)
    requires 1 <= n && Abs(sum) <= n * BOUND && 0 <= squares <= n * SQUARE_BOUND
    ensures 0 <= n * squares <= (n * n) * SQUARE_BOUND && 0 <= sum * sum <= (n * n) * SQUARE_BOUND
  {
    MulBothMonotonic(0, 0, n, squares);
    MulMonotonic(squares, n * SQUARE_BOUND, n);
    MulAssociates(n, n, SQUARE_BOUND);
    MulBothMonotonic(Abs(sum), Abs(sum), n * BOUND, n * BOUND);
    assert (n * BOUND) * (n * BOUND) == (n * n) * SQUARE_BOUND;
  }

  /** Half the square of the row count is at most either denominator. */
  lemma DenominatorBounded(kind: Statistic, n: int)
    requires RowsNeeded(kind) <= n <= U64_MAX
    ensures n * n <= 2 * IntDenominator(kind, n)
    ensures 0 < IntDenominator(kind, n) <= U64_MAX * U64_MAX
  {
    MulBothMonotonic(n, n, U64_MAX, U64_MAX);
    MulBothMonotonic(n, n - 1, U64_MAX, U64_MAX);
    if Divisor(kind, n) == n - 1 {
      MulMonotonic(2, n, n);
    }
  }

  lemma RootScale()
    ensures Pow10(32) == ROOT_SCALE
  {
    assert Pow10(4) == 10_000;
    Pow10Doubles(4, 8, 10_000);
    Pow10Doubles(8, 16, 100_000_000);
    Pow10Doubles(16, 32, RESULT_MULTIPLIER);
  }

  /** A ratio of at most `2^127` divides without leaving the range. */
  lemma DivisionStays(numerator: int, den: int, power: nat)
    requires 0 <= numerator <= den * (2 * SQUARE_BOUND) && 0 < den <= U64_MAX * U64_MAX
    requires Pow10(power) == ROOT_SCALE
    ensures LongDivisionFits(numerator, den, power)
    ensures Scaled(numerator, power) <= den * (2 * SQUARE_BOUND * ROOT_SCALE)
    ensures 0 <= Scaled(numerator, power) / den <= 2 * SQUARE_BOUND * ROOT_SCALE
  {
    MulMonotonic(numerator, den * (2 * SQUARE_BOUND), ROOT_SCALE);
    MulAssociates(den, 2 * SQUARE_BOUND, ROOT_SCALE);
    var scaled, most := Scaled(numerator, power), den * (2 * SQUARE_BOUND * ROOT_SCALE);
    DivMonotonic(scaled, most, den);
    DivModUnique(most, den, 2 * SQUARE_BOUND * ROOT_SCALE, 0);
    DivMonotonic(0, scaled, den);
    DivModUnique(0, den, 0, 0);
    forall j | 0 <= j < power
      ensures 10 * (Scaled(numerator, j) % den) <= I256_MAX
    {
      DivMod(Scaled(numerator, j), den);
    }
  }

  /** `2^64 * 10^16`, above every root taken. */
  const ROOT_BOUND: int := 2 * BOUND * RESULT_MULTIPLIER

  lemma RootBounded(root: int, quotient: int)
    requires IsFloorRoot(root, quotient) && quotient <= 2 * SQUARE_BOUND * ROOT_SCALE
    ensures root < ROOT_BOUND
  {
    if ROOT_BOUND <= root {
      MulBothMonotonic(ROOT_BOUND, ROOT_BOUND, root, root);
    }
  }

  lemma ComparisonStays(den: int, root: int, quotient: int, remainder: int)
    requires 0 < den <= U64_MAX * U64_MAX && 0 <= remainder < den
    requires IsFloorRoot(root, quotient) && root < ROOT_BOUND
    ensures IsI256(den * (quotient - root * root - root))
    ensures IsI256(den * (quotient - root * root - root) + remainder)
  {
    var excess := quotient - root * root - root;
    assert (root + 1) * (root + 1) == root * root + 2 * root + 1;
    MulBothMonotonic(den, Abs(excess), U64_MAX * U64_MAX, ROOT_BOUND);
    assert den * excess == if excess < 0 then -(den * Abs(excess)) else den * Abs(excess);
  }

  lemma RootStays(numerator: int, den: int, power: nat)
    requires 0 <= numerator <= den * (2 * SQUARE_BOUND) && 0 < den <= U64_MAX * U64_MAX
    requires Pow10(power) == ROOT_SCALE
    ensures LongDivisionFits(numerator, den, power) && RootComparisonFits(numerator, den, power)
  {
    DivisionStays(numerator, den, power);
    var (quotient, remainder) := LongDivision(numerator, den, power).value;
    RootBounded(FloorRoot(quotient), quotient);
    ComparisonStays(den, FloorRoot(quotient), quotient, remainder);
  }

  /** The rounded root of a ratio of at most `2^127` at sixteen places is under the ceiling. */
  lemma RoundedRootBounded(result: int, scaled: int, den: int)
    requires 0 < den && scaled <= den * (2 * SQUARE_BOUND * ROOT_SCALE)
    requires IsRoundedRoot(result, scaled, den)
    ensures result <= ROOT_BOUND < DECIMAL128_CEILING
  {
    if ROOT_BOUND < result {
      var low := 2 * ROOT_BOUND + 1;
      MulBothMonotonic(low, low, 2 * result - 1, 2 * result - 1);
      MulMonotonic(low * low, (2 * result - 1) * (2 * result - 1), den);
      MulStrictlyMonotonic(4 * (2 * SQUARE_BOUND * ROOT_SCALE), low * low, den);
    }
  }

  // ----- the deviation of a bigint column

  lemma {:induction false} GroupBounds(us: seq<int>)
    requires us != [] && forall u <- us :: IsI64(u)
    ensures Abs(PowerSum(us, 1)) <= |us| * BOUND && 0 <= PowerSum(us, 2) <= |us| * SQUARE_BOUND
  {
    var bag := multiset(us);
    assert |bag| == |us|;
    ListingSum(us, 1);
    ListingSum(us, 2);
    assert forall u <- bag :: u in us;
    SumBounded(bag, BOUND);
    SquaresBounded(bag);
    BagSquaresNonNegative(bag);
  }

  lemma {:induction false} IntermediatesOfBigints(kind: Statistic, us: seq<int>)
    requires (kind.StddevSamp? || kind.StddevPop?) && RowsNeeded(kind) <= |us| <= U64_MAX && forall u <- us :: IsI64(u)
    ensures 0 <= Deviations(us) <= IntDenominator(kind, |us|) * (2 * SQUARE_BOUND)
    ensures IntermediatesFit(kind, us, 0)
  {
    var n, den := |us|, IntDenominator(kind, |us|);
    GroupBounds(us);
    ProductsBounded(n, PowerSum(us, 1), PowerSum(us, 2));
    CauchySchwarz(us);
    DenominatorBounded(kind, n);
    NumeratorBounded(n, den, PowerSum(us, 1) * PowerSum(us, 1), n * PowerSum(us, 2));
    RootScale();
    RootStays(Deviations(us), den, 32);
  }

  lemma NumeratorBounded(n: int, den: int, squaredSum: int, scaledSquares: int)
    requires 1 <= n <= U64_MAX && n * n <= 2 * den
    requires 0 <= squaredSum <= (n * n) * SQUARE_BOUND && 0 <= scaledSquares <= (n * n) * SQUARE_BOUND
    ensures scaledSquares - squaredSum <= den * (2 * SQUARE_BOUND)
    ensures IsI256(squaredSum) && IsI256(scaledSquares)
  {
    MulBothMonotonic(n, n, U64_MAX, U64_MAX);
    MulMonotonic(n * n, U64_MAX * U64_MAX, SQUARE_BOUND);
    MulMonotonic(n * n, 2 * den, SQUARE_BOUND);
    assert (2 * den) * SQUARE_BOUND == den * (2 * SQUARE_BOUND);
  }

  /** What the answer is read from, once every intermediate is known to fit. */
  lemma {:induction false} RootOfBigints(kind: Statistic, us: seq<int>) returns (result: int)
    requires (kind.StddevSamp? || kind.StddevPop?) && RowsNeeded(kind) <= |us| <= U64_MAX && forall u <- us :: IsI64(u)
    ensures IntermediatesFit(kind, us, 0) && IsTrueStatistic(kind, us, 0, result) && result <= ROOT_BOUND
  {
    var den, numerator := IntDenominator(kind, |us|), Deviations(us);
    IntermediatesOfBigints(kind, us);
    DenominatorBounded(kind, |us|);
    RootScale();
    RoundedSqrtAnswers(numerator, den, 32);
    result := RoundedSqrt(numerator, den, 32).value;
    RoundedSqrtExact(numerator, den, 32, result);
    DivisionStays(numerator, den, 32);
    RoundedRootBounded(result, Scaled(numerator, 32), den);
    OfRatioExact(kind, us, 0, 32, den, result);
  }

  /** Every deviation of a group of `bigint`s is answered, correctly rounded, and under `2^64 * 10^16`. */
  lemma {:induction false} DeviationAlwaysAnswers(kind: Statistic, us: seq<int>)
    requires (kind.StddevSamp? || kind.StddevPop?) && RowsNeeded(kind) <= |us| <= U64_MAX && forall u <- us :: IsI64(u)
    ensures var outcome := ExactStatistic(kind, Tally(|us|, PowerSum(us, 1), PowerSum(us, 2)), 0);
            && outcome.Answer? && outcome.value.Some?
            && IsTrueStatistic(kind, us, 0, outcome.value.value) && outcome.value.value <= ROOT_BOUND
  {
    var result := RootOfBigints(kind, us);
    StatisticExact(kind, us, 0, result);
  }

  /** End to end: over any shards, a `bigint` deviation is refused only when a row count is. */
  lemma {:induction false} RunDeviationAnswers(run: Run, kind: Statistic, us: seq<int>)
    requires Legal(run, I64_MAX) && CountsFit(run) && multiset(us) == Frame(run)
    requires (kind.StddevSamp? || kind.StddevPop?) && RowsNeeded(kind) <= |us|
    ensures Exec(run).Some?
    ensures var outcome := ExactStatistic(kind, Exec(run).value, 0);
            && outcome.Answer? && outcome.value.Some?
            && IsTrueStatistic(kind, us, 0, outcome.value.value) && outcome.value.value <= ROOT_BOUND
  {
    BigintRunAccepted(run);
    CountsAreEnough(run);
    FrameInRange(run, I64_MAX);
    ListingTally(us);
    assert |us| == |multiset(us)|;
    forall u <- us
      ensures IsI64(u)
    {
      assert u in multiset(us);
    }
    DeviationAlwaysAnswers(kind, us);
  }
}
