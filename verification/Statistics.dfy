/**
 The exact variance and standard deviation: three totals, how they are accumulated, and the
 one decimal they are turned into at the end.
 */
module Statistics {
  import opened Numeric
  import opened PowerSums
  import opened Rounding
  import opened Runs

  /** `10^76`, the bound of the decimal a total crosses the wire as. */
  const WIRE_CEILING: int := 10_000_000_000_000_000_000_000_000_000_000_000_000_000_000_000_000_000_000_000_000_000_000_000_000_000

  /** The value of the running totals: `n`, `sum u` and `sum u^2`. */
  datatype Tally = Tally(count: int, sum: int, sumSquares: int)

  const EMPTY: Tally := Tally(0, 0, 0)

  function AddTo(t: Tally, value: int): Option<Tally> {
    var count :- CheckedU64(t.count + 1);
    var sum :- CheckedI256(t.sum + value);
    var square :- CheckedI256(value * value);
    var sumSquares :- CheckedI256(t.sumSquares + square);
    Some(Tally(count, sum, sumSquares))
  }

  function RemoveFrom(t: Tally, value: int): Option<Tally> {
    var count :- CheckedU64(t.count - 1);
    var sum :- CheckedI256(t.sum - value);
    var square :- CheckedI256(value * value);
    var sumSquares :- CheckedI256(t.sumSquares - square);
    Some(Tally(count, sum, sumSquares))
  }

  function Combine(t: Tally, other: Tally): Option<Tally> {
    var count :- CheckedU64(t.count + other.count);
    var sum :- CheckedI256(t.sum + other.sum);
    var sumSquares :- CheckedI256(t.sumSquares + other.sumSquares);
    Some(Tally(count, sum, sumSquares))
  }

  /** The state a shard sends, refused when a total is too wide for the wire's decimal. */
  function Ship(t: Tally): Option<Tally> {
    if Abs(t.sum) < WIRE_CEILING && Abs(t.sumSquares) < WIRE_CEILING then Some(t) else None
  }

  function Exec(run: Run): Option<Tally> {
    match run
    case Start => Some(EMPTY)
    case Add(before, value) =>
      var t :- Exec(before);
      AddTo(t, value)
    case Retract(before, value) =>
      var t :- Exec(before);
      RemoveFrom(t, value)
    case Merge(before, shard) =>
      var t :- Exec(before);
      var partial :- Exec(shard);
      var shipped :- Ship(partial);
      Combine(t, shipped)
  }

  ghost function TallyOf(bag: multiset<int>): Tally {
    Tally(|bag|, BagSum(bag, 1), BagSum(bag, 2))
  }

  /** The totals of a group fit their machine types; `sum u` always does when these two do. */
  ghost predicate TallyFits(bag: multiset<int>) {
    |bag| <= U64_MAX && BagSum(bag, 2) <= I256_MAX
  }

  /** Every group the run passes through fits, and every shipped one fits the wire. */
  ghost predicate RunFits(run: Run) {
    match run
    case Start => true
    case Add(before, _) => RunFits(before) && TallyFits(Frame(run))
    case Retract(before, _) => RunFits(before)
    case Merge(before, shard) =>
      RunFits(before) && RunFits(shard) && TallyFits(Frame(run)) && Ship(TallyOf(Frame(shard))).Some?
  }

  lemma {:induction false} SumFits(bag: multiset<int>)
    requires |bag| <= U64_MAX
    requires forall u <- bag :: IsI128(u)
    ensures IsI256(BagSum(bag, 1))
  {
    SumBounded(bag, I128_MAX + 1);
    MulMonotonic(|bag|, U64_MAX, I128_MAX + 1);
  }

  lemma SquareFits(value: int)
    requires IsI128(value)
    ensures 0 <= value * value && IsI256(value * value)
  {
    MulBothMonotonic(Abs(value), Abs(value), I128_MAX + 1, I128_MAX + 1);
  }

  lemma AddToExact(t: Tally, value: int)
    requires IsI128(value) && 0 <= t.count && 0 <= t.sumSquares
    requires t.count + 1 <= U64_MAX ==> IsI256(t.sum + value)
    ensures AddTo(t, value)
            == if t.count + 1 <= U64_MAX && t.sumSquares + value * value <= I256_MAX
               then Some(Tally(t.count + 1, t.sum + value, t.sumSquares + value * value)) else None
  {
    SquareFits(value);
  }

  lemma AddToBag(bag: multiset<int>, value: int)
    requires IsI128(value) && forall u <- bag :: IsI128(u)
    ensures var more := bag + multiset{value};
            AddTo(TallyOf(bag), value) == if TallyFits(more) then Some(TallyOf(more)) else None
  {
    var more := bag + multiset{value};
    BagSumAdd(bag, value, 1);
    BagSumAdd(bag, value, 2);
    BagSquaresNonNegative(bag);
    if |more| <= U64_MAX {
      SumFits(more);
    }
    AddToExact(TallyOf(bag), value);
  }

  lemma RemoveFromExact(t: Tally, value: int)
    requires IsI128(value) && 1 <= t.count <= U64_MAX && value * value <= t.sumSquares <= I256_MAX
    requires IsI256(t.sum - value)
    ensures RemoveFrom(t, value) == Some(Tally(t.count - 1, t.sum - value, t.sumSquares - value * value))
  {
    SquareFits(value);
  }

  lemma RemoveFromBag(bag: multiset<int>, value: int)
    requires value in bag && TallyFits(bag) && forall u <- bag :: IsI128(u)
    ensures RemoveFrom(TallyOf(bag), value) == Some(TallyOf(bag - multiset{value}))
    ensures TallyFits(bag - multiset{value})
  {
    var less := bag - multiset{value};
    SquareFits(value);
    BagSumRemove(bag, value, 1);
    BagSumRemove(bag, value, 2);
    BagSquaresNonNegative(less);
    SumFits(less);
    RemoveFromExact(TallyOf(bag), value);
  }

  lemma UnionTally(a: multiset<int>, b: multiset<int>)
    ensures var t, o := TallyOf(a), TallyOf(b);
            TallyOf(a + b) == Tally(t.count + o.count, t.sum + o.sum, t.sumSquares + o.sumSquares)
  {
    BagSumUnion(a, b, 1);
    BagSumUnion(a, b, 2);
    assert |a + b| == |a| + |b|;
  }

  /** What a bag's totals are checked for. */
  lemma TallyChecks(bag: multiset<int>)
    requires forall u <- bag :: IsI128(u)
    ensures 0 <= TallyOf(bag).count && 0 <= TallyOf(bag).sumSquares
    ensures TallyOf(bag).count <= U64_MAX ==> IsI256(TallyOf(bag).sum)
    ensures TallyFits(bag) <==> TallyOf(bag).count <= U64_MAX && TallyOf(bag).sumSquares <= I256_MAX
  {
    BagSquaresNonNegative(bag);
    if |bag| <= U64_MAX {
      SumFits(bag);
    }
  }

  lemma CombineBags(a: multiset<int>, b: multiset<int>)
    requires forall u <- a + b :: IsI128(u)
    ensures Combine(TallyOf(a), TallyOf(b)) == if TallyFits(a + b) then Some(TallyOf(a + b)) else None
  {
    UnionTally(a, b);
    TallyChecks(a + b);
    CombineExact(TallyOf(a), TallyOf(b), TallyOf(a + b));
  }

  lemma CombineExact(t: Tally, o: Tally, u: Tally)
    requires u == Tally(t.count + o.count, t.sum + o.sum, t.sumSquares + o.sumSquares)
    requires 0 <= u.count && 0 <= u.sumSquares && (u.count <= U64_MAX ==> IsI256(u.sum))
    ensures Combine(t, o) == if u.count <= U64_MAX && u.sumSquares <= I256_MAX then Some(u) else None
  {
  }

  /**
   Every legal run that is accepted ends with the totals of its frame, whatever the order of
   steps and the split into shards, and it is refused exactly when a group on the way outgrew
   its types or the wire. Whether it does can depend on the split: see `SplitShows`.
   */
  lemma {:induction false} RunTotals(run: Run)
    requires Legal(run, I128_MAX)
    ensures Exec(run) == if RunFits(run) then Some(TallyOf(Frame(run))) else None
    ensures RunFits(run) ==> TallyFits(Frame(run))
  {
    FrameInRange(run, I128_MAX);
    match run
    case Start =>
    case Add(before, value) =>
      RunTotals(before);
      FrameInRange(before, I128_MAX);
      AddToBag(Frame(before), value);
    case Retract(before, value) =>
      RunTotals(before);
      FrameInRange(before, I128_MAX);
      if RunFits(before) {
        RemoveFromBag(Frame(before), value);
      }
    case Merge(before, shard) =>
      RunTotals(before);
      RunTotals(shard);
      CombineBags(Frame(before), Frame(shard));
  }

  // ----- from totals to an answer

  datatype Statistic = VarSamp | VarPop | StddevSamp | StddevPop {
    predicate IsSample() {
      VarSamp? || StddevSamp?
    }

    predicate IsDeviation() {
      StddevSamp? || StddevPop?
    }

    function MinimumRows(): int {
      if IsSample() then 2 else 1
    }

    function Denominator(count: int): Option<int> {
      if IsSample() then CheckedI256(count * (count - 1)) else CheckedI256(count * count)
    }

    function ScalePower(): nat {
      if IsDeviation() then 2 * RESULT_SCALE else RESULT_SCALE
    }

    function OfRatio(numerator: int, denominator: int, power: nat): Option<int>
      requires 0 <= numerator && 0 < denominator
    {
      if IsDeviation() then RoundedSqrt(numerator, denominator, power)
      else RoundedDiv(numerator, denominator, power)
    }
  }

  /** NULL is `Answer(None)`. */
  datatype Outcome = Answer(value: Option<int>) | OutOfRange

  function SumOfSquaredDeviations(t: Tally, count: int): Option<int> {
    var squaredSum :- CheckedI256(t.sum * t.sum);
    var scaledSquares :- CheckedI256(count * t.sumSquares);
    var difference :- CheckedI256(scaledSquares - squaredSum);
    Some(Max(difference, 0))
  }

  /** The power left to scale the numerator by, and the denominator to divide by. */
  function FoldInputScale(denominator: int, inputScale: int, target: nat): Option<(nat, int)> {
    if inputScale < 0 then None else
    if target >= 2 * inputScale then Some((target - 2 * inputScale, denominator)) else
    var factor :- CheckedI256(Pow10(2 * inputScale - target));
    var scaled :- CheckedI256(denominator * factor);
    Some((0, scaled))
  }

  function Unscaled(kind: Statistic, t: Tally, inputScale: int): Option<int>
    requires kind.MinimumRows() <= t.count
  {
    var numerator :- SumOfSquaredDeviations(t, t.count);
    var denominator :- kind.Denominator(t.count);
    var (power, folded) :- FoldInputScale(denominator, inputScale, kind.ScalePower());
    FoldedPositive(kind, t.count, inputScale);
    var unscaled :- kind.OfRatio(numerator, folded, power);
    CheckedI128(unscaled)
  }

  function ExactStatistic(kind: Statistic, t: Tally, inputScale: int): Outcome {
    if t.count < kind.MinimumRows() then
      Answer(None)
    else
      match Unscaled(kind, t, inputScale)
      case None => OutOfRange
      case Some(unscaled) =>
        if Abs(unscaled) < DECIMAL128_CEILING then Answer(Some(unscaled)) else OutOfRange
  }

  lemma DenominatorPositive(kind: Statistic, count: int)
    requires kind.MinimumRows() <= count
    ensures 0 < if kind.IsSample() then count * (count - 1) else count * count
  {
  }

  lemma FoldedPositive(kind: Statistic, count: int, inputScale: int)
    requires kind.MinimumRows() <= count
    ensures var denominator := kind.Denominator(count);
            denominator.Some? && FoldInputScale(denominator.value, inputScale, kind.ScalePower()).Some?
            ==> 0 < FoldInputScale(denominator.value, inputScale, kind.ScalePower()).value.1
  {
    DenominatorPositive(kind, count);
    var denominator := kind.Denominator(count);
    if denominator.Some? && 0 <= inputScale && kind.ScalePower() < 2 * inputScale {
      MulMonotonic(1, Pow10(2 * inputScale - kind.ScalePower()), denominator.value);
    }
  }
}
