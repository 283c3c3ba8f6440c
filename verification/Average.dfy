/**
 The exact average of a `bigint` column: two totals, how they are accumulated and merged, and
 the quotient at sixteen decimal places they are turned into.
 */
module Average {
  import opened Batches
  import opened Numeric
  import opened PowerSums
  import opened Rounding
  import opened Runs

  /** `n` and `sum u` over the `bigint`s of one group. */
  datatype Totals = Totals(count: int, sum: int)

  const EMPTY: Totals := Totals(0, 0)

  /** One past the largest magnitude of a `bigint`. */
  const I64_BOUND: int := I64_MAX + 1

  function Single(value: int): Totals {
    Totals(1, value)
  }

  /** Fold another row's or shard's totals in, refused once the sum reaches the wire's ceiling. */
  function Merged(t: Totals, other: Totals): Option<Totals> {
    var count :- CheckedU64(t.count + other.count);
    var sum :- CheckedI128(t.sum + other.sum);
    var magnitude :- CheckedI128(Abs(sum));
    if magnitude < DECIMAL128_CEILING then Some(Totals(count, sum)) else None
  }

  /** A null in either state column reads as nothing at all. */
  function PartialRow(count: Option<int>, sum: Option<int>): Totals {
    Totals(if count.None? then 0 else count.value, if sum.None? then 0 else sum.value)
  }

  /** A cell of a state column and the total it stands for; a null stands for none. */
  predicate ReadsAs(cell: Option<int>, total: int) {
    cell == Some(total) || (cell == None && total == 0)
  }

  function Removed(t: Totals, value: int): Option<Totals> {
    var count :- CheckedU64(t.count - 1);
    var sum :- CheckedI128(t.sum - value);
    Some(Totals(count, sum))
  }

  function Exec(run: Run): Option<Totals> {
    match run
    case Start => Some(EMPTY)
    case Add(before, value) =>
      var t :- Exec(before);
      Merged(t, Single(value))
    case Retract(before, value) =>
      var t :- Exec(before);
      Removed(t, value)
    case Merge(before, shard) =>
      var t :- Exec(before);
      var partial :- Exec(shard);
      Merged(t, partial)
  }

  ghost function TotalsOf(bag: multiset<int>): Totals {
    Totals(|bag|, BagSum(bag, 1))
  }

  lemma MergedExact(t: Totals, other: Totals)
    requires 0 <= t.count + other.count
    ensures Merged(t, other)
            == if t.count + other.count <= U64_MAX && Abs(t.sum + other.sum) < DECIMAL128_CEILING
               then Some(Totals(t.count + other.count, t.sum + other.sum)) else None
  {
  }

  /** The totals of a group can be kept and sent. */
  ghost predicate TotalsFit(bag: multiset<int>) {
    |bag| <= U64_MAX && Abs(BagSum(bag, 1)) < DECIMAL128_CEILING
  }

  /** Every group an addition or a merge passes through fits; a retraction is held to `i128` alone. */
  ghost predicate RunFits(run: Run) {
    match run
    case Start => true
    case Add(before, _) => RunFits(before) && TotalsFit(Frame(run))
    case Retract(before, _) => RunFits(before) && IsI128(BagSum(Frame(run), 1))
    case Merge(before, shard) => RunFits(before) && RunFits(shard) && TotalsFit(Frame(run))
  }

  lemma {:induction false} AddStep(bag: multiset<int>, value: int)
    ensures var more := bag + multiset{value};
            Merged(TotalsOf(bag), Single(value)) == if TotalsFit(more) then Some(TotalsOf(more)) else None
  {
    BagSumAdd(bag, value, 1);
    MergedExact(TotalsOf(bag), Single(value));
  }

  lemma {:induction false} RetractStep(bag: multiset<int>, value: int)
    requires value in bag && |bag| <= U64_MAX
    ensures var less := bag - multiset{value};
            Removed(TotalsOf(bag), value) == if IsI128(BagSum(less, 1)) then Some(TotalsOf(less)) else None
  {
    BagSumRemove(bag, value, 1);
  }

  lemma {:induction false} MergeStep(a: multiset<int>, b: multiset<int>)
    ensures Merged(TotalsOf(a), TotalsOf(b)) == if TotalsFit(a + b) then Some(TotalsOf(a + b)) else None
  {
    BagSumUnion(a, b, 1);
    assert |a + b| == |a| + |b|;
    MergedExact(TotalsOf(a), TotalsOf(b));
  }

  /**
   A run holds the totals of its frame, whatever the steps and shards, and is refused exactly
   when a group on the way does not fit.
   */
  lemma {:induction false} RunTotals(run: Run)
    requires Legal(run, I64_MAX)
    ensures Exec(run) == if RunFits(run) then Some(TotalsOf(Frame(run))) else None
    ensures RunFits(run) ==> |Frame(run)| <= U64_MAX
  {
    match run
    case Start =>
    case Add(before, value) =>
      RunTotals(before);
      AddStep(Frame(before), value);
    case Retract(before, value) =>
      RunTotals(before);
      if RunFits(before) {
        RetractStep(Frame(before), value);
      }
    case Merge(before, shard) =>
      RunTotals(before);
      RunTotals(shard);
      MergeStep(Frame(before), Frame(shard));
  }

  /** No group the run passes through has so many rows that its sum could reach the ceiling. */
  ghost predicate StaysSmall(run: Run) {
    && |Frame(run)| * I64_BOUND < DECIMAL128_CEILING
    && match run
       case Start => true
       case Add(before, _) => StaysSmall(before)
       case Retract(before, _) => StaysSmall(before)
       case Merge(before, shard) => StaysSmall(before) && StaysSmall(shard)
  }

  lemma SmallGroupFits(bag: multiset<int>)
    requires |bag| * I64_BOUND < DECIMAL128_CEILING
    requires forall u <- bag :: IsI64(u)
    ensures TotalsFit(bag)
  {
    SumBounded(bag, I64_BOUND);
    if U64_MAX < |bag| {
      MulMonotonic(U64_MAX, |bag|, I64_BOUND);
    }
  }

  lemma {:induction false} SmallRunFits(run: Run)
    requires Legal(run, I64_MAX) && StaysSmall(run)
    ensures RunFits(run)
  {
    FrameInRange(run, I64_MAX);
    SmallGroupFits(Frame(run));
    match run
    case Start =>
    case Add(before, _) => SmallRunFits(before);
    case Retract(before, _) => SmallRunFits(before);
    case Merge(before, shard) =>
      SmallRunFits(before);
      SmallRunFits(shard);
  }

  /** Accumulation cannot refuse while the row count times `2^63` stays under `10^38`. */
  lemma SmallRunSucceeds(run: Run)
    requires Legal(run, I64_MAX) && StaysSmall(run)
    ensures Exec(run) == Some(TotalsOf(Frame(run)))
  {
    SmallRunFits(run);
    RunTotals(run);
  }

  // ----- the quotient

  /** NULL is `Answer(None)`. */
  datatype Outcome = Answer(value: Option<int>) | OutOfRange

  function RoundedQuotient(magnitude: int, count: int): Option<int>
    requires 0 <= magnitude && 0 < count
  {
    var whole := magnitude / count;
    var remainder := magnitude % count;
    var scaledRemainder :- CheckedU128(remainder * RESULT_MULTIPLIER);
    var scaledWhole :- CheckedU128(whole * RESULT_MULTIPLIER);
    var quotient :- CheckedU128(scaledWhole + scaledRemainder / count);
    var left := scaledRemainder % count;
    if left >= count - left then CheckedU128(quotient + 1) else Some(quotient)
  }

  function ExactAverage(t: Totals): Outcome
    requires 0 <= t.count
  {
    if t.count == 0 then
      Answer(None)
    else
      match RoundedQuotient(Abs(t.sum), t.count)
      case None => OutOfRange
      case Some(magnitude) =>
        if !IsI128(magnitude) || magnitude >= DECIMAL128_CEILING then OutOfRange
        else Answer(Some(if t.sum < 0 then -magnitude else magnitude))
  }

  /** `result` is `sum * 10^16 / count` rounded half away from zero. */
  predicate IsRoundedAverage(result: int, sum: int, count: int) {
    && IsRoundedQuotient(Abs(result), Abs(sum) * RESULT_MULTIPLIER, count)
    && (0 < sum ==> 0 <= result)
    && (sum < 0 ==> result <= 0)
    && (sum == 0 ==> result == 0)
  }

  /** Whole part plus scaled remainder is the quotient of the scaled magnitude. */
  lemma ScaledInTwoParts(magnitude: int, count: int, whole: int, remainder: int, digits: int, left: int)
    requires 0 <= magnitude && 0 < count
    requires whole == magnitude / count && remainder == magnitude % count
    requires digits == remainder * RESULT_MULTIPLIER / count && left == remainder * RESULT_MULTIPLIER % count
    ensures magnitude * RESULT_MULTIPLIER == (whole * RESULT_MULTIPLIER + digits) * count + left
    ensures 0 <= left < count && 0 <= whole && 0 <= digits && 0 <= remainder < count
  {
    DivMod(magnitude, count);
    DivMonotonic(0, magnitude, count);
    DivMod(remainder * RESULT_MULTIPLIER, count);
    DivMonotonic(0, remainder * RESULT_MULTIPLIER, count);
    assert (whole * RESULT_MULTIPLIER + digits) * count == whole * count * RESULT_MULTIPLIER + digits * count;
  }

  /** The magnitude of the average, and that a refusal means it is past the ceiling. */
  lemma RoundedQuotientExact(magnitude: int, count: int, result: int)
    requires 0 <= magnitude && 1 <= count <= U64_MAX
    ensures RoundedQuotient(magnitude, count) == Some(result)
            ==> IsRoundedQuotient(result, magnitude * RESULT_MULTIPLIER, count)
    ensures IsRoundedQuotient(result, magnitude * RESULT_MULTIPLIER, count) && result < DECIMAL128_CEILING
            ==> RoundedQuotient(magnitude, count) == Some(result)
  {
    var whole, remainder := magnitude / count, magnitude % count;
    var digits, left := remainder * RESULT_MULTIPLIER / count, remainder * RESULT_MULTIPLIER % count;
    ScaledInTwoParts(magnitude, count, whole, remainder, digits, left);
    var quotient := whole * RESULT_MULTIPLIER + digits;
    var rounded := if left >= count - left then quotient + 1 else quotient;
    QuotientRoundsAt(quotient, left, count, rounded);
    if IsRoundedQuotient(result, magnitude * RESULT_MULTIPLIER, count) {
      RoundedQuotientUnique(result, rounded, magnitude * RESULT_MULTIPLIER, count);
    }
  }

  /**
   The average of any totals: NULL exactly for no rows; otherwise the rounded quotient, and a
   refusal exactly when that quotient does not fit 38 digits. No intermediate product refuses
   an answer that fits.
   */
  lemma AverageExact(t: Totals, result: int)
    requires IsU64(t.count)
    ensures ExactAverage(t) == Answer(None) <==> t.count == 0
    ensures ExactAverage(t) == Answer(Some(result))
            <==> t.count != 0 && IsRoundedAverage(result, t.sum, t.count) && Abs(result) < DECIMAL128_CEILING
  {
    if t.count != 0 {
      RoundedQuotientExact(Abs(t.sum), t.count, Abs(result));
      var r := RoundedQuotient(Abs(t.sum), t.count);
      if r.Some? {
        RoundedQuotientExact(Abs(t.sum), t.count, r.value);
        AverageNotNegative(r.value, Abs(t.sum), t.count);
        if t.sum == 0 {
          RoundedQuotientUnique(0, r.value, 0, t.count);
        }
      }
    }
  }

  lemma AverageNotNegative(r: int, magnitude: int, count: int)
    requires 0 <= magnitude && 0 < count && IsRoundedQuotient(r, magnitude * RESULT_MULTIPLIER, count)
    ensures 0 <= r
  {
    MulCancels(0, 2 * r + 1, count);
  }

  /** A rounded average of `bigint`s is within the scaled range of a `bigint`. */
  lemma AverageBounded(r: int, magnitude: int, count: int)
    requires 0 < count && 0 <= magnitude <= count * I64_BOUND
    requires IsRoundedQuotient(r, magnitude * RESULT_MULTIPLIER, count)
    ensures r <= I64_BOUND * RESULT_MULTIPLIER
  {
    var bound := I64_BOUND * RESULT_MULTIPLIER;
    assert magnitude * RESULT_MULTIPLIER <= bound * count;
    if bound < r {
      MulMonotonic(2 * bound + 1, 2 * r - 1, count);
    }
  }

  /**
   No integer column has an average this cannot report: for every group of `bigint`s, at
   least one of them, `ExactAverage` answers the rounded average, and its magnitude is at most
   `2^63 * 10^16`.
   */
  lemma IntegerAverageAlwaysAnswers(t: Totals)
    requires 1 <= t.count <= U64_MAX && Abs(t.sum) <= t.count * I64_BOUND
    ensures ExactAverage(t).Answer? && ExactAverage(t).value.Some?
    ensures IsRoundedAverage(ExactAverage(t).value.value, t.sum, t.count)
    ensures Abs(ExactAverage(t).value.value) <= I64_BOUND * RESULT_MULTIPLIER
  {
    var magnitude, count := Abs(t.sum), t.count;
    var whole, remainder := magnitude / count, magnitude % count;
    var digits, left := remainder * RESULT_MULTIPLIER / count, remainder * RESULT_MULTIPLIER % count;
    ScaledInTwoParts(magnitude, count, whole, remainder, digits, left);
    var quotient := whole * RESULT_MULTIPLIER + digits;
    var rounded := if left >= count - left then quotient + 1 else quotient;
    QuotientRoundsAt(quotient, left, count, rounded);
    AverageBounded(rounded, magnitude, count);
    RoundedQuotientExact(magnitude, count, rounded);
    AverageExact(t, if t.sum < 0 then -rounded else rounded);
    if t.sum == 0 {
      RoundedQuotientUnique(0, rounded, 0, count);
    }
  }

  /** End to end over any legal run that was not refused. */
  lemma RunAverageExact(run: Run)
    requires Legal(run, I64_MAX) && Exec(run).Some?
    ensures var t := Exec(run).value;
            if |Frame(run)| == 0 then ExactAverage(t) == Answer(None)
            else ExactAverage(t).Answer? && ExactAverage(t).value.Some?
                 && IsRoundedAverage(ExactAverage(t).value.value, BagSum(Frame(run), 1), |Frame(run)|)
  {
    RunTotals(run);
    FrameInRange(run, I64_MAX);
    SumBounded(Frame(run), I64_BOUND);
    if |Frame(run)| != 0 {
      IntegerAverageAlwaysAnswers(Exec(run).value);
    }
  }

  // ----- DISTINCT

  ghost function Triangle(m: int): int
    requires 0 <= m
  {
    if m == 0 then 0 else Triangle(m - 1) + m
  }

  lemma {:induction false} TriangleClosed(m: int)
    requires 0 <= m
    ensures 2 * Triangle(m) == m * (m + 1)
  {
    if m == 0 {
    } else {
      TriangleClosed(m - 1);
    }
  }

  /** Distinct integers of at most `m` add up to at most `1 + 2 + ... + m`. */
  lemma {:induction false} DistinctSumAtMost(s: set<int>, m: int)
    requires 0 <= m && forall u <- s :: u <= m
    ensures BagSum(multiset(s), 1) <= Triangle(m)
    decreases m
  {
    if m == 0 {
      NonPositiveSum(multiset(s));
    } else {
      PeelOne(s, m);
      var rest := s - {m};
      assert forall u <- rest :: u in s && u != m;
      DistinctSumAtMost(rest, m - 1);
    }
  }

  lemma {:induction false} DistinctSumAtLeast(s: set<int>, m: int)
    requires 0 <= m && forall u <- s :: -m <= u
    ensures -Triangle(m) <= BagSum(multiset(s), 1)
    decreases m
  {
    if m == 0 {
      NonNegativeSum(multiset(s));
    } else {
      PeelOne(s, -m);
      var rest := s - {-m};
      assert forall u <- rest :: u in s && u != -m;
      DistinctSumAtLeast(rest, m - 1);
    }
  }

  lemma {:induction false} NonPositiveSum(bag: multiset<int>)
    requires forall u <- bag :: u <= 0
    ensures BagSum(bag, 1) <= 0
    decreases |bag|
  {
    if |bag| == 0 {
    } else {
      NonPositiveSum(bag - multiset{Pick(bag)});
    }
  }

  lemma {:induction false} NonNegativeSum(bag: multiset<int>)
    requires forall u <- bag :: 0 <= u
    ensures 0 <= BagSum(bag, 1)
    decreases |bag|
  {
    if |bag| == 0 {
    } else {
      NonNegativeSum(bag - multiset{Pick(bag)});
    }
  }

  lemma {:induction false} PeelOne(s: set<int>, u: int)
    ensures BagSum(multiset(s), 1) - BagSum(multiset(s - {u}), 1) == if u in s then u else 0
  {
    if u in s {
      BagSumRemove(multiset(s), u, 1);
      assert multiset(s) - multiset{u} == multiset(s - {u});
    } else {
      assert s - {u} == s;
    }
  }

  lemma {:induction false} DistinctSumFits(s: set<int>)
    requires forall u <- s :: IsI64(u)
    ensures Abs(BagSum(multiset(s), 1)) < DECIMAL128_CEILING
  {
    DistinctSumAtMost(s, I64_BOUND);
    DistinctSumAtLeast(s, I64_BOUND);
    TriangleClosed(I64_BOUND);
  }

  /**
   The totals of a DISTINCT average, folded over the set in whatever order it yields its
   elements. Distinct `bigint`s never reach the ceiling, so nothing is ever refused.
   */
  method DistinctTotals(seen: set<int>) returns (t: Option<Totals>)
    requires |seen| <= U64_MAX && forall u <- seen :: IsI64(u)
    ensures t == Some(TotalsOf(multiset(seen)))
  {
    var acc := EMPTY;
    var rest := seen;
    ghost var done := {};
    while rest != {}
      invariant done + rest == seen && done !! rest
      invariant acc == TotalsOf(multiset(done))
      decreases |rest|
    {
      NonEmptySet(rest);
      var v :| v in rest;
      DistinctMerges(done, v, seen);
      var next := Merged(acc, Single(v));
      if next.None? {
        return None;
      }
      acc, done := next.value, done + {v};
      rest := rest - {v};
    }
    t := Some(acc);
  }

  lemma {:induction false} DistinctMerges(done: set<int>, v: int, all: set<int>)
    requires v !in done && done + {v} <= all && |all| <= U64_MAX && forall u <- all :: IsI64(u)
    ensures Merged(TotalsOf(multiset(done)), Single(v)) == Some(TotalsOf(multiset(done + {v})))
  {
    DistinctAdds(done, v);
    DistinctSumFits(done + {v});
    SubsetNoLarger(done + {v}, all);
  }

  lemma DistinctAdds(done: set<int>, v: int)
    requires v !in done
    ensures BagSum(multiset(done + {v}), 1) == BagSum(multiset(done), 1) + v
    ensures |multiset(done + {v})| == |done + {v}| == |multiset(done)| + 1
  {
    BagSumAdd(multiset(done), v, 1);
    assert multiset(done) + multiset{v} == multiset(done + {v});
  }

  lemma SubsetNoLarger(part: set<int>, whole: set<int>)
    requires part <= whole
    ensures |part| <= |whole|
  {
    assert whole == part + (whole - part);
  }
}
