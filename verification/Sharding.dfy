/**
 When the split of a group over shards shows. The totals never depend on it, but a refusal
 can: a shard's state has to fit the decimal it is sent as, which is narrower than the type
 the totals are kept in.
 */
module Sharding {
  import opened Numeric
  import opened PowerSums
  import opened Runs
  import opened Statistics
  import Meaning

  /** The largest value of a 38-digit decimal. */
  const WIDEST: int := DECIMAL128_CEILING - 1

  /** The ceilings are the powers of ten they are named for. */
  lemma Ceilings()
    ensures DECIMAL128_CEILING == Pow10(38) && WIRE_CEILING == Pow10(76)
  {
    assert Pow10(3) == 1_000;
    Pow10Adds(3, 3);
    assert Pow10(6) == 1_000_000;
    Pow10Adds(6, 32);
    Meaning.PlacesAre(StddevPop);
    assert Pow10(32) == RESULT_MULTIPLIER * RESULT_MULTIPLIER;
    Pow10Adds(38, 38);
  }

  /** The rows fit the row count and their squares the decimal a state is sent as. */
  ghost predicate Light(bag: multiset<int>) {
    |bag| <= U64_MAX && BagSum(bag, 2) < WIRE_CEILING
  }

  lemma {:induction false} SumWithinSquares(bag: multiset<int>)
    ensures Abs(BagSum(bag, 1)) <= BagSum(bag, 2)
    decreases |bag|
  {
    if |bag| == 0 {
    } else {
      var u := Pick(bag);
      SumWithinSquares(bag - multiset{u});
      BagSumRemove(bag, u, 1);
      BagSumRemove(bag, u, 2);
      MagnitudeWithinSquare(u);
    }
  }

  lemma MagnitudeWithinSquare(u: int)
    ensures Abs(u) <= u * u
  {
    if u != 0 {
      MulMonotonic(1, Abs(u), Abs(u));
    }
  }

  lemma PartIsLighter(part: multiset<int>, whole: multiset<int>)
    requires part <= whole
    ensures |part| <= |whole| && BagSum(part, 2) <= BagSum(whole, 2)
  {
    var rest := whole - part;
    assert part + rest == whole;
    BagSumUnion(part, rest, 2);
    BagSquaresNonNegative(rest);
  }

  /** Part of a light bag is one every step of a run accepts. */
  lemma LightPartFits(part: multiset<int>, all: multiset<int>)
    requires part <= all && Light(all)
    ensures TallyFits(part) && Ship(TallyOf(part)).Some?
  {
    PartIsLighter(part, all);
    SumWithinSquares(part);
    BagSquaresNonNegative(part);
  }

  lemma {:induction false} LightRunFits(run: Run, all: multiset<int>)
    requires Added(run) <= all && Light(all)
    ensures RunFits(run)
  {
    FrameWithinAdded(run);
    LightPartFits(Frame(run), all);
    match run
    case Start =>
    case Add(before, _) => LightRunFits(before, all);
    case Retract(before, _) => LightRunFits(before, all);
    case Merge(before, shard) =>
      LightRunFits(before, all);
      LightRunFits(shard, all);
      FrameWithinAdded(shard);
      LightPartFits(Frame(shard), all);
  }

  /** With retractions too: while everything ever added is light, no split and no order is refused. */
  lemma LightRunAccepted(run: Run)
    requires Legal(run, I128_MAX) && Light(Added(run))
    ensures Exec(run) == Some(TallyOf(Frame(run)))
  {
    LightRunFits(run, Added(run));
    RunTotals(run);
  }

  // ----- the runs of one bag

  /** One pass over a bag on one node. */
  ghost function OnePass(bag: multiset<int>): Run
    decreases |bag|
  {
    if |bag| == 0 then Start else Add(OnePass(bag - multiset{Pick(bag)}), Pick(bag))
  }

  lemma {:induction false} OnePassRun(bag: multiset<int>)
    requires forall u <- bag :: IsI128(u)
    ensures Legal(OnePass(bag), I128_MAX) && RetractFree(OnePass(bag)) && Frame(OnePass(bag)) == bag
    decreases |bag|
  {
    if |bag| == 0 {
      assert bag == multiset{};
    } else {
      OnePassRun(bag - multiset{Pick(bag)});
    }
  }

  lemma {:induction false} OnePassFits(bag: multiset<int>)
    requires TallyFits(bag) && forall u <- bag :: IsI128(u)
    ensures RunFits(OnePass(bag))
    decreases |bag|
  {
    if |bag| == 0 {
    } else {
      var less := bag - multiset{Pick(bag)};
      PartIsLighter(less, bag);
      OnePassFits(less);
      OnePassRun(bag);
    }
  }

  /** A way of gathering exactly these rows without retracting any. */
  ghost predicate Gathers(run: Run, bag: multiset<int>) {
    Legal(run, I128_MAX) && RetractFree(run) && Frame(run) == bag
  }

  /**
   When the split can show. Every way of gathering a bag is accepted exactly when the bag is
   light, and some way is exactly when its totals fit; an accepted one always has its totals.
   Between the two, whether a group is refused depends on the shards.
   */
  lemma SplitShows(bag: multiset<int>)
    requires forall u <- bag :: IsI128(u)
    ensures (forall run :: Gathers(run, bag) ==> Exec(run).Some?) <==> Light(bag)
    ensures (exists run :: Gathers(run, bag) && Exec(run).Some?) <==> TallyFits(bag)
    ensures forall run :: Gathers(run, bag) && Exec(run).Some? ==> Exec(run) == Some(TallyOf(bag))
  {
    var one := OnePass(bag);
    OnePassRun(bag);
    forall run | Gathers(run, bag)
      ensures Exec(run).Some? ==> Exec(run) == Some(TallyOf(bag)) && TallyFits(bag)
      ensures Light(bag) ==> Exec(run).Some?
    {
      RunTotals(run);
      FrameWithinAdded(run);
      if Light(bag) {
        LightRunAccepted(run);
      }
    }
    if TallyFits(bag) {
      OnePassFits(bag);
      RunTotals(one);
      assert Gathers(one, bag) && Exec(one).Some?;
    }
    if !Light(bag) {
      HeavyShardRefused(bag);
    }
  }

  /** Gathering a bag that is not light on one shard and sending it on is refused. */
  lemma HeavyShardRefused(bag: multiset<int>)
    requires !Light(bag) && forall u <- bag :: IsI128(u)
    ensures Gathers(Merge(Start, OnePass(bag)), bag) && Exec(Merge(Start, OnePass(bag))).None?
  {
    var sent := Merge(Start, OnePass(bag));
    OnePassRun(bag);
    assert Frame(sent) == bag;
    BagSquaresNonNegative(bag);
    RunTotals(sent);
  }

  /** Two of the widest decimals: refused when one shard sends both, accepted when two send one each. */
  lemma ShardsCanShow()
    ensures var together := Merge(Start, Add(Add(Start, WIDEST), WIDEST));
            var apart := Merge(Merge(Start, Add(Start, WIDEST)), Add(Start, WIDEST));
            && Legal(together, I128_MAX) && Legal(apart, I128_MAX) && Frame(together) == Frame(apart)
            && Exec(together).None? && Exec(apart).Some?
  {
    var one := AddTo(EMPTY, WIDEST);
    assert one == Some(Tally(1, WIDEST, WIDEST * WIDEST));
    assert Exec(Add(Start, WIDEST)) == one;
    assert Ship(one.value).Some?;
    var two := Tally(2, 2 * WIDEST, 2 * (WIDEST * WIDEST));
    assert Exec(Add(Add(Start, WIDEST), WIDEST)) == Some(two) && Ship(two).None?;
    assert Combine(EMPTY, one.value) == one;
    assert Combine(one.value, one.value) == Some(two);
    assert Exec(Merge(Start, Add(Start, WIDEST))) == one;
  }
}
