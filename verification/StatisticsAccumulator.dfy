/**
 The accumulator of one exact statistic: the totals updated in place batch by batch, the set
 kept for DISTINCT, and the answer. A ghost history records which run of steps the totals
 have been through, so that the theorems about runs speak about the object.
 */
module StatisticsAccumulator {
  import opened Batches
  import opened Numeric
  import opened PowerSums
  import opened Runs
  import opened Statistics
  import opened Meaning

  /** A state row is the totals a run left and the wire let through, or null. */
  ghost predicate Shipped(partial: Option<Tally>, shard: Option<Run>) {
    && (partial.Some? <==> shard.Some?)
    && (partial.Some? ==> Exec(shard.value) == partial && Ship(partial.value).Some?)
  }

  lemma StatisticsAreStrict()
    ensures Strict(Exec)
  {
  }

  /** The states that are not null, with the runs they came out of. */
  lemma {:induction false} PresentStates(partials: seq<Option<Tally>>, shards: seq<Option<Run>>)
    requires |shards| == |partials| && forall i :: 0 <= i < |partials| ==> Shipped(partials[i], shards[i])
    ensures CameOutOf(NonNull(partials), NonNull(shards))
  {
    if partials == [] {
    } else {
      var n := |partials| - 1;
      PresentStates(partials[..n], shards[..n]);
      assert Shipped(partials[n], shards[n]);
      NextPresent(NonNull(partials[..n]), NonNull(shards[..n]), partials[n], shards[n]);
    }
  }

  lemma NextPresent(states: seq<Tally>, runs: seq<Run>, partial: Option<Tally>, shard: Option<Run>)
    requires CameOutOf(states, runs) && Shipped(partial, shard)
    ensures CameOutOf(states + (match partial case None => [] case Some(v) => [v]),
                      runs + (match shard case None => [] case Some(v) => [v]))
  {
  }

  ghost predicate CameOutOf(states: seq<Tally>, runs: seq<Run>) {
    |states| == |runs| && forall i :: 0 <= i < |states| ==> Exec(runs[i]) == Some(states[i]) && Ship(states[i]).Some?
  }

  /** The three totals, updated in place one field at a time. */
  class Totals {
    var count: int
    var sum: int
    var sumSquares: int

    function Value(): Tally
      reads this
    {
      Tally(count, sum, sumSquares)
    }

    constructor ()
      ensures Value() == EMPTY
    {
      count, sum, sumSquares := 0, 0, 0;
    }

    /** Fold one value in; a refusal may leave the totals half updated, as it does in the source. */
    method Add(value: int) returns (ok: bool)
      modifies this
      ensures ok <==> AddTo(old(Value()), value).Some?
      ensures ok ==> Some(Value()) == AddTo(old(Value()), value)
    {
      if !IsU64(count + 1) { return false; }
      count := count + 1;
      if !IsI256(sum + value) { return false; }
      sum := sum + value;
      if !IsI256(value * value) || !IsI256(sumSquares + value * value) { return false; }
      sumSquares := sumSquares + value * value;
      ok := true;
    }

    method Remove(value: int) returns (ok: bool)
      modifies this
      ensures ok <==> RemoveFrom(old(Value()), value).Some?
      ensures ok ==> Some(Value()) == RemoveFrom(old(Value()), value)
    {
      if !IsU64(count - 1) { return false; }
      count := count - 1;
      if !IsI256(sum - value) { return false; }
      sum := sum - value;
      if !IsI256(value * value) || !IsI256(sumSquares - value * value) { return false; }
      sumSquares := sumSquares - value * value;
      ok := true;
    }

    method Merge(other: Tally) returns (ok: bool)
      modifies this
      ensures ok <==> Combine(old(Value()), other).Some?
      ensures ok ==> Some(Value()) == Combine(old(Value()), other)
    {
      if !IsU64(count + other.count) { return false; }
      count := count + other.count;
      if !IsI256(sum + other.sum) { return false; }
      sum := sum + other.sum;
      if !IsI256(sumSquares + other.sumSquares) { return false; }
      sumSquares := sumSquares + other.sumSquares;
      ok := true;
    }
  }

  class ExactStatistics {
    const kind: Statistic
    const inputScale: int
    const totals: Totals
    var distinct: Option<set<int>>
    ghost var run: Run

    /** The totals are what the recorded run leaves. */
    ghost predicate Valid()
      reads this, totals
    {
      Exec(run) == Some(totals.Value())
    }

    constructor (kind: Statistic, inputScale: int, isDistinct: bool)
      ensures Valid() && fresh(totals) && run == Start
      ensures this.kind == kind && this.inputScale == inputScale
      ensures distinct == if isDistinct then Some({}) else None
    {
      this.kind, this.inputScale := kind, inputScale;
      totals := new Totals();
      distinct := if isDistinct then Some({}) else None;
      run := Start;
    }

    method AddRow(value: int) returns (ok: bool)
      requires Valid()
      modifies this`run, totals
      ensures ok <==> Exec(Add(old(run), value)).Some?
      ensures ok ==> Valid() && run == Add(old(run), value)
    {
      ok := totals.Add(value);
      run := Add(run, value);
    }

    method RemoveRow(value: int) returns (ok: bool)
      requires Valid()
      modifies this`run, totals
      ensures ok <==> Exec(Retract(old(run), value)).Some?
      ensures ok ==> Valid() && run == Retract(old(run), value)
    {
      ok := totals.Remove(value);
      run := Retract(run, value);
    }

    /** The row loop of an update that is not DISTINCT. */
    method AddRows(values: seq<int>) returns (status: Status)
      requires Valid() && distinct.None?
      modifies this, totals
      ensures distinct.None? && status != InternalError
      ensures status == Done ==> Valid() && run == AddEach(old(run), values)
      ensures status == Refused <==> Exec(AddEach(old(run), values)).None?
    {
      ghost var start := run;
      for i := 0 to |values|
        invariant Valid() && distinct.None?
        invariant run == AddEach(start, values[..i])
      {
        StatisticsAreStrict();
        AddNext(Exec, start, values, i);
        var ok := AddRow(values[i]);
        if !ok {
          return Refused;
        }
      }
      assert values[..|values|] == values;
      status := Done;
    }

    /** The row loop of a retraction. */
    method RetractRows(values: seq<int>) returns (status: Status)
      requires Valid() && distinct.None?
      modifies this, totals
      ensures distinct.None? && status != Refused
      ensures status == Done ==> Valid() && run == RetractEach(old(run), values)
      ensures status == InternalError <==> Exec(RetractEach(old(run), values)).None?
    {
      ghost var start := run;
      for i := 0 to |values|
        invariant Valid() && distinct.None?
        invariant run == RetractEach(start, values[..i])
      {
        StatisticsAreStrict();
        RetractNext(Exec, start, values, i);
        var ok := RemoveRow(values[i]);
        if !ok {
          return InternalError;
        }
      }
      assert values[..|values|] == values;
      status := Done;
    }

    method UpdateBatch(values: seq<Option<int>>) returns (status: Status)
      requires Valid()
      modifies this, totals
      ensures old(distinct).Some? ==>
                status == Done && Valid() && run == old(run)
                && distinct.Some? && forall v :: v in distinct.value <==> v in old(distinct).value || Some(v) in values
      ensures old(distinct).None? ==> distinct.None?
      ensures old(distinct).None? && status == Done ==> Valid() && run == AddEach(old(run), NonNull(values))
      ensures old(distinct).None? && status == Done ==> RowsJoined(Frame(old(run)), Frame(run), values)
      ensures old(distinct).None? ==> (status == Refused <==> Exec(AddEach(old(run), NonNull(values))).None?)
      ensures status != InternalError
    {
      if distinct.Some? {
        distinct := Some(distinct.value + set v | v in NonNull(values));
        ValuesSeen(values);
        return Done;
      }
      ColumnJoins(run, values);
      status := AddRows(NonNull(values));
    }

    method RetractBatch(values: seq<Option<int>>) returns (status: Status)
      requires Valid()
      modifies this, totals
      ensures distinct == old(distinct)
      ensures distinct.Some? ==> status == InternalError && Valid() && run == old(run)
      ensures distinct.None? && status == Done ==> Valid() && run == RetractEach(old(run), NonNull(values))
      ensures distinct.None? && status == Done ==> RowsLeft(Frame(old(run)), Frame(run), values)
      ensures distinct.None? ==> (status == InternalError <==> Exec(RetractEach(old(run), NonNull(values))).None?)
      ensures status != Refused
    {
      if distinct.Some? {
        return InternalError;
      }
      ColumnLeaves(run, values);
      status := RetractRows(NonNull(values));
    }

    method MergeRow(state: Tally, ghost shard: Run) returns (ok: bool)
      requires Valid() && Exec(shard) == Some(state) && Ship(state).Some?
      modifies this`run, totals
      ensures ok <==> Exec(Merge(old(run), shard)).Some?
      ensures ok ==> Valid() && run == Merge(old(run), shard)
    {
      ok := totals.Merge(state);
      run := Merge(run, shard);
    }

    method MergeRows(states: seq<Tally>, ghost runs: seq<Run>) returns (status: Status)
      requires Valid() && distinct.None? && CameOutOf(states, runs)
      modifies this, totals
      ensures distinct.None? && status != InternalError
      ensures status == Done ==> Valid() && run == MergeEach(old(run), runs)
      ensures status == Refused <==> Exec(MergeEach(old(run), runs)).None?
    {
      ghost var start := run;
      for i := 0 to |states|
        invariant Valid() && distinct.None?
        invariant run == MergeEach(start, runs[..i])
      {
        StatisticsAreStrict();
        MergeNext(Exec, start, runs, i);
        var ok := MergeRow(states[i], runs[i]);
        if !ok {
          return Refused;
        }
      }
      assert runs[..|runs|] == runs;
      status := Done;
    }

    /**
     Merge the states other shards sent, skipping the null ones; `shards` are the runs those
     states came out of.
     */
    method MergeBatch(partials: seq<Option<Tally>>, ghost shards: seq<Option<Run>>) returns (status: Status)
      requires Valid() && distinct.None?
      requires |shards| == |partials|
      requires forall i :: 0 <= i < |partials| ==> Shipped(partials[i], shards[i])
      modifies this, totals
      ensures distinct.None? && status != InternalError
      ensures status == Done ==> Valid() && run == MergeEach(old(run), NonNull(shards))
      ensures status == Done ==> Frame(run) == Frame(old(run)) + Frames(shards)
      ensures status == Refused <==> Exec(MergeEach(old(run), NonNull(shards))).None?
    {
      PresentStates(partials, shards);
      MergeEachFrame(run, shards);
      status := MergeRows(NonNull(partials), NonNull(shards));
    }

    /** Merge the value lists DISTINCT shards sent; a null list or a null value adds nothing. */
    method MergeDistinct(lists: seq<Option<seq<Option<int>>>>)
      requires Valid() && distinct.Some?
      modifies this
      ensures Valid() && run == old(run) && distinct.Some?
      ensures forall v :: v in distinct.value <==> v in old(distinct).value || Lists(lists, v)
    {
      for row := 0 to |lists|
        invariant Valid() && run == old(run) && distinct.Some?
        invariant distinct.value == old(distinct).value + ListedValues(lists[..row])
      {
        assert lists[..row + 1][..row] == lists[..row];
        if lists[row].Some? {
          distinct := Some(distinct.value + set v | v in NonNull(lists[row].value));
        }
      }
      assert lists[..|lists|] == lists;
      forall v
        ensures v in ListedValues(lists) <==> Lists(lists, v)
      {
        ListedValuesAre(lists, v);
      }
    }

    /** Sent exactly when both totals fit the wire, as a state that merges as this run. */
    method State() returns (state: Option<Tally>)
      requires Valid() && distinct.None?
      ensures state.Some? <==> Abs(totals.sum) < WIRE_CEILING && Abs(totals.sumSquares) < WIRE_CEILING
      ensures state.Some? ==> Shipped(state, Some(run))
    {
      var both := [totals.sum, totals.sumSquares];
      for i := 0 to |both|
        invariant forall j :: 0 <= j < i ==> Abs(both[j]) < WIRE_CEILING
      {
        var magnitude := CheckedI256(Abs(both[i]));
        if magnitude.None? || magnitude.value >= WIRE_CEILING {
          return None;
        }
      }
      assert Abs(both[0]) < WIRE_CEILING && Abs(both[1]) < WIRE_CEILING;
      state := Some(Tally(totals.count, totals.sum, totals.sumSquares));
    }

    /**
     The totals to answer from. For DISTINCT they are folded here, over the set in whatever
     order it yields its elements, and neither the totals nor a refusal depends on that order.
     */
    method TotalsNow() returns (t: Option<Tally>)
      requires Valid()
      requires distinct.Some? ==> forall v <- distinct.value :: IsI128(v)
      ensures distinct.None? ==> t == Some(totals.Value())
      ensures distinct.Some? ==>
                t == if TallyFits(multiset(distinct.value)) then Some(TallyOf(multiset(distinct.value))) else None
    {
      if distinct.None? {
        return Some(totals.Value());
      }
      var seen := distinct.value;
      var acc := new Totals();
      var rest := seen;
      while rest != {}
        invariant rest <= seen && fresh(acc) && distinct == Some(seen)
        invariant acc.Value() == TallyOf(multiset(seen - rest)) && TallyFits(multiset(seen - rest))
        decreases |rest|
      {
        NonEmptySet(rest);
        var v :| v in rest;
        DistinctStep(seen - rest, v);
        assert seen - (rest - {v}) == (seen - rest) + {v};
        var ok := acc.Add(v);
        if !ok {
          SubsetFits((seen - rest) + {v}, seen);
          return None;
        }
        rest := rest - {v};
      }
      assert seen - rest == seen;
      t := Some(acc.Value());
    }

    /** The answer over the totals the accumulator holds; `RunStatisticExact` says what it means. */
    method Evaluate() returns (outcome: Outcome)
      requires Valid()
      requires distinct.Some? ==> forall v <- distinct.value :: IsI128(v)
      ensures distinct.None? ==> outcome == ExactStatistic(kind, Exec(run).value, inputScale)
      ensures distinct.Some? ==>
                outcome == if TallyFits(multiset(distinct.value))
                           then ExactStatistic(kind, TallyOf(multiset(distinct.value)), inputScale) else OutOfRange
    {
      var t := TotalsNow();
      outcome := if t.Some? then ExactStatistic(kind, t.value, inputScale) else OutOfRange;
    }
  }

  lemma {:induction false} DistinctStep(done: set<int>, v: int)
    requires v !in done && IsI128(v) && forall u <- done :: IsI128(u)
    ensures AddTo(TallyOf(multiset(done)), v)
            == if TallyFits(multiset(done + {v})) then Some(TallyOf(multiset(done + {v}))) else None
  {
    AddToBag(multiset(done), v);
    assert multiset(done) + multiset{v} == multiset(done + {v});
  }

  /** A group that does not fit does not fit after growing either. */
  lemma {:induction false} SubsetFits(part: set<int>, whole: set<int>)
    requires part <= whole
    ensures TallyFits(multiset(whole)) ==> TallyFits(multiset(part))
  {
    var others := whole - part;
    assert multiset(part) + multiset(others) == multiset(whole);
    BagSumUnion(multiset(part), multiset(others), 2);
    BagSquaresNonNegative(multiset(others));
  }
}
