/**
 The accumulator of one exact average: two totals updated in place, the set kept for DISTINCT,
 and the answer. A ghost history records the run of steps the totals have been through.
 */
module AverageAccumulator {
  import opened Batches
  import opened Numeric
  import opened Runs
  import opened Average

  lemma AverageIsStrict()
    ensures Strict(Exec)
  {
  }

  /** Each row of the state columns holds the totals some run left; a null row is a shard that saw nothing. */
  ghost predicate ComeFrom(counts: seq<Option<int>>, sums: seq<Option<int>>, shards: seq<Run>) {
    && |counts| == |sums| == |shards|
    && forall i :: 0 <= i < |counts| ==>
         && Exec(shards[i]).Some?
         && ReadsAs(counts[i], Exec(shards[i]).value.count) && ReadsAs(sums[i], Exec(shards[i]).value.sum)
  }

  lemma {:induction false} CountNotNegative(run: Run)
    requires Exec(run).Some?
    ensures 0 <= Exec(run).value.count
  {
  }

  class ExactAverageAccumulator {
    var totals: Totals
    var distinct: Option<set<int>>
    ghost var run: Run

    ghost predicate Valid()
      reads this
    {
      Exec(run) == Some(totals)
    }

    constructor (isDistinct: bool)
      ensures Valid() && run == Start
      ensures distinct == if isDistinct then Some({}) else None
    {
      totals, run := EMPTY, Start;
      distinct := if isDistinct then Some({}) else None;
    }

    /** The row loop of an update that is not DISTINCT. */
    method AddRows(values: seq<int>) returns (status: Status)
      requires Valid() && distinct.None?
      modifies this
      ensures distinct.None? && status != InternalError
      ensures status == Done ==> Valid() && run == AddEach(old(run), values)
      ensures status == Refused <==> Exec(AddEach(old(run), values)).None?
    {
      ghost var start := run;
      for i := 0 to |values|
        invariant Valid() && distinct.None?
        invariant run == AddEach(start, values[..i])
      {
        AverageIsStrict();
        AddNext(Exec, start, values, i);
        var merged := Merged(totals, Single(values[i]));
        if merged.None? {
          return Refused;
        }
        totals, run := merged.value, Add(run, values[i]);
      }
      assert values[..|values|] == values;
      status := Done;
    }

    /** The row loop of a retraction. */
    method RetractRows(values: seq<int>) returns (status: Status)
      requires Valid() && distinct.None?
      modifies this
      ensures distinct.None? && status != Refused
      ensures status == Done ==> Valid() && run == RetractEach(old(run), values)
      ensures status == InternalError <==> Exec(RetractEach(old(run), values)).None?
    {
      ghost var start := run;
      for i := 0 to |values|
        invariant Valid() && distinct.None?
        invariant run == RetractEach(start, values[..i])
      {
        AverageIsStrict();
        RetractNext(Exec, start, values, i);
        var removed := Removed(totals, values[i]);
        if removed.None? {
          return InternalError;
        }
        totals, run := removed.value, Retract(run, values[i]);
      }
      assert values[..|values|] == values;
      status := Done;
    }

    /** Fold in the non-null values of a column, or remember them for DISTINCT. */
    method UpdateBatch(values: seq<Option<int>>) returns (status: Status)
      requires Valid()
      modifies this
      ensures old(distinct).Some? ==>
                status == Done && Valid() && run == old(run)
                && distinct.Some? && forall v :: v in distinct.value <==> v in old(distinct).value || Some(v) in values
      ensures old(distinct).None? ==> distinct.None?
      ensures old(distinct).None? && status == Done ==> Valid() && run == AddEach(old(run), NonNull(values))
      ensures old(distinct).None? && status == Done ==> RowsJoined(Frame(old(run)), Frame(run), values)
      ensures old(distinct).None? ==> (status == Refused <==> Exec(AddEach(old(run), NonNull(values))).None?)
      ensures status != InternalError
    {
      if distinct.Some? {
        distinct := Some(distinct.value + set v | v in NonNull(values));
        ValuesSeen(values);
        return Done;
      }
      ColumnJoins(run, values);
      status := AddRows(NonNull(values));
    }

    /** Take the non-null values of a column out again; DISTINCT has no way to. */
    method RetractBatch(values: seq<Option<int>>) returns (status: Status)
      requires Valid()
      modifies this
      ensures distinct == old(distinct)
      ensures distinct.Some? ==> status == InternalError && Valid() && run == old(run)
      ensures distinct.None? && status == Done ==> Valid() && run == RetractEach(old(run), NonNull(values))
      ensures distinct.None? && status == Done ==> RowsLeft(Frame(old(run)), Frame(run), values)
      ensures distinct.None? ==> (status == InternalError <==> Exec(RetractEach(old(run), NonNull(values))).None?)
      ensures status != Refused
    {
      if distinct.Some? {
        return InternalError;
      }
      ColumnLeaves(run, values);
      status := RetractRows(NonNull(values));
    }

    /** Merge the states other shards sent; `shards` are the runs those states came out of. */
    method MergeBatch(counts: seq<Option<int>>, sums: seq<Option<int>>, ghost shards: seq<Run>) returns (status: Status)
      requires Valid() && distinct.None? && ComeFrom(counts, sums, shards)
      modifies this
      ensures distinct.None? && status != InternalError
      ensures status == Done ==> Valid() && run == MergeEach(old(run), shards)
      ensures status == Refused <==> Exec(MergeEach(old(run), shards)).None?
    {
      ghost var start := run;
      for row := 0 to |counts|
        invariant Valid() && distinct.None?
        invariant run == MergeEach(start, shards[..row])
      {
        AverageIsStrict();
        MergeNext(Exec, start, shards, row);
        assert Exec(shards[row]) == Some(PartialRow(counts[row], sums[row]));
        var merged := Merged(totals, PartialRow(counts[row], sums[row]));
        if merged.None? {
          return Refused;
        }
        totals, run := merged.value, Merge(run, shards[row]);
      }
      assert shards[..|shards|] == shards;
      status := Done;
    }

    /** Merge the value lists DISTINCT shards sent; a null list or a null value adds nothing. */
    method MergeDistinct(lists: seq<Option<seq<Option<int>>>>)
      requires Valid() && distinct.Some?
      modifies this
      ensures Valid() && run == old(run) && distinct.Some?
      ensures forall v :: v in distinct.value <==> v in old(distinct).value || Lists(lists, v)
    {
      for row := 0 to |lists|
        invariant Valid() && run == old(run) && distinct.Some?
        invariant distinct.value == old(distinct).value + ListedValues(lists[..row])
      {
        assert lists[..row + 1][..row] == lists[..row];
        if lists[row].Some? {
          distinct := Some(distinct.value + set v | v in NonNull(lists[row].value));
        }
      }
      assert lists[..|lists|] == lists;
      forall v
        ensures v in ListedValues(lists) <==> Lists(lists, v)
      {
        ListedValuesAre(lists, v);
      }
    }

    /** The state this shard sends is one the other side reads as this run's. */
    method State() returns (count: Option<int>, sum: Option<int>)
      requires Valid() && distinct.None?
      ensures ComeFrom([count], [sum], [run])
    {
      count, sum := Some(totals.count), Some(totals.sum);
    }

    /** The answer over what the accumulator holds; `RunAverageExact` says what it means. */
    method Evaluate() returns (outcome: Outcome)
      requires Valid()
      requires distinct.Some? ==> |distinct.value| <= U64_MAX && forall v <- distinct.value :: IsI64(v)
      ensures distinct.None? ==> 0 <= Exec(run).value.count
      ensures outcome == ExactAverage(if distinct.None? then Exec(run).value else TotalsOf(multiset(distinct.value)))
    {
      CountNotNegative(run);
      var t := Some(totals);
      if distinct.Some? {
        t := DistinctTotals(distinct.value);
      }
      outcome := if t.Some? then ExactAverage(t.value) else OutOfRange;
    }
  }
}
