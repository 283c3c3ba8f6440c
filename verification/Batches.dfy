/** Rows arriving a batch at a time: the runs of steps that whole columns stand for. */
module Batches {
  import opened Numeric
  import opened Runs

  datatype Status = Done | Refused | InternalError

  /** `values.iter().flatten()`: the values of a nullable column, nulls skipped. */
  function NonNull<T>(values: seq<Option<T>>): seq<T> {
    if values == [] then [] else
    NonNull(values[..|values| - 1]) + (match values[|values| - 1] case None => [] case Some(v) => [v])
  }

  /** How many of the first `k` rows hold a value. */
  function Present<T>(values: seq<Option<T>>, k: nat): nat
    requires k <= |values|
  {
    if k == 0 then 0 else Present(values, k - 1) + if values[k - 1].Some? then 1 else 0
  }

  lemma {:induction false} PresentOfPrefix<T>(values: seq<Option<T>>, n: nat, k: nat)
    requires k <= n <= |values|
    ensures Present(values[..n], k) == Present(values, k)
  {
    if k == 0 {
    } else {
      PresentOfPrefix(values, n, k - 1);
    }
  }

  /** Every row that holds a value comes through, in its place among them, and nothing else does. */
  lemma {:induction false} NonNullByRow<T>(values: seq<Option<T>>)
    ensures |NonNull(values)| == Present(values, |values|)
    ensures forall i :: 0 <= i < |values| && values[i].Some? ==>
              Present(values, i) < |NonNull(values)| && NonNull(values)[Present(values, i)] == values[i].value
  {
    if values == [] {
    } else {
      var n := |values| - 1;
      NonNullByRow(values[..n]);
      PresentOfPrefix(values, n, n);
      forall i | 0 <= i < |values| && values[i].Some?
        ensures Present(values, i) < |NonNull(values)| && NonNull(values)[Present(values, i)] == values[i].value
      {
        if i < n {
          PresentOfPrefix(values, n, i);
          assert values[..n][i] == values[i];
        }
      }
    }
  }

  ghost function Holding(values: seq<Option<int>>, v: int): set<int> {
    set i | 0 <= i < |values| && values[i] == Some(v)
  }

  /** The number of rows that hold `v`. */
  ghost function RowsWith(values: seq<Option<int>>, v: int): nat {
    |Holding(values, v)|
  }

  lemma RowsWithOneMore(values: seq<Option<int>>, last: Option<int>, v: int)
    ensures RowsWith(values + [last], v) == RowsWith(values, v) + if last == Some(v) then 1 else 0
  {
    assert Holding(values + [last], v) == Holding(values, v) + if last == Some(v) then {|values|} else {};
  }

  /** As a bag: each value as often as there are rows that hold it. */
  lemma {:induction false} NonNullBag(values: seq<Option<int>>, v: int)
    ensures multiset(NonNull(values))[v] == RowsWith(values, v)
  {
    if values == [] {
      assert Holding(values, v) == {};
    } else {
      var n := |values| - 1;
      NonNullBag(values[..n], v);
      RowsWithOneMore(values[..n], values[n], v);
      assert values == values[..n] + [values[n]];
    }
  }

  lemma NonNullMembers(values: seq<Option<int>>, v: int)
    ensures v in NonNull(values) <==> Some(v) in values
  {
    NonNullBag(values, v);
    assert v in NonNull(values) <==> v in multiset(NonNull(values));
    var rows := Holding(values, v);
    if Some(v) in values {
      var i :| 0 <= i < |values| && values[i] == Some(v);
      assert i in rows;
    }
    if rows != {} {
      NonEmptySet(rows);
      var i :| i in rows;
      assert values[i] == Some(v);
    }
  }

  lemma ValuesSeen(values: seq<Option<int>>)
    ensures forall v :: v in NonNull(values) <==> Some(v) in values
  {
    forall v
      ensures v in NonNull(values) <==> Some(v) in values
    {
      NonNullMembers(values, v);
    }
  }

  /** The values in a column of value lists. */
  function ListedValues(lists: seq<Option<seq<Option<int>>>>): set<int> {
    if lists == [] then {} else
    var last := lists[|lists| - 1];
    ListedValues(lists[..|lists| - 1]) + if last.Some? then set v | v in NonNull(last.value) else {}
  }

  /** A value is listed when some list has a row that holds it. */
  ghost predicate Lists(lists: seq<Option<seq<Option<int>>>>, v: int) {
    exists i :: 0 <= i < |lists| && lists[i].Some? && Some(v) in lists[i].value
  }

  lemma {:induction false} ListedValuesAre(lists: seq<Option<seq<Option<int>>>>, v: int)
    ensures v in ListedValues(lists) <==> Lists(lists, v)
  {
    if lists == [] {
    } else {
      var n := |lists| - 1;
      ListedValuesAre(lists[..n], v);
      if lists[n].Some? {
        NonNullMembers(lists[n].value, v);
      }
      if Lists(lists[..n], v) {
        var i :| 0 <= i < n && lists[..n][i].Some? && Some(v) in lists[..n][i].value;
        assert lists[i].Some? && Some(v) in lists[i].value;
      }
      if Lists(lists, v) {
        var i :| 0 <= i < |lists| && lists[i].Some? && Some(v) in lists[i].value;
        assert i < n ==> lists[..n][i] == lists[i];
      }
    }
  }

  // ----- runs a batch at a time

  function AddEach(run: Run, values: seq<int>): Run {
    if values == [] then run else Add(AddEach(run, values[..|values| - 1]), values[|values| - 1])
  }

  function RetractEach(run: Run, values: seq<int>): Run {
    if values == [] then run else Retract(RetractEach(run, values[..|values| - 1]), values[|values| - 1])
  }

  function MergeEach(run: Run, shards: seq<Run>): Run {
    if shards == [] then run else Merge(MergeEach(run, shards[..|shards| - 1]), shards[|shards| - 1])
  }

  /** A step after a refusal is refused. */
  ghost predicate Strict<T>(exec: Run -> Option<T>) {
    && (forall run, v :: exec(run).None? ==> exec(Add(run, v)).None? && exec(Retract(run, v)).None?)
    && (forall run, shard :: exec(run).None? ==> exec(Merge(run, shard)).None?)
  }

  /** A refused step refuses the rest of the batch. */
  lemma {:induction false} AddEachRefused<T>(exec: Run -> Option<T>, run: Run, values: seq<int>, k: nat)
    requires Strict(exec) && k <= |values| && exec(AddEach(run, values[..k])).None?
    ensures exec(AddEach(run, values)).None?
  {
    if k < |values| {
      assert values[..|values| - 1][..k] == values[..k];
      AddEachRefused(exec, run, values[..|values| - 1], k);
    } else {
      assert values[..k] == values;
    }
  }

  lemma {:induction false} RetractEachRefused<T>(exec: Run -> Option<T>, run: Run, values: seq<int>, k: nat)
    requires Strict(exec) && k <= |values| && exec(RetractEach(run, values[..k])).None?
    ensures exec(RetractEach(run, values)).None?
  {
    if k < |values| {
      assert values[..|values| - 1][..k] == values[..k];
      RetractEachRefused(exec, run, values[..|values| - 1], k);
    } else {
      assert values[..k] == values;
    }
  }

  lemma {:induction false} MergeEachRefused<T>(exec: Run -> Option<T>, run: Run, shards: seq<Run>, k: nat)
    requires Strict(exec) && k <= |shards| && exec(MergeEach(run, shards[..k])).None?
    ensures exec(MergeEach(run, shards)).None?
  {
    if k < |shards| {
      assert shards[..|shards| - 1][..k] == shards[..k];
      MergeEachRefused(exec, run, shards[..|shards| - 1], k);
    } else {
      assert shards[..k] == shards;
    }
  }

  lemma NonEmptySet(s: set<int>)
    requires s != {}
    ensures exists v :: v in s
  {
    if forall v :: v !in s {
      assert false;
    }
  }

  /** One more value extends the run, and a refused value refuses the column. */
  lemma AddNext<T>(exec: Run -> Option<T>, start: Run, values: seq<int>, i: nat)
    requires Strict(exec) && i < |values|
    ensures AddEach(start, values[..i + 1]) == Add(AddEach(start, values[..i]), values[i])
    ensures exec(AddEach(start, values[..i + 1])).None? ==> exec(AddEach(start, values)).None?
  {
    assert values[..i + 1][..i] == values[..i];
    if exec(AddEach(start, values[..i + 1])).None? {
      AddEachRefused(exec, start, values, i + 1);
    }
  }

  lemma RetractNext<T>(exec: Run -> Option<T>, start: Run, values: seq<int>, i: nat)
    requires Strict(exec) && i < |values|
    ensures RetractEach(start, values[..i + 1]) == Retract(RetractEach(start, values[..i]), values[i])
    ensures exec(RetractEach(start, values[..i + 1])).None? ==> exec(RetractEach(start, values)).None?
  {
    assert values[..i + 1][..i] == values[..i];
    if exec(RetractEach(start, values[..i + 1])).None? {
      RetractEachRefused(exec, start, values, i + 1);
    }
  }

  lemma MergeNext<T>(exec: Run -> Option<T>, start: Run, runs: seq<Run>, i: nat)
    requires Strict(exec) && i < |runs|
    ensures MergeEach(start, runs[..i + 1]) == Merge(MergeEach(start, runs[..i]), runs[i])
    ensures exec(MergeEach(start, runs[..i + 1])).None? ==> exec(MergeEach(start, runs)).None?
  {
    assert runs[..i + 1][..i] == runs[..i];
    if exec(MergeEach(start, runs[..i + 1])).None? {
      MergeEachRefused(exec, start, runs, i + 1);
    }
  }

  // ----- what a batch does to the frame

  lemma LastOfBag(values: seq<int>)
    requires values != []
    ensures multiset(values) == multiset(values[..|values| - 1]) + multiset{values[|values| - 1]}
  {
    assert values == values[..|values| - 1] + [values[|values| - 1]];
  }

  lemma TakeOneMore(a: multiset<int>, b: multiset<int>, x: int)
    ensures (a - b) - multiset{x} == a - (b + multiset{x})
    ensures (a + b) + multiset{x} == a + (b + multiset{x})
  {
  }

  lemma {:induction false} AddEachFrame(run: Run, values: seq<int>)
    ensures Frame(AddEach(run, values)) == Frame(run) + multiset(values)
  {
    if values == [] {
    } else {
      var init, last := values[..|values| - 1], values[|values| - 1];
      AddEachFrame(run, init);
      LastOfBag(values);
      TakeOneMore(Frame(run), multiset(init), last);
    }
  }

  lemma {:induction false} RetractEachFrame(run: Run, values: seq<int>)
    ensures Frame(RetractEach(run, values)) == Frame(run) - multiset(values)
  {
    if values == [] {
    } else {
      var init, last := values[..|values| - 1], values[|values| - 1];
      RetractEachFrame(run, init);
      LastOfBag(values);
      TakeOneMore(Frame(run), multiset(init), last);
    }
  }

  /** Every row of the column joined the group, each as often as it stands there. */
  ghost predicate RowsJoined(before: multiset<int>, after: multiset<int>, values: seq<Option<int>>) {
    forall v: int :: after[v] == before[v] + RowsWith(values, v)
  }

  /** Every row of the column left the group, as far as there were any. */
  ghost predicate RowsLeft(before: multiset<int>, after: multiset<int>, values: seq<Option<int>>) {
    forall v: int :: after[v] == if RowsWith(values, v) <= before[v] then before[v] - RowsWith(values, v) else 0
  }

  lemma ColumnJoins(run: Run, values: seq<Option<int>>)
    ensures RowsJoined(Frame(run), Frame(AddEach(run, NonNull(values))), values)
  {
    AddEachFrame(run, NonNull(values));
    forall v: int
      ensures Frame(AddEach(run, NonNull(values)))[v] == Frame(run)[v] + RowsWith(values, v)
    {
      NonNullBag(values, v);
    }
  }

  lemma ColumnLeaves(run: Run, values: seq<Option<int>>)
    ensures RowsLeft(Frame(run), Frame(RetractEach(run, NonNull(values))), values)
  {
    RetractEachFrame(run, NonNull(values));
    forall v: int
      ensures multiset(NonNull(values))[v] == RowsWith(values, v)
    {
      NonNullBag(values, v);
    }
  }

  /** The frames of the shards whose state is there. */
  ghost function Frames(shards: seq<Option<Run>>): multiset<int> {
    if shards == [] then multiset{}
    else Frames(shards[..|shards| - 1]) + match shards[|shards| - 1] case None => multiset{} case Some(run) => Frame(run)
  }

  lemma MergeOneMore(run: Run, runs: seq<Run>, shard: Run)
    ensures Frame(MergeEach(run, runs + [shard])) == Frame(MergeEach(run, runs)) + Frame(shard)
  {
    assert (runs + [shard])[..|runs|] == runs;
  }

  lemma {:induction false} MergeEachFrame(run: Run, shards: seq<Option<Run>>)
    ensures Frame(MergeEach(run, NonNull(shards))) == Frame(run) + Frames(shards)
  {
    if shards == [] {
    } else {
      var n := |shards| - 1;
      MergeEachFrame(run, shards[..n]);
      if shards[n].Some? {
        MergeOneMore(run, NonNull(shards[..n]), shards[n].value);
      } else {
        assert NonNull(shards) == NonNull(shards[..n]);
      }
    }
  }
}
